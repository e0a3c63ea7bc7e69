# hostmanager reconciliation core, in Dafny

This project models the decision logic of the two controllers in the
hostmanager repository. Both run over a Kubernetes-style resource store.

- The **peer (host) controller** keeps the tunnel server's peer table in step
  with the Host records it watches. It also publishes the node's own Host
  record: it upserts the record at start-up, marks dropped peers UnAvailable,
  and deletes its own record when the exit signal arrives.
- The **catalog controller** merge-patches Catalog records. It also deletes
  them idempotently and classifies change notifications.

Everything is pure and functional:

- The store is a `map<Key, Entry>` plus a revision counter. Every successful
  write stamps the record with a fresh version. Updates carry the version they
  read, and a stale version is refused with `Conflict`.
- The peer table is a `map<string, Peer>` keyed by peer address. Its key set is
  the session set.
- The exit loop is a fold over a sequence of `PeerExit(id)` / `Exit` messages.

Modules:

| module | file | models |
|---|---|---|
| `Text` | text.dfy | `strings.Replace(s, ":", "-", 1)` and key splitting helpers |
| `Hex` | hex.dfy | `fmt.Sprintf("%x", bytes)` and its inverse |
| `Registry` | registry.dfy | the resource store: get/create/update/delete with versions |
| `Status` | status.dfy | the `Available`/`UnAvailable` constants and update classification |
| `HostTypes` | host_types.dfy | `HostSpec` and the `default` namespace |
| `HostEvents` | host_events.dfy | the Add/Update/Delete handlers of the peer controller |
| `SelfRegistrar` | self_registrar.dfy | `updateHostStatus`, `deleteHost`, the exit loop, `getFirtIP`, `RandToken`, start-up |
| `HostWorker` | host_worker.dfy | `processNextWorkItem`, `syncHandler`, key splitting |
| `CatalogTypes` | catalog_types.dfy | `CatalogSpec` and `Catalog` |
| `CatalogController` | catalog_controller.dfy | `GetNoEmptyValues`, `UpdateCatalog`, `DeleteCatalog`, the handler filters |

## Behaviour worth noting

- The host update handler only logs (pkg/controller.go:116-128). It never adds
  or removes a session, and it does not compare namespaces. Only the catalog
  update handler does that (catalogmanager/pkg/controller.go:85).
- The host add handler does not look at the record's status
  (pkg/controller.go:104-115). It adds a peer for every foreign address that
  has no session yet.
- A failed sync is reported and dropped (pkg/controller.go:294-306). There is
  no `AddRateLimited` on the error path.
- `updateHostStatus` reads the record under a name mangled twice
  (pkg/controller.go:202) but writes under a name mangled once (line 201).
  - With at most one `:` in the peer id, the two names agree
    (`MangleSettles`). Every upsert property is stated under that condition.
  - With two or more `:`, the names always differ (`MangleTwiceDiverges`).
  - The API server accepts only DNS-subdomain names, so it rejects a name that
    still holds a `:`. The status of such a peer is therefore never written.
    This model's store does not validate names (see "Left out").
  - `UpsertMissesStaleName` is a scenario inside this model only. A record
    stored under "a-b:c" makes the read miss and the create collide.

## Model

| member | source | states |
|---|---|---|
| Text.ReplaceFirst | pkg/controller.go:201 | only the first occurrence of the pattern is replaced; every other character, later occurrences included, is kept, and the length is unchanged |
| Text.ReplaceAt | pkg/controller.go:201 | when position i holds the first occurrence of the pattern, the result is the string with exactly that position replaced |
| Text.ReplaceFirstCount | pkg/controller.go:201 | replacing the first `:` by `-` removes exactly one `:` when there is one, none otherwise |
| SelfRegistrar.MangleSettles | pkg/controller.go:201-202 | with at most one `:`, the mangled name has no `:` left, so the Get key at line 202 equals the write key at line 201 |
| SelfRegistrar.Mangle | pkg/controller.go:201 | the record name keeps the peer id's length and every character other than `:`; it has one `:` fewer when the id has any, and equals the id when it has none |
| SelfRegistrar.MangleTwiceDiverges | pkg/controller.go:201-202 | for every peer id with two or more `:`, mangling twice gives a different name than mangling once, so the read key differs from the write key |
| SelfRegistrar.MangleTwiceExample | pkg/controller.go:201-202 | for "a:b:c" the write name is "a-b:c" and the read name is "a-b-c" |
| SelfRegistrar.UpsertMissesStaleName | pkg/controller.go:201-216 | within this model, whose store accepts any name: for "a:b:c" with a record stored under "a-b:c" only, the upsert reads NotFound, its create is refused, and the store is unchanged |
| Hex.Encode | pkg/controller.go:181 | `%x` of a byte string is twice its length and made only of the digits 0-9 and a-f |
| Hex.EncodeAt | pkg/controller.go:181 | byte i is rendered as its high nibble's digit at position 2i and its low nibble's digit at 2i+1 |
| Hex.DecodeEncode | pkg/controller.go:178-182 | the hex text of any byte string decodes back to those bytes |
| Hex.EncodeDecode | pkg/controller.go:178-182 | any text that decodes is exactly the hex rendering of its bytes (the rendering is a bijection onto even-length lower-case hex) |
| SelfRegistrar.RandToken | pkg/controller.go:178-182 | the token has two lower-case hex digits per random byte and decodes back to the bytes |
| SelfRegistrar.FirstUsable | pkg/controller.go:167-171 | the first index whose address is an IP network address, not loopback and IPv4; none exactly when no entry qualifies |
| SelfRegistrar.FirstIP | pkg/controller.go:162-175 | an unreadable interface list gives ""; otherwise the result is the text of the first qualifying address, or "" when none qualifies |
| SelfRegistrar.NewController | pkg/controller.go:82-99 | start-up fails exactly when no address qualifies (or its text is empty); otherwise the identity is that address followed by the port, and the token is the 32-digit hex of the 16 random bytes |
| Status.StatusChange | pkg/controller.go:122-126 | an update is Recovered exactly for UnAvailable to Available, Lost exactly for Available to UnAvailable, and Steady for every other pair, equal statuses included |
| HostEvents.OnAdd | pkg/controller.go:104-115 | the node's own address or an address that already has a session leaves the sessions unchanged; a new foreign address gains exactly one entry dialling ws://addr/connect with the record's token, and no other entry changes |
| HostEvents.OnAddIgnoresStatus | pkg/controller.go:104-115 | the add handler's effect is the same whatever the record's status |
| HostEvents.OnAddIdempotent | pkg/controller.go:106-113 | a duplicate Added delivery changes nothing, so a peer never gets two sessions |
| HostEvents.OnUpdate | pkg/controller.go:116-128 | the sessions are never changed; the event is an echo exactly when the versions are equal, and otherwise is classified by its status pair |
| HostEvents.OnDelete | pkg/controller.go:129-134 | the deleted record's address has no session afterwards, whether or not it had one; every other session is kept and none is added |
| HostEvents.OnDeleteIdempotent | pkg/controller.go:129-133 | delivering the same Deleted event twice gives the same sessions as once |
| HostEvents.AddThenDelete | pkg/controller.go:104-133 | adding a peer that had no session and then deleting its record restores the original sessions |
| HostEvents.ReplayInvariant | pkg/controller.go:103-135 | over any sequence of notifications, the node never holds a session to itself, every session dials its own address, and every session either existed before or comes from an Added notification |
| HostEvents.UpdatesAreInert | pkg/controller.go:116-128 | any sequence of Updated notifications leaves the sessions as they were |
| SelfRegistrar.UpsertWrite | pkg/controller.go:200-242 | the upsert creates when the read finds nothing, and otherwise updates at the version it read, always with the new address, status, the node's token and info; an unreachable store gets no write |
| SelfRegistrar.UpdateHostStatus | pkg/controller.go:200-243 | for a peer id with at most one `:`, the record named by mangling it ends up holding exactly the new spec at a fresh version, created or updated; no other record changes; an unreachable store is left as it was |
| SelfRegistrar.DeleteHost | pkg/controller.go:184-198 | an absent record or an unreachable store leaves everything unchanged; otherwise exactly that record is removed |
| SelfRegistrar.DeleteHostIdempotent | pkg/controller.go:184-198 | deleting twice is the same as deleting once |
| SelfRegistrar.RegisterThenDeregister | pkg/controller.go:184-243 | upserting an identity and then deleting its mangled name leaves every other record as it was and none under that name |
| SelfRegistrar.Leading | pkg/controller.go:141-153 | counts the peer-exit messages before the first Exit; it is less than the message count exactly when an Exit arrives |
| SelfRegistrar.Plan | pkg/controller.go:140-157 | the loop marks each peer that exits before Exit UnAvailable, in arrival order, and then, only if Exit arrives, deletes its own record once, as the last action |
| SelfRegistrar.PlanIgnoresAfterExit | pkg/controller.go:141-145 | messages received after Exit do not change what the loop does |
| SelfRegistrar.ExitLoop | pkg/controller.go:140-157 | the loop leaves an unreachable store unchanged, and changes no record other than those of the peers that exit before Exit and the node's own |
| SelfRegistrar.ExitLoopFollowsPlan | pkg/controller.go:140-157 | the loop's effect on the store is exactly that of its planned actions, performed in order |
| SelfRegistrar.ExitRemovesSelf | pkg/controller.go:144-155 | once Exit has been received, a reachable store holds no record under the node's own mangled name |
| SelfRegistrar.Lifecycle | pkg/controller.go:137-157 | start-up registration followed by the exit loop: an unreachable store is unchanged, after Exit the node's own record is gone, and only the exited peers' and the node's records change |
| SelfRegistrar.RegistrationRoundTrip | pkg/controller.go:137-157 | start-up leaves the node's record Available with its token, and after Exit that record no longer exists |
| HostWorker.SplitKey | pkg/controller.go:314-318 | a key splits exactly when it holds at most one '/'; neither part then contains '/' |
| HostWorker.SplitJoin | pkg/controller.go:314 | splitting the key built from a namespace and a name gives those back |
| HostWorker.JoinSplit | pkg/controller.go:314 | a well-formed key not starting with '/' is rebuilt from its parts |
| HostWorker.SyncHandler | pkg/controller.go:312-339 | a malformed key and a missing record are not errors; only an unreachable cache is; a found record is the cached one under the split key |
| HostWorker.ProcessNext | pkg/controller.go:273-309 | only a drained, shut-down queue stops the worker; the head item is removed and never put back; success and non-string items are forgotten, and a failed sync keeps its failure count |
| HostWorker.RunWorker | pkg/controller.go:267-279 | once every queued item is handled, in one turn each, the queue is empty with its shutdown flag as it was; the loop has ended exactly when the queue was shut down (processNextWorkItem then returns false), and otherwise the next turn is Idle, i.e. the worker waits in Get |
| HostWorker.RunWorkerHandlesEachOnce | pkg/controller.go:267-309 | a worker handles each queued item exactly once, in queue order, and leaves the queue empty: failures are not retried |
| CatalogController.GetNoEmptyValues | catalogmanager/pkg/controller.go:137-156 | a non-empty value wins; an empty one falls back to the stored field the name selects (Name, Url, Username, Password, Description, Status); an unknown name gives "" |
| CatalogController.Merge | catalogmanager/pkg/controller.go:182-195 | a merged field is empty only when both the request and the stored value are empty; an all-empty request keeps the record; a request with every field supplied replaces it |
| CatalogController.MergeIdempotent | catalogmanager/pkg/controller.go:182-195 | merging the same request twice equals merging it once |
| CatalogController.MergeCompose | catalogmanager/pkg/controller.go:182-195 | two merges in a row equal one merge of the field-wise overlay, in which the later non-empty value wins |
| CatalogController.UpdateCatalogWrite | catalogmanager/pkg/controller.go:158-203 | absent: a create of exactly the supplied values; present: an update under the same namespace and name at the version read, carrying the merge |
| CatalogController.UpdateCatalog | catalogmanager/pkg/controller.go:158-204 | an absent record is created with exactly the supplied values, empty ones included; a present one is merge-patched at a fresh version; no other record changes; an unreachable store is left as it was |
| CatalogController.UpdateCatalogIdempotent | catalogmanager/pkg/controller.go:158-204 | issuing the same update twice leaves the record's contents as after the first |
| CatalogController.EmptyUpdateKeepsContents | catalogmanager/pkg/controller.go:182-195 | an update with every value empty keeps an existing record's spec and status |
| CatalogController.DeleteCatalog | catalogmanager/pkg/controller.go:121-135 | an absent record or an unreachable store leaves everything unchanged; otherwise exactly that record is removed |
| CatalogController.DeleteCatalogIdempotent | catalogmanager/pkg/controller.go:121-135 | deleting twice is the same as deleting once |
| CatalogController.CreateThenDelete | catalogmanager/pkg/controller.go:121-175 | creating an absent record and deleting it again restores every record |
| CatalogController.CatalogScenario | catalogmanager/main.go:26-29 | create "xyz" as (UnAvailable, aaa, bbb, ccc, ddd, 11111111111), update with (Available, 111, "", "", "", 55555555555): the record is Available, 111, bbb, ccc, ddd, 55555555555 |
| CatalogController.OnCatalogAdd | catalogmanager/pkg/controller.go:72-78 | the add handler reports an Available record, and never an UnAvailable one or one with an empty or unknown status |
| CatalogController.OnCatalogUpdate | catalogmanager/pkg/controller.go:79-95 | an equal version is an echo; a different namespace is ignored; only a same-namespace change of version reaches the status classification |
| CatalogController.UpdateTracksAddFilter | catalogmanager/pkg/controller.go:72-93 | for the two known statuses, a same-namespace update with a new version is Recovered exactly when the add handler's Available filter goes from rejecting to accepting the record, Lost exactly for the reverse, and Steady when the filter's verdict is unchanged |

## Left out

- Tunnel sessions are a map from peer address to dial URL and token. The
  remotedialer server's internals, the HTTP routes and the proxying
  (main.go:40-125) are a foreign library and network I/O. The model assumes
  that `HasSession(addr)` consults the same table that `AddPeer` and
  `RemovePeer` write, keyed by the address. The library source is not part of
  this model. One consequence is that a repeated Added event carrying a new
  token keeps the old token: `OnAdd` skips any address already present.
- Informers, listers, `WaitForCacheSync` and `Run` are left out. So are the
  work queue's deduplication, rate limiting and backoff. That is library code,
  and no Add or AddRateLimited is ever reached: the `enqueueHost`/`enqueueHostForDelete`
  calls at pkg/controller.go:114, 127 and 133 are commented out. `HostWorker.Queue`
  keeps only a FIFO list, the shutdown flag and per-item failure counts that
  Forget clears.
- `HostWorker.SplitKey` follows client-go's documented
  `SplitMetaNamespaceKey` behaviour: zero, one, or too many '/'. The library
  source is not part of this model.
- Kubeconfig loading, clientset construction, the `klog.Fatalf` paths, logging
  and `CreateNamespace` (catalogmanager/pkg/controller.go:109-119) are
  configuration and I/O.
- Goroutines, `sync.WaitGroup` and `select` are not modelled. The exit loop is
  a sequential fold over the messages in the order they are received. Without
  an Exit message the goroutine would block forever; the fold just stops at
  the end of the sequence.
- `crypto/rand` and `net.InterfaceAddrs` become parameters: the random bytes
  and the address list. `None` stands for a failed interface lookup. The
  `HostInfo` text built from `runtime` values is the `info` parameter.
- `os.Hostname` is not modelled. Its condition at pkg/controller.go:90-94 is
  inverted, and its result is never used.
- The store model does not validate record names. The real API server
  rejects a Host name that is not a DNS subdomain, such as one still holding
  a `:` after mangling. Such writes succeed here, and `UpsertMissesStaleName`
  describes a store the real server cannot reach.
- HostWorker.RunWorker: the model returns once the queued items are handled.
  runWorker instead stays in its loop, blocked in `Get`, until new work
  arrives or the queue is shut down. The result's `stopped` flag says which
  of the two it is; new work arriving later is not modelled.
- Registry.Put: every successful update stamps a fresh version, even one
  that changes nothing, such as `UpdateCatalog` with an all-empty request.
  This is a property of the abstract store. Whether the real API server
  bumps resourceVersion on a no-op update is not modelled.
- HostEvents.OnDelete: the delete handler casts its argument to a Host without
  checking (pkg/controller.go:130). A `DeletedFinalStateUnknown` tombstone from
  the informer therefore makes it panic before `RemovePeer` runs. The model's
  Deleted event always carries a Host, and it omits this crash path.
- Store errors other than NotFound, AlreadyExists and Conflict are one
  `Unreachable` error, raised while the store is offline. Every controller
  logs it and leaves state unchanged.
- The catalog delete handler (catalogmanager/pkg/controller.go:96-101) only
  logs. It has no decision to model.
- catalogmanager/main.go as a program: its calls pass one argument fewer than
  the signatures at catalogmanager/pkg/controller.go:121 and 158. It appears
  only as the scenario in `CatalogScenario`, in a namespace of the caller's
  choosing.
- test/test.go inspects netlink and network namespaces. It is not part of
  this model.
