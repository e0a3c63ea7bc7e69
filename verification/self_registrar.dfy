/**
  What a node does about its own identity: pick its address and token at
  start-up, upsert Host records (its own, and UnAvailable marks for peers whose
  tunnel dropped), and on exit delete its own record as the last act.
 */
module SelfRegistrar {
  import opened Options
  import opened Text
  import opened Hex
  import opened Registry
  import opened HostTypes
  import opened Status

  /** The node's identity: its tunnel server URL, its token and the runtime description it publishes. */
  datatype Controller = Controller(serverUrl: string, token: string, info: string)

  /** Record name for a peer id: the first ':' becomes '-'. */
  function Mangle(peerid: string): (r: string)
    ensures |r| == |peerid|
    ensures ':' !in peerid ==> r == peerid
    ensures ':' in peerid ==> Count(r, ':') + 1 == Count(peerid, ':')
    ensures forall j | 0 <= j < |peerid| && peerid[j] != ':' :: r[j] == peerid[j]
  {
    ReplaceFirstCount(peerid, ':', '-');
    ReplaceFirst(peerid, ':', '-')
  }

  /** With at most one ':' the mangled name has none left, so mangling again changes nothing. */
  lemma MangleSettles(peerid: string)
    requires Count(peerid, ':') <= 1
    ensures ':' !in Mangle(peerid)
    ensures Mangle(Mangle(peerid)) == Mangle(peerid)
  {
    ReplaceFirstCount(peerid, ':', '-');
    CountPositive(peerid, ':');
    CountPositive(Mangle(peerid), ':');
  }

  /** Mangling "a:b:c" replaces only its first ':'. */
  lemma MangleFirstColon()
    ensures Mangle("a:b:c") == "a-b:c"
  {
    assert "a:b:c"[..1] == "a";
    ReplaceAt("a:b:c", 1, ':', '-');
    assert "a:b:c"[..1] + ['-'] + "a:b:c"[2..] == "a-b:c";
  }

  /** With two or more ':' the name the upsert reads differs from the name it writes. */
  lemma MangleTwiceDiverges(peerid: string)
    requires Count(peerid, ':') >= 2
    ensures Mangle(Mangle(peerid)) != Mangle(peerid)
  {
    CountPositive(peerid, ':');
    CountPositive(Mangle(peerid), ':');
    assert Count(Mangle(Mangle(peerid)), ':') + 1 == Count(Mangle(peerid), ':');
  }

  /** The two names for "a:b:c". */
  lemma MangleTwiceExample()
    ensures Mangle("a:b:c") == "a-b:c"
    ensures Mangle(Mangle("a:b:c")) == "a-b-c"
  {
    MangleFirstColon();
    MangleSecondColon();
  }

  lemma MangleSecondColon()
    ensures Mangle("a-b:c") == "a-b-c"
  {
    assert "a-b:c"[..3] == "a-b";
    ReplaceAt("a-b:c", 3, ':', '-');
    assert "a-b:c"[..3] + ['-'] + "a-b:c"[4..] == "a-b-c";
  }

  /** The spec the upsert publishes for `peerid`. */
  function SpecFor(c: Controller, peerid: string, status: string): HostSpec
  {
    HostSpec(peerid, status, c.info, c.token)
  }

  /**
    The write the upsert issues: it reads the record named by mangling the
    already mangled name, creates when that read reports NotFound, updates at
    the version read when it succeeds, and writes nothing on any other error.
   */
  function UpsertWrite(c: Controller, st: Store<HostSpec>, peerid: string, status: string): (w: Option<Write<HostSpec>>)
    ensures !st.online <==> w.None?
    ensures var readKey := HostKey(Mangle(Mangle(peerid)));
      st.online ==>
        if readKey in st.entries
        then w == Some(Update(Object(HostKey(Mangle(peerid)), st.entries[readKey].version, SpecFor(c, peerid, status))))
        else w == Some(Create(HostKey(Mangle(peerid)), SpecFor(c, peerid, status)))
  {
    var name := Mangle(peerid);
    match Get(st, HostKey(Mangle(name)))
    case Ok(h) => Some(Update(Object(HostKey(name), h.version, SpecFor(c, peerid, status))))
    case Err(NotFound) => Some(Create(HostKey(name), SpecFor(c, peerid, status)))
    case Err(_) => None
  }

  /**
    updateHostStatus: for a peer id with at most one ':' the record named
    `Mangle(peerid)` ends up holding exactly the new spec at a fresh version,
    whether it was created or updated, and no other record changes.
   */
  function UpdateHostStatus(c: Controller, st: Store<HostSpec>, peerid: string, status: string): (r: Store<HostSpec>)
    ensures !st.online ==> r == st
    ensures r.online == st.online
    ensures r.entries - {HostKey(Mangle(peerid))} == st.entries - {HostKey(Mangle(peerid))}
    ensures st.online && Count(peerid, ':') <= 1 ==>
      && HostKey(Mangle(peerid)) in r.entries
      && r.entries[HostKey(Mangle(peerid))] == Entry(st.revision + 1, HostSpec(peerid, status, c.info, c.token))
  {
    UpsertEffect(c, st, peerid, status);
    Upsert(c, st, peerid, status)
  }

  function Upsert(c: Controller, st: Store<HostSpec>, peerid: string, status: string): Store<HostSpec>
  {
    match UpsertWrite(c, st, peerid, status)
    case None => st
    case Some(w) => Commit(st, Apply(st, w))
  }

  lemma UpsertEffect(c: Controller, st: Store<HostSpec>, peerid: string, status: string)
    ensures var r := Upsert(c, st, peerid, status);
      && (!st.online ==> r == st)
      && r.online == st.online
      && r.entries - {HostKey(Mangle(peerid))} == st.entries - {HostKey(Mangle(peerid))}
    ensures st.online && Count(peerid, ':') <= 1 ==>
      && HostKey(Mangle(peerid)) in Upsert(c, st, peerid, status).entries
      && Upsert(c, st, peerid, status).entries[HostKey(Mangle(peerid))] == Entry(st.revision + 1, SpecFor(c, peerid, status))
  {
    match UpsertWrite(c, st, peerid, status)
    case None =>
    case Some(w) =>
      assert WriteKey(w) == HostKey(Mangle(peerid));
      if Apply(st, w).Ok? {
        ApplyFrame(st, w);
      }
      if st.online && Count(peerid, ':') <= 1 {
        MangleSettles(peerid);
      }
  }

  /**
    With three or more segments the upsert can miss its own record: the read
    looks under "a-b-c", finds nothing, and the create of "a-b:c" is refused
    because that record exists, so the status is never written.
   */
  lemma UpsertMissesStaleName(c: Controller, st: Store<HostSpec>, status: string)
    requires st.online
    requires HostKey("a-b:c") in st.entries && HostKey("a-b-c") !in st.entries
    ensures UpdateHostStatus(c, st, "a:b:c", status) == st
  {
    MangleTwiceExample();
  }

  /** deleteHost: reads the record and deletes it when present; absent means already clean. */
  function DeleteHost(st: Store<HostSpec>, name: string): (r: Store<HostSpec>)
    ensures HostKey(name) !in st.entries || !st.online ==> r == st
    ensures st.online ==> r.entries == st.entries - {HostKey(name)}
    ensures r.online == st.online
  {
    match Get(st, HostKey(name))
    case Ok(_) => Commit(st, Apply(st, Delete(HostKey(name))))
    case Err(_) => st
  }

  lemma DeleteHostIdempotent(st: Store<HostSpec>, name: string)
    ensures DeleteHost(DeleteHost(st, name), name) == DeleteHost(st, name)
  {
  }

  /** Registering an identity and then deleting its mangled name leaves every other record as it was. */
  lemma RegisterThenDeregister(c: Controller, st: Store<HostSpec>, self: string, status: string)
    requires st.online
    ensures DeleteHost(UpdateHostStatus(c, st, self, status), Mangle(self)).entries == st.entries - {HostKey(Mangle(self))}
  {
  }

  /** The two kinds of message the exit loop receives. */
  datatype Signal = PeerExit(id: string) | Exit

  /** The store actions the exit loop takes. */
  datatype Action = MarkUnavailable(peer: string) | DeleteSelf(name: string)

  /** Number of peer-exit messages that precede the first Exit (all of them if there is none). */
  function Leading(msgs: seq<Signal>): (n: nat)
    ensures n <= |msgs|
    ensures forall i | 0 <= i < n :: msgs[i].PeerExit?
    ensures n < |msgs| <==> Exit in msgs
    ensures n < |msgs| ==> msgs[n] == Exit
  {
    if |msgs| == 0 || msgs[0] == Exit then 0
    else
      assert msgs == [msgs[0]] + msgs[1..];
      1 + Leading(msgs[1..])
  }

  /**
    The actions of the exit loop, in order: one UnAvailable mark per peer
    exit received before Exit, then, if Exit arrives, the deletion of the
    node's own record as the single final action. Nothing after Exit is read.
   */
  function Plan(self: string, msgs: seq<Signal>): (acts: seq<Action>)
    ensures |acts| == Leading(msgs) + (if Exit in msgs then 1 else 0)
    ensures forall i | 0 <= i < Leading(msgs) :: acts[i] == MarkUnavailable(msgs[i].id)
    ensures Exit in msgs ==> acts[|acts| - 1] == DeleteSelf(Mangle(self))
    ensures forall i | 0 <= i < Leading(msgs) :: !acts[i].DeleteSelf?
  {
    if |msgs| == 0 then []
    else
      match msgs[0]
      case Exit => [DeleteSelf(Mangle(self))]
      case PeerExit(id) =>
        assert msgs == [msgs[0]] + msgs[1..];
        assert Exit in msgs <==> Exit in msgs[1..];
        var rest := Plan(self, msgs[1..]);
        assert Leading(msgs) == 1 + Leading(msgs[1..]);
        assert forall i | 1 <= i < Leading(msgs) :: msgs[i] == msgs[1..][i - 1];
        [MarkUnavailable(id)] + rest
  }

  /** Messages that arrive after Exit make no difference. */
  lemma {:induction false} PlanIgnoresAfterExit(self: string, pre: seq<Signal>, post: seq<Signal>)
    requires Exit !in pre
    ensures Plan(self, pre + [Exit] + post) == Plan(self, pre + [Exit])
  {
    if |pre| > 0 {
      assert (pre + [Exit] + post)[1..] == pre[1..] + [Exit] + post;
      assert (pre + [Exit])[1..] == pre[1..] + [Exit];
      PlanIgnoresAfterExit(self, pre[1..], post);
    }
  }

  function Perform(c: Controller, st: Store<HostSpec>, a: Action): Store<HostSpec>
  {
    match a
    case MarkUnavailable(id) => UpdateHostStatus(c, st, id, UnAvailable)
    case DeleteSelf(name) => DeleteHost(st, name)
  }

  function PerformAll(c: Controller, st: Store<HostSpec>, acts: seq<Action>): Store<HostSpec>
    decreases |acts|
  {
    if |acts| == 0 then st else PerformAll(c, Perform(c, st, acts[0]), acts[1..])
  }

  /** The records the exit loop may write: each peer that exits before Exit, and the node itself. */
  ghost function Touched(c: Controller, msgs: seq<Signal>): (t: set<Key>)
    ensures HostKey(Mangle(c.serverUrl)) in t
    decreases |msgs|
  {
    if |msgs| == 0 || msgs[0] == Exit then {HostKey(Mangle(c.serverUrl))}
    else Touched(c, msgs[1..]) + {HostKey(Mangle(msgs[0].id))}
  }

  /**
    The exit loop as the node runs it: a fold over the messages that stops at
    Exit. An unreachable store is left alone, and no record outside the
    exited peers' and the node's own is ever changed.
   */
  function ExitLoop(c: Controller, st: Store<HostSpec>, msgs: seq<Signal>): (r: Store<HostSpec>)
    ensures r.online == st.online
    ensures !st.online ==> r == st
    ensures r.entries - Touched(c, msgs) == st.entries - Touched(c, msgs)
    decreases |msgs|
  {
    if |msgs| == 0 then st
    else
      match msgs[0]
      case Exit => DeleteHost(st, Mangle(c.serverUrl))
      case PeerExit(id) =>
        var st' := UpdateHostStatus(c, st, id, UnAvailable);
        var r := ExitLoop(c, st', msgs[1..]);
        FrameStep(st.entries, st'.entries, r.entries, HostKey(Mangle(id)), Touched(c, msgs[1..]));
        r
  }

  /** Frames compose: a change at `k` followed by changes inside `t` stays inside `t + {k}`. */
  lemma FrameStep<K, V>(a: map<K, V>, b: map<K, V>, c: map<K, V>, k: K, t: set<K>)
    requires b - {k} == a - {k}
    requires c - t == b - t
    ensures c - (t + {k}) == a - (t + {k})
  {
    assert c - (t + {k}) == (c - t) - {k};
    assert a - (t + {k}) == (a - {k}) - t;
    assert b - (t + {k}) == (b - t) - {k};
    assert b - (t + {k}) == (b - {k}) - t;
  }

  /** The loop's effect on the store is exactly that of its planned actions, in order. */
  lemma {:induction false} ExitLoopFollowsPlan(c: Controller, st: Store<HostSpec>, msgs: seq<Signal>)
    ensures ExitLoop(c, st, msgs) == PerformAll(c, st, Plan(c.serverUrl, msgs))
    decreases |msgs|
  {
    if |msgs| > 0 && msgs[0].PeerExit? {
      var st' := UpdateHostStatus(c, st, msgs[0].id, UnAvailable);
      ExitLoopFollowsPlan(c, st', msgs[1..]);
      var acts := Plan(c.serverUrl, msgs);
      assert acts[0] == MarkUnavailable(msgs[0].id);
      assert acts[1..] == Plan(c.serverUrl, msgs[1..]);
    }
  }

  /** Once Exit has been received, the node's own record is gone from a reachable store. */
  lemma {:induction false} ExitRemovesSelf(c: Controller, st: Store<HostSpec>, msgs: seq<Signal>)
    requires st.online && Exit in msgs
    ensures HostKey(Mangle(c.serverUrl)) !in ExitLoop(c, st, msgs).entries
    decreases |msgs|
  {
    if msgs[0].PeerExit? {
      assert msgs == [msgs[0]] + msgs[1..];
      ExitRemovesSelf(c, UpdateHostStatus(c, st, msgs[0].id, UnAvailable), msgs[1..]);
    }
  }

  /** Start-up publishes the node as Available; the exit loop then runs over `msgs`. */
  function Lifecycle(c: Controller, st: Store<HostSpec>, msgs: seq<Signal>): (r: Store<HostSpec>)
    ensures !st.online ==> r == st
    ensures st.online && Exit in msgs ==> HostKey(Mangle(c.serverUrl)) !in r.entries
    ensures r.entries - Touched(c, msgs) == st.entries - Touched(c, msgs)
  {
    var up := UpdateHostStatus(c, st, c.serverUrl, Available);
    var r := ExitLoop(c, up, msgs);
    FrameWiden(st.entries, up.entries, HostKey(Mangle(c.serverUrl)), Touched(c, msgs));
    if st.online && Exit in msgs then
      ExitRemovesSelf(c, up, msgs);
      r
    else
      r
  }

  /** A change confined to `k` is confined to any set holding `k`. */
  lemma FrameWiden<K, V>(a: map<K, V>, b: map<K, V>, k: K, t: set<K>)
    requires k in t && b - {k} == a - {k}
    ensures b - t == a - t
  {
    assert b - t == (b - {k}) - t;
    assert a - t == (a - {k}) - t;
  }

  /**
    Self-registration round trip: start-up leaves the node's own record
    Available with its token, and after Exit that record no longer exists.
   */
  lemma RegistrationRoundTrip(c: Controller, st: Store<HostSpec>, msgs: seq<Signal>)
    requires st.online && Count(c.serverUrl, ':') <= 1
    ensures var up := UpdateHostStatus(c, st, c.serverUrl, Available);
      up.entries[HostKey(Mangle(c.serverUrl))].value == HostSpec(c.serverUrl, Available, c.info, c.token)
    ensures Exit in msgs ==> HostKey(Mangle(c.serverUrl)) !in Lifecycle(c, st, msgs).entries
  {
    if Exit in msgs {
      ExitRemovesSelf(c, UpdateHostStatus(c, st, c.serverUrl, Available), msgs);
    }
  }

  /** One entry of the interface address list. */
  datatype Addr = Addr(isIPNet: bool, loopback: bool, ipv4: bool, text: string)

  /** An address getFirtIP accepts: an IP network address, not loopback, with an IPv4 form. */
  predicate Usable(a: Addr)
  {
    a.isIPNet && !a.loopback && a.ipv4
  }

  /** Reference: the index of the first usable address. */
  function FirstUsable(addrs: seq<Addr>): (r: Option<nat>)
    ensures r.None? <==> forall i | 0 <= i < |addrs| :: !Usable(addrs[i])
    ensures r.Some? ==> r.value < |addrs| && Usable(addrs[r.value])
    ensures r.Some? ==> forall i | 0 <= i < r.value :: !Usable(addrs[i])
  {
    if |addrs| == 0 then None
    else if Usable(addrs[0]) then Some(0)
    else
      match FirstUsable(addrs[1..])
      case None => None
      case Some(i) => Some(i + 1)
  }

  /**
    getFirtIP: scans the interface list (None when it could not be read) and
    returns the text of the first usable address, or "" when there is none.
   */
  method FirstIP(listed: Option<seq<Addr>>) returns (address: string)
    ensures listed.None? ==> address == ""
    ensures listed.Some? ==>
      address == (match FirstUsable(listed.value) case None => "" case Some(i) => listed.value[i].text)
  {
    address := "";
    if listed.None? {
      return;
    }
    var addrs := listed.value;
    var i := 0;
    while i < |addrs|
      invariant 0 <= i <= |addrs|
      invariant forall j | 0 <= j < i :: !Usable(addrs[j])
    {
      if Usable(addrs[i]) {
        address := addrs[i].text;
        return;
      }
      i := i + 1;
    }
  }

  /** Bytes of randomness behind a node's token. */
  const TokenBytes: nat := 16

  /** RandToken: the random bytes rendered as lower-case hex, two digits per byte. */
  function RandToken(entropy: seq<uint8>): (token: string)
    ensures |token| == 2 * |entropy|
    ensures forall i | 0 <= i < |token| :: IsDigit(token[i])
    ensures Decode(token) == Some(entropy)
  {
    DecodeEncode(entropy);
    Encode(entropy)
  }

  /**
    Start-up of the peer controller, without the I/O: the first usable address
    joined with the listen port is the node's identity, and the token is the
    hex of the random bytes. No usable address is fatal.
   */
  method NewController(listed: Option<seq<Addr>>, entropy: seq<uint8>, port: string, info: string)
    returns (c: Option<Controller>)
    requires |entropy| == TokenBytes
    ensures c.None? <==> listed.None? || FirstUsable(listed.value).None? || listed.value[FirstUsable(listed.value).value].text == ""
    ensures c.Some? ==> c.value.serverUrl == listed.value[FirstUsable(listed.value).value].text + port
    ensures c.Some? ==> |c.value.token| == 32 && Decode(c.value.token) == Some(entropy)
    ensures c.Some? ==> c.value.info == info
  {
    var ip := FirstIP(listed);
    if ip == "" {
      return None;
    }
    c := Some(Controller(ip + port, RandToken(entropy), info));
  }
}
