/**
  The peer controller's work-queue worker: take one item, hand string keys to
  the sync handler, and classify what happened. The handler reads a snapshot of
  the informer cache, modelled as a store, and never writes anything.
 */
module HostWorker {
  import opened Options
  import opened Text
  import opened Registry
  import opened HostTypes

  /** A queued item: a "namespace/name" key, or some object that is not a string. */
  datatype Item = KeyItem(key: string) | Foreign

  /**
    The work queue: items waiting in FIFO order, whether shutdown was requested,
    and the rate limiter's per-item failure counts, which Forget clears.
   */
  datatype Queue = Queue(pending: seq<Item>, shuttingDown: bool, failures: map<Item, nat>)

  /** "namespace/name" for a namespaced object, just the name otherwise. */
  function JoinKey(namespace: string, name: string): string
  {
    if namespace == "" then name else namespace + "/" + name
  }

  /**
    Splits a key at its '/': no '/' means the empty namespace, one '/' separates
    namespace from name, more than one is a malformed key.
   */
  function SplitKey(key: string): (r: Option<(string, string)>)
    ensures r.Some? <==> Count(key, '/') <= 1
    ensures r.Some? ==> '/' !in r.value.0 && '/' !in r.value.1
  {
    CountPositive(key, '/');
    match FirstIndex(key, '/')
    case None => Some(("", key))
    case Some(i) =>
      var ns := key[..i];
      var name := key[i + 1..];
      assert key == ns + "/" + name;
      CountConcat(ns + "/", name, '/');
      CountConcat(ns, "/", '/');
      CountPositive(ns, '/');
      CountPositive(name, '/');
      if Count(key, '/') == 1 then Some((ns, name)) else None
  }

  /** Splitting a joined key gives back its parts. */
  lemma SplitJoin(namespace: string, name: string)
    requires '/' !in namespace && '/' !in name
    ensures SplitKey(JoinKey(namespace, name)) == Some((namespace, name))
  {
    var key := JoinKey(namespace, name);
    if namespace != "" {
      assert key == namespace + "/" + name;
      assert key[|namespace|] == '/';
      assert key[..|namespace|] == namespace;
      assert key[|namespace| + 1..] == name;
      CountConcat(namespace + "/", name, '/');
      CountConcat(namespace, "/", '/');
      CountPositive(namespace, '/');
      CountPositive(name, '/');
    }
  }

  /**
    Joining the parts of a well-formed key gives back the key, unless the key
    starts with '/': "/x" splits into the empty namespace and "x".
   */
  lemma JoinSplit(key: string)
    requires SplitKey(key).Some?
    requires |key| == 0 || key[0] != '/'
    ensures JoinKey(SplitKey(key).value.0, SplitKey(key).value.1) == key
  {
  }

  /** What the sync handler found. Only ListFailed is reported as an error. */
  datatype SyncOutcome =
    | MalformedKey            // key not splittable: reported and dropped
    | Deleted(key: Key)       // no such Host any more
    | Observed(host: Host)    // the desired state, logged only
    | ListFailed(error: Error)

  function SyncHandler(cache: Store<HostSpec>, key: string): (r: SyncOutcome)
    ensures r.MalformedKey? <==> Count(key, '/') > 1
    ensures r.ListFailed? <==> Count(key, '/') <= 1 && !cache.online
    ensures r.Deleted? ==> r.key !in cache.entries && SplitKey(key) == Some((r.key.namespace, r.key.name))
    ensures r.Observed? ==> r.host.key in cache.entries && r.host.value == cache.entries[r.host.key].value
    ensures r.Observed? ==> SplitKey(key) == Some((r.host.key.namespace, r.host.key.name))
  {
    match SplitKey(key)
    case None => MalformedKey
    case Some((ns, name)) =>
      match Get(cache, Key(ns, name))
      case Ok(h) => Observed(h)
      case Err(NotFound) => Deleted(Key(ns, name))
      case Err(e) => ListFailed(e)
  }

  /** How one turn of the worker ended. */
  datatype Turn =
    | Shutdown            // queue drained and shut down: the worker stops
    | Idle                // nothing queued yet: the worker would block
    | NotAKey             // a non-string item: forgotten and reported
    | Synced(outcome: SyncOutcome)
    | Failed(error: Error)

  datatype Step = Step(queue: Queue, more: bool, turn: Turn)

  /** Forget: the rate limiter stops tracking the item. */
  function Forget(q: Queue, item: Item): Queue
  {
    q.(failures := q.failures - {item})
  }

  /**
    processNextWorkItem: the head item is always removed and never put back;
    success and non-string items are forgotten, a failed sync keeps its
    failure count. Only a drained, shut-down queue stops the worker.
   */
  function ProcessNext(q: Queue, cache: Store<HostSpec>): (r: Step)
    ensures !r.more <==> |q.pending| == 0 && q.shuttingDown
    ensures |q.pending| == 0 ==> r.queue == q && r.turn in {Shutdown, Idle}
    ensures |q.pending| > 0 ==> r.queue.pending == q.pending[1..] && r.queue.shuttingDown == q.shuttingDown
    ensures |q.pending| > 0 && r.turn.Failed? ==> r.queue.failures == q.failures
    ensures |q.pending| > 0 && !r.turn.Failed? ==> r.queue.failures == q.failures - {q.pending[0]}
    ensures |q.pending| > 0 ==> (r.turn.Failed? <==> q.pending[0].KeyItem? && SyncHandler(cache, q.pending[0].key).ListFailed?)
  {
    if |q.pending| == 0 then
      if q.shuttingDown then Step(q, false, Shutdown) else Step(q, true, Idle)
    else
      var item := q.pending[0];
      var q' := q.(pending := q.pending[1..]);
      match item
      case Foreign => Step(Forget(q', item), true, NotAKey)
      case KeyItem(key) =>
        var o := SyncHandler(cache, key);
        if o.ListFailed? then Step(q', true, Failed(o.error))
        else Step(Forget(q', item), true, Synced(o))
  }

  /** The turn the worker takes on one item. */
  function TurnFor(cache: Store<HostSpec>, item: Item): Turn
  {
    match item
    case Foreign => NotAKey
    case KeyItem(key) =>
      var o := SyncHandler(cache, key);
      if o.ListFailed? then Failed(o.error) else Synced(o)
  }

  /**
    What runWorker has done once every queued item is handled: the queue it
    left, the turns it took, and whether the loop has ended. When it has not,
    the worker sits blocked in Get, waiting for new work or ShutDown.
   */
  datatype Run = Run(queue: Queue, turns: seq<Turn>, stopped: bool)

  /**
    runWorker: turns while processNextWorkItem says there is more. The loop
    ends exactly when the drained queue is shut down; a live queue leaves the
    worker waiting (the Idle turn), which the result reports as not stopped.
   */
  function RunWorker(q: Queue, cache: Store<HostSpec>): (r: Run)
    ensures r.queue.pending == [] && r.queue.shuttingDown == q.shuttingDown
    ensures |r.turns| == |q.pending|
    ensures r.stopped <==> q.shuttingDown
    ensures r.stopped <==> !ProcessNext(r.queue, cache).more
    ensures !r.stopped ==> ProcessNext(r.queue, cache).turn == Idle
    decreases |q.pending|
  {
    if |q.pending| == 0 then
      var step := ProcessNext(q, cache);
      Run(q, [], !step.more)
    else
      var step := ProcessNext(q, cache);
      var rest := RunWorker(step.queue, cache);
      rest.(turns := [step.turn] + rest.turns)
  }

  /**
    A worker handles each queued item exactly once, in queue order, and ends
    with an empty queue: a failed sync is not retried.
   */
  lemma {:induction false} RunWorkerHandlesEachOnce(q: Queue, cache: Store<HostSpec>)
    ensures RunWorker(q, cache).queue.pending == []
    ensures |RunWorker(q, cache).turns| == |q.pending|
    ensures forall i | 0 <= i < |q.pending| :: RunWorker(q, cache).turns[i] == TurnFor(cache, q.pending[i])
    decreases |q.pending|
  {
    if |q.pending| > 0 {
      var step := ProcessNext(q, cache);
      RunWorkerHandlesEachOnce(step.queue, cache);
      assert step.turn == TurnFor(cache, q.pending[0]);
      forall i | 1 <= i < |q.pending|
        ensures RunWorker(q, cache).turns[i] == TurnFor(cache, q.pending[i])
      {
        assert q.pending[i] == step.queue.pending[i - 1];
      }
    }
  }
}
