/**
  The peer controller's change-feed handlers. The tunnel server's peer table is
  a map from peer address to how to dial it; its key set is the session set.
 */
module HostEvents {
  import opened Registry
  import opened HostTypes
  import opened Status

  /** How the tunnel server reaches a peer: its websocket URL and the token it presents. */
  datatype Peer = Peer(url: string, token: string)

  type Sessions = map<string, Peer>

  function DialUrl(address: string): string
  {
    "ws://" + address + "/connect"
  }

  /**
    An added Host: the node's own record is ignored; a foreign address gets a
    peer entry unless one already exists. The record's status is not looked at.
   */
  function OnAdd(self: string, s: Sessions, h: Host): (r: Sessions)
    ensures h.value.address == self || h.value.address in s ==> r == s
    ensures h.value.address != self && h.value.address !in s ==>
      && r.Keys == s.Keys + {h.value.address}
      && r[h.value.address] == Peer("ws://" + h.value.address + "/connect", h.value.token)
      && forall id | id in s :: r[id] == s[id]
  {
    var addr := h.value.address;
    if addr != self && addr !in s then s[addr := Peer(DialUrl(addr), h.value.token)] else s
  }

  /** The update handler only classifies and logs; the sessions are passed through untouched. */
  function OnUpdate(s: Sessions, before: Host, after: Host): (r: (Sessions, Transition))
    ensures r.0 == s
    ensures r.1 == Echo <==> before.version == after.version
    ensures r.1 != Echo ==> r.1 == StatusChange(before.value.status, after.value.status)
  {
    if before.version == after.version then (s, Echo)
    else (s, StatusChange(before.value.status, after.value.status))
  }

  /** A deleted Host's address loses its peer entry, whether or not it had one. */
  function OnDelete(s: Sessions, h: Host): (r: Sessions)
    ensures h.value.address !in r
    ensures forall id | id in s && id != h.value.address :: id in r && r[id] == s[id]
    ensures r.Keys <= s.Keys
  {
    s - {h.value.address}
  }

  /** A duplicate Added delivery changes nothing. */
  lemma OnAddIdempotent(self: string, s: Sessions, h: Host)
    ensures OnAdd(self, OnAdd(self, s, h), h) == OnAdd(self, s, h)
  {
  }

  /** The add handler's effect does not depend on the record's status. */
  lemma OnAddIgnoresStatus(self: string, s: Sessions, h: Host, status: string)
    ensures OnAdd(self, s, h.(value := h.value.(status := status))) == OnAdd(self, s, h)
  {
  }

  lemma OnDeleteIdempotent(s: Sessions, h: Host)
    ensures OnDelete(OnDelete(s, h), h) == OnDelete(s, h)
  {
  }

  /** Adding a fresh foreign peer and then deleting its record restores the sessions. */
  lemma AddThenDelete(self: string, s: Sessions, h: Host)
    requires h.value.address !in s
    ensures OnDelete(OnAdd(self, s, h), h) == s
  {
  }

  /** One change-feed notification. */
  datatype Event = Added(h: Host) | Updated(before: Host, after: Host) | Deleted(h: Host)

  function Deliver(self: string, s: Sessions, e: Event): Sessions
  {
    match e
    case Added(h) => OnAdd(self, s, h)
    case Updated(before, after) => OnUpdate(s, before, after).0
    case Deleted(h) => OnDelete(s, h)
  }

  /** The sessions after the handlers have seen `es`, in order. */
  function Replay(self: string, s: Sessions, es: seq<Event>): Sessions
    decreases |es|
  {
    if |es| == 0 then s else Replay(self, Deliver(self, s, es[0]), es[1..])
  }

  /** Every peer entry dials its own address. */
  ghost predicate WellFormed(s: Sessions)
  {
    forall id | id in s :: s[id].url == DialUrl(id)
  }

  function AddedAddresses(es: seq<Event>): set<string>
  {
    set i | 0 <= i < |es| && es[i].Added? :: es[i].h.value.address
  }

  /**
    Over any sequence of notifications the node never holds a session to
    itself, every entry dials its own address, and every new session comes
    from an Added notification.
   */
  lemma {:induction false} ReplayInvariant(self: string, s: Sessions, es: seq<Event>)
    requires WellFormed(s) && self !in s
    ensures WellFormed(Replay(self, s, es))
    ensures self !in Replay(self, s, es)
    ensures Replay(self, s, es).Keys <= s.Keys + AddedAddresses(es)
    decreases |es|
  {
    if |es| > 0 {
      var s' := Deliver(self, s, es[0]);
      ReplayInvariant(self, s', es[1..]);
      assert AddedAddresses(es[1..]) <= AddedAddresses(es) by {
        forall a | a in AddedAddresses(es[1..]) ensures a in AddedAddresses(es) {
          var i :| 0 <= i < |es[1..]| && es[1..][i].Added? && es[1..][i].h.value.address == a;
          assert es[i + 1] == es[1..][i];
        }
      }
      if es[0].Added? {
        assert es[0].h.value.address in AddedAddresses(es);
      }
    }
  }

  /** Updated notifications alone never change the sessions. */
  lemma {:induction false} UpdatesAreInert(self: string, s: Sessions, es: seq<Event>)
    requires forall i | 0 <= i < |es| :: es[i].Updated?
    ensures Replay(self, s, es) == s
    decreases |es|
  {
    if |es| > 0 {
      UpdatesAreInert(self, s, es[1..]);
    }
  }
}
