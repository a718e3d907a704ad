/** The pending-prompt map of src/channel.rs, one lock section at a time: what each section does
    to the map, and the registry whose methods run those sections. */
module PendingPrompts {
  import opened Options

  /** Prompts are keyed by identity and request id together. */
  datatype Key = Key(mxid: string, requestId: string)

  /** One outstanding prompt. */
  datatype Pending = Pending(issued: int, session: string, serial: nat)

  type PendingMap = map<Key, Pending>

  /** A peer handle; only its identity matters here. */
  type Peer = nat

  type PeerMap = map<string, map<string, Peer>>

  /** Fifteen minutes, in nanoseconds. */
  const PENDING_TTL: int := 15 * 60 * 1_000_000_000
  const PENDING_MAX: nat := 256

  predicate Unexpired(p: Pending, now: int) {
    now - p.issued < PENDING_TTL
  }

  /** `retain`: what is left once expired prompts are pruned. */
  function Retained(m: PendingMap, now: int): PendingMap {
    map k | k in m && Unexpired(m[k], now) :: m[k]
  }

  /** `after` is `before` with just enough of its oldest prompts dropped to take one more. */
  ghost predicate MadeRoom(before: PendingMap, after: PendingMap) {
    && (forall k :: k in after ==> k in before && after[k] == before[k])
    && (|before| < PENDING_MAX ==> after == before)
    && (|before| >= PENDING_MAX ==> |after| == PENDING_MAX - 1)
    && (forall k, j :: k in before && k !in after && j in after ==> before[k].issued <= before[j].issued)
  }

  /** The lock section of `record_request`. */
  ghost predicate Recorded(before: PendingMap, key: Key, session: string, serial: nat, now: int, after: PendingMap) {
    exists room :: MadeRoom(Retained(before, now), room) && after == room[key := Pending(now, session, serial)]
  }

  /** The lock section of `retire_if_current`: by key and serial, never by key alone. */
  function Retired(m: PendingMap, key: Key, serial: nat): PendingMap {
    if key in m && m[key].serial == serial then m - {key} else m
  }

  function PeerOf(peers: PeerMap, mxid: string, session: string): Option<Peer> {
    if mxid in peers && session in peers[mxid] then Some(peers[mxid][session]) else None
  }

  /** Recording never overfills the map, always leaves the new prompt in it, and adds nothing else. */
  lemma RecordedFits(before: PendingMap, key: Key, session: string, serial: nat, now: int, after: PendingMap)
    requires Recorded(before, key, session, serial, now, after)
    ensures |after| <= 256
    ensures key in after && after[key] == Pending(now, session, serial)
    ensures forall k :: k in after && k != key ==> k in before && after[k] == before[k] && Unexpired(before[k], now)
  {
    var room :| MadeRoom(Retained(before, now), room) && after == room[key := Pending(now, session, serial)];
    assert after.Keys == room.Keys + {key};
  }

  /** A prompt that recording pushes out was expired, or was overwritten, or was among the oldest
      of a full map. */
  lemma RecordedDropsOnlyTheOldest(before: PendingMap, key: Key, session: string, serial: nat, now: int, after: PendingMap, k: Key)
    requires Recorded(before, key, session, serial, now, after)
    requires k in before && k != key && k !in after && Unexpired(before[k], now)
    ensures |Retained(before, now)| >= 256
    ensures forall j :: j in after && j != key ==> before[k].issued <= after[j].issued
  {
    var room :| MadeRoom(Retained(before, now), room) && after == room[key := Pending(now, session, serial)];
    assert k in Retained(before, now) && k !in room;
    forall j | j in after && j != key ensures before[k].issued <= after[j].issued {
      assert j in room;
    }
  }

  class ChannelRegistry {
    var pending: PendingMap
    var peers: PeerMap
    var nextSerial: nat

    constructor ()
      ensures pending == map[] && peers == map[] && nextSerial == 0
    {
      pending, peers, nextSerial := map[], map[], 0;
    }

    /** The key of an oldest prompt, by a scan for the least issue time. */
    method Oldest() returns (oldest: Key)
      requires pending != map[]
      ensures oldest in pending && forall k :: k in pending ==> pending[oldest].issued <= pending[k].issued
    {
      var left := pending.Keys;
      oldest :| oldest in left;
      left := left - {oldest};
      while left != {}
        invariant left <= pending.Keys && oldest in pending
        invariant forall k :: k in pending && k !in left ==> pending[oldest].issued <= pending[k].issued
        decreases left
      {
        var k :| k in left;
        if pending[k].issued < pending[oldest].issued {
          oldest := k;
        }
        left := left - {k};
      }
    }

    /** `record_request`: prune, make room, insert under a fresh serial. */
    method RecordRequest(mxid: string, requestId: string, session: string, now: int)
      modifies this`pending, this`nextSerial
      ensures Recorded(old(pending), Key(mxid, requestId), session, old(nextSerial), now, pending)
      ensures nextSerial == old(nextSerial) + 1
    {
      pending := Retained(pending, now);
      ghost var live := pending;
      while |pending| >= PENDING_MAX
        invariant nextSerial == old(nextSerial)
        invariant forall k :: k in pending ==> k in live && pending[k] == live[k]
        invariant |live| < PENDING_MAX ==> pending == live
        invariant |live| >= PENDING_MAX ==> |pending| >= PENDING_MAX - 1
        invariant forall k, j :: k in live && k !in pending && j in pending ==> live[k].issued <= live[j].issued
        decreases |pending|
      {
        var oldest := Oldest();
        assert |pending - {oldest}| == |pending| - 1 by {
          assert (pending - {oldest}).Keys == pending.Keys - {oldest};
        }
        pending := pending - {oldest};
      }
      assert MadeRoom(live, pending);
      pending := pending[Key(mxid, requestId) := Pending(now, session, nextSerial)];
      nextSerial := nextSerial + 1;
    }

    /** `has_pending`. */
    method HasPending(mxid: string, now: int) returns (any: bool)
      ensures any <==> exists k :: k in pending && k.mxid == mxid && now - pending[k].issued < 15 * 60 * 1_000_000_000
    {
      var left := pending.Keys;
      any := false;
      while left != {} && !any
        invariant left <= pending.Keys
        invariant any ==> exists k :: k in pending && k.mxid == mxid && Unexpired(pending[k], now)
        invariant !any ==> forall k :: k in pending && k !in left ==> !(k.mxid == mxid && Unexpired(pending[k], now))
        decreases left
      {
        var k :| k in left;
        any := k.mxid == mxid && Unexpired(pending[k], now);
        left := left - {k};
      }
    }

    /** `retire_if_current`. */
    method RetireIfCurrent(key: Key, serial: nat) returns (current: bool)
      modifies this`pending
      ensures pending == Retired(old(pending), key, serial)
      ensures current <==> old(pending) != pending
    {
      current := key in pending && pending[key].serial == serial;
      if current {
        pending := pending - {key};
      }
    }

    /** The first lock section of `deliver_verdict`: prune, then look up without consuming. */
    method LookUp(key: Key, now: int) returns (found: Option<(string, nat)>)
      modifies this`pending
      ensures pending == Retained(old(pending), now)
      ensures found == if key in old(pending) && Unexpired(old(pending)[key], now)
                       then Some((old(pending)[key].session, old(pending)[key].serial)) else None
    {
      pending := Retained(pending, now);
      found := if key in pending then Some((pending[key].session, pending[key].serial)) else None;
    }

    /** `register`: drop this identity's closed peers, then insert or replace under the session key. */
    method Register(mxid: string, session: string, peer: Peer, closed: set<Peer>)
      modifies this`peers
      ensures peers.Keys == old(peers).Keys + {mxid}
      ensures forall m :: m in old(peers) && m != mxid ==> peers[m] == old(peers)[m]
      ensures PeerOf(peers, mxid, session) == Some(peer)
      ensures forall s :: s != session ==>
                PeerOf(peers, mxid, s) ==
                match PeerOf(old(peers), mxid, s)
                case Some(p) => if p in closed then None else Some(p)
                case None => None
    {
      var own: map<string, Peer> := if mxid in peers then peers[mxid] else map[];
      own := map s | s in own && own[s] !in closed :: own[s];
      own := own[session := peer];
      peers := peers[mxid := own];
    }

    /** `deliver_verdict` with nothing running beside it. The verdict goes to the recorded session's
        peer; the prompt is retired exactly when the send succeeded. */
    method DeliverVerdict(mxid: string, requestId: string, now: int, sendSucceeds: bool)
        returns (delivered: bool, recipient: Option<Peer>)
      modifies this`pending
      ensures var key := Key(mxid, requestId);
              var live := Retained(old(pending), now);
              && (delivered <==> key in live && PeerOf(peers, mxid, live[key].session).Some? && sendSucceeds)
              && pending == (if delivered then live - {key} else live)
              && (recipient.Some? ==> key in live && recipient == PeerOf(peers, mxid, live[key].session))
              && (delivered ==> recipient.Some?)
    {
      recipient := None;
      var key := Key(mxid, requestId);
      var found := LookUp(key, now);
      if found.None? {
        return false, None;
      }
      var (session, serial) := found.value;
      var peer := PeerOf(peers, mxid, session);
      if peer.None? {
        return false, None;
      }
      recipient := peer;
      if sendSucceeds {
        var _ := RetireIfCurrent(key, serial);
      }
      delivered := sendSucceeds;
    }
  }
}
