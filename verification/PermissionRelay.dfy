/** Permission relay as a protocol: every interleaving of the lock sections of src/channel.rs.
    A delivery holds no lock between its sections, so other steps may fall between any two. */
module PermissionRelay {
  import opened Options
  import opened PendingPrompts
  import opened Sets
  import opened VerdictGrammar

  /** Where a delivery stands between its sections. */
  datatype Phase =
    | FoundPrompt
    | FoundPeer(peer: Peer)
    | Sent(peer: Peer)

  /** A verdict in flight: what its lookup copied out of the map. */
  datatype Delivery = Delivery(key: Key, behavior: Behavior, session: string, serial: nat, lookedUpAt: int, phase: Phase)

  /** History: a prompt as issued, and a verdict as written to a peer. */
  datatype Issue = Issue(key: Key, session: string, at: int)
  datatype Write = Write(key: Key, behavior: Behavior, session: string, serial: nat, lookedUpAt: int, peer: Peer)
  datatype Registration = Registration(mxid: string, session: string, peer: Peer)

  datatype State = State(
    now: int,
    pending: PendingMap,
    peers: PeerMap,
    deliveries: map<nat, Delivery>,
    // History the code does not keep. The serial counter is the number of prompts issued.
    issues: seq<Issue>,
    registrations: set<Registration>,
    writes: seq<Write>,
    retired: set<nat>)

  datatype Event =
    | Tick(later: int)
    | RecordRequest(key: Key, session: string)
    | LookUp(d: nat, key: Key, behavior: Behavior)
    | FindPeer(d: nat)
    | Send(d: nat, succeeds: bool)
    | Retire(d: nat)
    | Register(mxid: string, session: string, peer: Peer)
    | DropPeers(peers: PeerMap)

  ghost predicate Init(s: State) {
    && s.pending == map[] && s.peers == map[] && s.deliveries == map[]
    && s.issues == [] && s.registrations == {} && s.writes == [] && s.retired == {}
  }

  /** Peers only vanish: closed transports are swept, failed ones dropped. */
  ghost predicate OnlyDrops(before: PeerMap, after: PeerMap) {
    forall m, session :: PeerOf(after, m, session).Some? ==> PeerOf(after, m, session) == PeerOf(before, m, session)
  }

  /** Registering sweeps and then sets one entry. A peer handle belongs to one MCP session, hence
      to one identity. */
  ghost predicate Registers(s: State, mxid: string, session: string, peer: Peer, after: PeerMap) {
    && PeerOf(after, mxid, session) == Some(peer)
    && (forall m, k :: (m, k) != (mxid, session) && PeerOf(after, m, k).Some? ==> PeerOf(after, m, k) == PeerOf(s.peers, m, k))
    && (forall r :: r in s.registrations && r.peer == peer ==> r.mxid == mxid)
  }

  ghost predicate Next(s: State, e: Event, t: State) {
    match e
    case Tick(later) =>
      later >= s.now && t == s.(now := later)
    case RecordRequest(key, session) =>
      && Recorded(s.pending, key, session, |s.issues|, s.now, t.pending)
      && t == s.(pending := t.pending, issues := s.issues + [Issue(key, session, s.now)])
    case LookUp(d, key, behavior) =>
      var live := Retained(s.pending, s.now);
      && d !in s.deliveries
      && t == s.(pending := live,
                 deliveries := if key in live
                               then s.deliveries[d := Delivery(key, behavior, live[key].session, live[key].serial, s.now, FoundPrompt)]
                               else s.deliveries)
    case FindPeer(d) =>
      && d in s.deliveries && s.deliveries[d].phase == FoundPrompt
      && var peer := PeerOf(s.peers, s.deliveries[d].key.mxid, s.deliveries[d].session);
         t == s.(deliveries := if peer.Some?
                               then s.deliveries[d := s.deliveries[d].(phase := FoundPeer(peer.value))]
                               else s.deliveries - {d})
    case Send(d, succeeds) =>
      && d in s.deliveries && s.deliveries[d].phase.FoundPeer?
      && var v := s.deliveries[d];
         t == if succeeds
              then s.(deliveries := s.deliveries[d := v.(phase := Sent(v.phase.peer))],
                      writes := s.writes + [Write(v.key, v.behavior, v.session, v.serial, v.lookedUpAt, v.phase.peer)])
              else s.(deliveries := s.deliveries - {d})
    case Retire(d) =>
      && d in s.deliveries && s.deliveries[d].phase.Sent?
      && var v := s.deliveries[d];
         t == s.(pending := Retired(s.pending, v.key, v.serial),
                 deliveries := s.deliveries - {d},
                 retired := s.retired + {v.serial})
    case Register(mxid, session, peer) =>
      && Registers(s, mxid, session, peer, t.peers)
      && t == s.(peers := t.peers, registrations := s.registrations + {Registration(mxid, session, peer)})
    case DropPeers(after) =>
      OnlyDrops(s.peers, after) && t == s.(peers := after)
  }

  // ---- The invariant ------------------------------------------------------------------

  /** A copy of a prompt agrees with the prompt as issued under its serial. */
  predicate Agrees(issues: seq<Issue>, key: Key, session: string, serial: nat) {
    serial < |issues| && issues[serial].key == key && issues[serial].session == session
  }

  ghost predicate PendingOk(pending: PendingMap, issues: seq<Issue>, retired: set<nat>) {
    && |pending| <= PENDING_MAX
    && (forall k :: k in pending ==>
          && Agrees(issues, k, pending[k].session, pending[k].serial)
          && issues[pending[k].serial].at == pending[k].issued
          && pending[k].serial !in retired)
  }

  ghost predicate PeersOk(peers: PeerMap, registrations: set<Registration>) {
    && (forall m, k :: PeerOf(peers, m, k).Some? ==> Registration(m, k, PeerOf(peers, m, k).value) in registrations)
    && (forall q, r :: q in registrations && r in registrations && q.peer == r.peer ==> q.mxid == r.mxid)
  }

  ghost predicate DeliveryOk(issues: seq<Issue>, registrations: set<Registration>, v: Delivery) {
    && Agrees(issues, v.key, v.session, v.serial)
    && v.lookedUpAt - issues[v.serial].at < PENDING_TTL
    && (!v.phase.FoundPrompt? ==> Registration(v.key.mxid, v.session, v.phase.peer) in registrations)
  }

  ghost predicate WriteOk(issues: seq<Issue>, registrations: set<Registration>, w: Write) {
    && Agrees(issues, w.key, w.session, w.serial)
    && w.lookedUpAt - issues[w.serial].at < PENDING_TTL
    && Registration(w.key.mxid, w.session, w.peer) in registrations
  }

  /** Some write carried this prompt. */
  ghost predicate WasWritten(writes: seq<Write>, serial: nat) {
    exists i :: 0 <= i < |writes| && writes[i].serial == serial
  }

  ghost predicate Inv(s: State) {
    && PendingOk(s.pending, s.issues, s.retired)
    && PeersOk(s.peers, s.registrations)
    && (forall d :: d in s.deliveries ==>
          && DeliveryOk(s.issues, s.registrations, s.deliveries[d])
          && (s.deliveries[d].phase.Sent? ==> WasWritten(s.writes, s.deliveries[d].serial)))
    && (forall i :: 0 <= i < |s.writes| ==> WriteOk(s.issues, s.registrations, s.writes[i]))
    && (forall n :: n in s.retired ==> n < |s.issues| && WasWritten(s.writes, n))
  }

  lemma RecordKeepsInv(s: State, key: Key, session: string, t: State)
    requires Inv(s) && Next(s, RecordRequest(key, session), t)
    ensures Inv(t)
  {
    hide PeersOk, WasWritten, Recorded;
    RecordedFits(s.pending, key, session, |s.issues|, s.now, t.pending);
    forall v | DeliveryOk(s.issues, s.registrations, v) ensures DeliveryOk(t.issues, t.registrations, v) {}
    forall w | WriteOk(s.issues, s.registrations, w) ensures WriteOk(t.issues, t.registrations, w) {}
  }

  lemma LookUpKeepsInv(s: State, d: nat, key: Key, behavior: Behavior, t: State)
    requires Inv(s) && Next(s, LookUp(d, key, behavior), t)
    ensures Inv(t)
  {
    hide PendingOk, PeersOk, WasWritten, WriteOk, DeliveryOk, Retained;
    RetainedFits(s.pending, s.now, s.issues, s.retired);
    if key in Retained(s.pending, s.now) {
      LookedUpIsOk(s.pending, s.now, s.issues, s.registrations, s.retired, key, behavior);
    }
  }

  lemma LookedUpIsOk(m: PendingMap, now: int, issues: seq<Issue>, registrations: set<Registration>, retired: set<nat>, key: Key, behavior: Behavior)
    requires PendingOk(m, issues, retired) && key in Retained(m, now)
    ensures DeliveryOk(issues, registrations,
              Delivery(key, behavior, Retained(m, now)[key].session, Retained(m, now)[key].serial, now, FoundPrompt))
  {
  }

  lemma RetainedFits(m: PendingMap, now: int, issues: seq<Issue>, retired: set<nat>)
    requires PendingOk(m, issues, retired)
    ensures PendingOk(Retained(m, now), issues, retired)
  {
    SubsetSize(Retained(m, now).Keys, m.Keys);
    assert |Retained(m, now)| == |Retained(m, now).Keys| && |m| == |m.Keys|;
  }

  lemma FindPeerKeepsInv(s: State, d: nat, t: State)
    requires Inv(s) && Next(s, FindPeer(d), t)
    ensures Inv(t)
  {
    hide PendingOk, WasWritten, WriteOk, PeerOf;
  }

  lemma SendKeepsInv(s: State, d: nat, succeeds: bool, t: State)
    requires Inv(s) && Next(s, Send(d, succeeds), t)
    ensures Inv(t)
  {
    hide PendingOk, PeersOk, Agrees;
    WrittenStays(s.writes, t.writes);
    assert succeeds ==> t.writes[|s.writes|].serial == s.deliveries[d].serial;
  }

  lemma WrittenStays(before: seq<Write>, after: seq<Write>)
    requires before <= after
    ensures forall n :: WasWritten(before, n) ==> WasWritten(after, n)
  {
    forall n | WasWritten(before, n) ensures WasWritten(after, n) {
      var i :| 0 <= i < |before| && before[i].serial == n;
      assert after[i] == before[i];
    }
  }

  lemma DeliveryAgrees(issues: seq<Issue>, registrations: set<Registration>, v: Delivery)
    requires DeliveryOk(issues, registrations, v)
    ensures v.serial < |issues| && issues[v.serial].key == v.key
  {
  }

  lemma RetireKeepsInv(s: State, d: nat, t: State)
    requires Inv(s) && Next(s, Retire(d), t)
    ensures Inv(t)
  {
    hide PendingOk, PeersOk, WasWritten, WriteOk, DeliveryOk, Retired;
    var v := s.deliveries[d];
    DeliveryAgrees(s.issues, s.registrations, v);
    RetiredFits(s.pending, v.key, v.serial, s.issues, s.retired);
  }

  lemma RetiredFits(m: PendingMap, key: Key, serial: nat, issues: seq<Issue>, retired: set<nat>)
    requires PendingOk(m, issues, retired) && serial < |issues| && issues[serial].key == key
    ensures PendingOk(Retired(m, key, serial), issues, retired + {serial})
  {
    var after := Retired(m, key, serial);
    SubsetSize(after.Keys, m.Keys);
    assert |after| == |after.Keys| && |m| == |m.Keys|;
    forall k | k in after ensures after[k].serial != serial {
      assert issues[m[k].serial].key == k;
    }
  }

  lemma PeerStepsKeepInv(s: State, e: Event, t: State)
    requires e.Register? || e.DropPeers?
    requires Inv(s) && Next(s, e, t)
    ensures Inv(t)
  {
    hide PendingOk, WasWritten, Agrees, PeerOf;
    if e.Register? {
      forall q, r | q in t.registrations && r in t.registrations && q.peer == r.peer ensures q.mxid == r.mxid {}
    }
  }

  /** Every step keeps the invariant. */
  lemma StepKeepsInv(s: State, e: Event, t: State)
    requires Inv(s) && Next(s, e, t)
    ensures Inv(t)
  {
    hide PendingOk, PeersOk, WasWritten, DeliveryOk, WriteOk, Recorded, Registers, OnlyDrops;
    match e
    case Tick(_) =>
    case RecordRequest(key, session) => RecordKeepsInv(s, key, session, t);
    case LookUp(d, key, behavior) => LookUpKeepsInv(s, d, key, behavior, t);
    case FindPeer(d) => FindPeerKeepsInv(s, d, t);
    case Send(d, succeeds) => SendKeepsInv(s, d, succeeds, t);
    case Retire(d) => RetireKeepsInv(s, d, t);
    case Register(_, _, _) => PeerStepsKeepInv(s, e, t);
    case DropPeers(_) => PeerStepsKeepInv(s, e, t);
  }

  // ---- Whole runs ---------------------------------------------------------------------

  /** A finite run: states joined by labelled steps, from the empty registry. */
  ghost predicate Run(states: seq<State>, events: seq<Event>) {
    && |states| == |events| + 1
    && Init(states[0])
    && forall i :: 0 <= i < |events| ==> Next(states[i], events[i], states[i + 1])
  }

  lemma {:induction false} InvHoldsThroughout(states: seq<State>, events: seq<Event>, i: nat)
    requires Run(states, events) && i < |states|
    ensures Inv(states[i])
    decreases i
  {
    if i > 0 {
      hide Next, Inv;
      InvHoldsThroughout(states, events, i - 1);
      StepKeepsInv(states[i - 1], events[i - 1], states[i]);
    }
  }

  /** In every reachable state pending serials are distinct and below the counter, no pending
      prompt has been retired, and the map is within its cap. */
  lemma PendingSerialsAreDistinct(states: seq<State>, events: seq<Event>, i: nat, j: Key, k: Key)
    requires Run(states, events) && i < |states|
    requires j in states[i].pending && k in states[i].pending
    ensures states[i].pending[j].serial < |states[i].issues|
    ensures states[i].pending[j].serial == states[i].pending[k].serial ==> j == k
    ensures |states[i].pending| <= 256
  {
    InvHoldsThroughout(states, events, i);
  }

  /** Step `l` of a run looks up what a delivery carries, unexpired. */
  ghost predicate LookedUpAt(states: seq<State>, events: seq<Event>, l: nat, d: nat, key: Key, behavior: Behavior,
                             session: string, serial: nat, at: int)
  {
    && l < |events| && l < |states| && events[l] == LookUp(d, key, behavior) && at == states[l].now
    && key in states[l].pending && Unexpired(states[l].pending[key], at)
    && states[l].pending[key].session == session && states[l].pending[key].serial == serial
  }

  /** Step `j` of a run finds the peer registered, then, under the identity and the session. */
  ghost predicate PeerFoundAt(states: seq<State>, events: seq<Event>, j: nat, d: nat, key: Key, session: string, peer: Peer) {
    j < |events| && j < |states| && events[j] == FindPeer(d) && PeerOf(states[j].peers, key.mxid, session) == Some(peer)
  }

  /** How a delivery comes to be as it is after a step. */
  lemma DeliveryStep(s: State, e: Event, t: State, d: nat)
    requires Next(s, e, t) && d in t.deliveries
    ensures var v := t.deliveries[d];
            || (d in s.deliveries && v == s.deliveries[d])
            || (d !in s.deliveries && e == LookUp(d, v.key, v.behavior) && v.phase == FoundPrompt && v.lookedUpAt == s.now
                && v.key in s.pending && Unexpired(s.pending[v.key], s.now)
                && s.pending[v.key].session == v.session && s.pending[v.key].serial == v.serial)
            || (e == FindPeer(d) && d in s.deliveries && v.phase.FoundPeer? && v == s.deliveries[d].(phase := v.phase)
                && PeerOf(s.peers, v.key.mxid, v.session) == Some(v.phase.peer))
            || (e == Send(d, true) && d in s.deliveries && s.deliveries[d].phase.FoundPeer? && v.phase == Sent(s.deliveries[d].phase.peer)
                && v == s.deliveries[d].(phase := v.phase))
  {
    hide Recorded, Registers, OnlyDrops, PeerOf, Retired;
  }

  /** Every delivery was looked up earlier in the run and, past its peer lookup, found its peer between. */
  lemma {:induction false} DeliveryTrace(states: seq<State>, events: seq<Event>, i: nat, d: nat) returns (l: nat, j: nat)
    requires Run(states, events) && i < |states| && d in states[i].deliveries
    ensures var v := states[i].deliveries[d];
            && l < i && LookedUpAt(states, events, l, d, v.key, v.behavior, v.session, v.serial, v.lookedUpAt)
            && (!v.phase.FoundPrompt? ==> l < j < i && PeerFoundAt(states, events, j, d, v.key, v.session, v.phase.peer))
    decreases i
  {
    hide Next, PeerOf, Unexpired;
    var s, e, t := states[i - 1], events[i - 1], states[i];
    var v := t.deliveries[d];
    DeliveryStep(s, e, t, d);
    if d in s.deliveries {
      l, j := DeliveryTrace(states, events, i - 1, d);
      if e == FindPeer(d) && v != s.deliveries[d] {
        j := i - 1;
      }
    } else {
      l, j := i - 1, i - 1;
    }
  }

  lemma WriteStep(s: State, e: Event, t: State)
    requires Next(s, e, t)
    ensures t.writes == s.writes
         || (e.Send? && e.d in s.deliveries && s.deliveries[e.d].phase.FoundPeer?
             && var v := s.deliveries[e.d];
                t.writes == s.writes + [Write(v.key, v.behavior, v.session, v.serial, v.lookedUpAt, v.phase.peer)])
  {
  }

  /** Every write in a run is the send of a delivery that was looked up and found its peer before. */
  lemma {:induction false} WriteTrace(states: seq<State>, events: seq<Event>, i: nat, n: nat) returns (d: nat, l: nat, j: nat, k: nat)
    requires Run(states, events) && i < |states| && n < |states[i].writes|
    ensures var w := states[i].writes[n];
            && l < j < k < i && k < |events| && events[k].Send? && events[k].d == d
            && LookedUpAt(states, events, l, d, w.key, w.behavior, w.session, w.serial, w.lookedUpAt)
            && PeerFoundAt(states, events, j, d, w.key, w.session, w.peer)
    decreases i
  {
    hide Next, LookedUpAt, PeerFoundAt;
    WriteStep(states[i - 1], events[i - 1], states[i]);
    if n < |states[i - 1].writes| {
      d, l, j, k := WriteTrace(states, events, i - 1, n);
    } else {
      d, k := events[i - 1].d, i - 1;
      l, j := DeliveryTrace(states, events, k, d);
    }
  }

  /** Every verdict written in a run answers a prompt that was unexpired when it was looked up, and
      went to the peer that was registered, between lookup and send, under the identity and the
      session recorded when that prompt was issued. */
  lemma VerdictsGoToTheAskingSession(states: seq<State>, events: seq<Event>, i: nat, n: nat) returns (d: nat, l: nat, j: nat, k: nat)
    requires Run(states, events) && i < |states| && n < |states[i].writes|
    ensures var s, w := states[i], states[i].writes[n];
            && w.serial < |s.issues|
            && var asked := s.issues[w.serial];
               && w.key == asked.key
               && Registration(asked.key.mxid, asked.session, w.peer) in s.registrations
               && w.lookedUpAt - asked.at < 15 * 60 * 1_000_000_000
               && l < j < k < i && k < |events| && events[k].Send? && events[k].d == d
               && LookedUpAt(states, events, l, d, asked.key, w.behavior, asked.session, w.serial, w.lookedUpAt)
               && PeerFoundAt(states, events, j, d, asked.key, asked.session, w.peer)
  {
    hide Next, LookedUpAt, PeerFoundAt;
    InvHoldsThroughout(states, events, i);
    assert WriteOk(states[i].issues, states[i].registrations, states[i].writes[n]);
    d, l, j, k := WriteTrace(states, events, i, n);
  }

  /** What `Registers` takes registration to mean, carried over to the peer of a written verdict. */
  lemma WrittenPeerHasOneIdentity(states: seq<State>, events: seq<Event>, i: nat, n: nat, r: Registration)
    requires Run(states, events) && i < |states| && n < |states[i].writes|
    requires r in states[i].registrations && r.peer == states[i].writes[n].peer
    ensures r.mxid == states[i].writes[n].key.mxid
  {
    InvHoldsThroughout(states, events, i);
    assert WriteOk(states[i].issues, states[i].registrations, states[i].writes[n]);
  }

  /** So one peer hears the verdicts of one identity only. */
  lemma PeerHearsOneIdentity(states: seq<State>, events: seq<Event>, i: nat, n: nat, m: nat)
    requires Run(states, events) && i < |states| && n < |states[i].writes| && m < |states[i].writes|
    requires states[i].writes[n].peer == states[i].writes[m].peer
    ensures states[i].writes[n].key.mxid == states[i].writes[m].key.mxid
  {
    InvHoldsThroughout(states, events, i);
    var w := states[i].writes[m];
    assert WriteOk(states[i].issues, states[i].registrations, w);
    WrittenPeerHasOneIdentity(states, events, i, n, Registration(w.key.mxid, w.session, w.peer));
  }

  lemma RetiredGrows(s: State, e: Event, t: State)
    requires Next(s, e, t)
    ensures s.retired <= t.retired
  {
  }

  lemma {:induction false} RetiredStaysRetired(states: seq<State>, events: seq<Event>, i: nat, j: nat, serial: nat)
    requires Run(states, events) && i <= j < |states| && serial in states[i].retired
    ensures serial in states[j].retired
    decreases j
  {
    hide Next;
    if i < j {
      RetiredStaysRetired(states, events, i, j - 1, serial);
      RetiredGrows(states[j - 1], events[j - 1], states[j]);
    }
  }

  /** Once a serial is retired, no later lookup returns it: every delivery that carries it was
      looked up before. */
  lemma RetiredIsNeverLookedUpAgain(states: seq<State>, events: seq<Event>, i: nat, j: nat, serial: nat, d: nat)
    requires Run(states, events) && i <= j < |events| && serial in states[i].retired
    requires d in states[j + 1].deliveries && d !in states[j].deliveries
    ensures states[j + 1].deliveries[d].serial != serial
  {
    RetiredStaysRetired(states, events, i, j, serial);
    InvHoldsThroughout(states, events, j);
    assert Next(states[j], events[j], states[j + 1]);
  }

  lemma RetiringRetires(s: State, d: nat, t: State)
    requires Next(s, Retire(d), t)
    ensures d in s.deliveries && s.deliveries[d].serial in t.retired
    ensures forall k :: k in t.pending ==> k in s.pending && t.pending[k] == s.pending[k]
    ensures var v := s.deliveries[d];
            v.key in s.pending && s.pending[v.key].serial == v.serial ==> v.key !in t.pending
  {
  }

  /** A key that is not pending stays so until a prompt is recorded under it. */
  lemma AbsentStaysAbsent(s: State, e: Event, t: State, key: Key)
    requires Next(s, e, t) && key !in s.pending && (e.RecordRequest? ==> e.key != key)
    ensures key !in t.pending
  {
    if e.RecordRequest? {
      RecordedFits(s.pending, e.key, e.session, |s.issues|, s.now, t.pending);
    }
  }

  lemma {:induction false} KeyStaysAbsent(states: seq<State>, events: seq<Event>, i: nat, j: nat, key: Key)
    requires Run(states, events) && i <= j < |states| && key !in states[i].pending
    requires forall n :: i <= n < j ==> !(events[n].RecordRequest? && events[n].key == key)
    ensures key !in states[j].pending
    decreases j
  {
    hide Next;
    if i < j {
      KeyStaysAbsent(states, events, i, j - 1, key);
      AbsentStaysAbsent(states[j - 1], events[j - 1], states[j], key);
    }
  }

  /** Once a delivery has been retired, no prompt in the map ever carries its serial again; and if its
      key was not reissued before, the key is gone from the map until it is: a second reply finds
      nothing to answer. */
  lemma RetiredPromptIsGone(states: seq<State>, events: seq<Event>, i: nat, j: nat, d: nat)
    requires Run(states, events) && i < j < |states| && i < |events| && events[i] == Retire(d)
    ensures d in states[i].deliveries
    ensures var v := states[i].deliveries[d];
            && v.serial in states[i + 1].retired
            && (forall k :: k in states[j].pending ==> states[j].pending[k].serial != v.serial)
            && ((v.key in states[i].pending ==> states[i].pending[v.key].serial == v.serial)
                && (forall n :: i < n < j ==> !(events[n].RecordRequest? && events[n].key == v.key))
                ==> v.key !in states[j].pending)
  {
    hide Next;
    RetiringRetires(states[i], d, states[i + 1]);
    var v := states[i].deliveries[d];
    RetiredStaysRetired(states, events, i + 1, j, v.serial);
    InvHoldsThroughout(states, events, j);
    if (v.key in states[i].pending ==> states[i].pending[v.key].serial == v.serial)
       && (forall n :: i < n < j ==> !(events[n].RecordRequest? && events[n].key == v.key)) {
      KeyStaysAbsent(states, events, i + 1, j, v.key);
    }
  }

  /** A delivery that nothing interrupts does its work: looking up a live prompt whose session has a
      peer, it writes that verdict to that peer and removes that prompt, and no other live one. */
  lemma UninterruptedDeliveryDelivers(s0: State, s1: State, s2: State, s3: State, s4: State, d: nat, key: Key, behavior: Behavior, peer: Peer)
    requires Next(s0, LookUp(d, key, behavior), s1) && Next(s1, FindPeer(d), s2) && Next(s2, Send(d, true), s3) && Next(s3, Retire(d), s4)
    requires key in s0.pending && Unexpired(s0.pending[key], s0.now) && PeerOf(s0.peers, key.mxid, s0.pending[key].session) == Some(peer)
    ensures var p := s0.pending[key];
            s4.writes == s0.writes + [Write(key, behavior, p.session, p.serial, s0.now, peer)]
    ensures key !in s4.pending && s4.issues == s0.issues && s4.peers == s0.peers && s4.deliveries == s0.deliveries
    ensures forall k :: k in s0.pending && k != key && Unexpired(s0.pending[k], s0.now) ==> k in s4.pending && s4.pending[k] == s0.pending[k]
  {
    hide PeerOf;
    var p := s0.pending[key];
    var v := Delivery(key, behavior, p.session, p.serial, s0.now, FoundPrompt);
    assert s1.deliveries == s0.deliveries[d := v];
    assert s2.deliveries == s0.deliveries[d := v.(phase := FoundPeer(peer))];
    assert s3.deliveries == s0.deliveries[d := v.(phase := Sent(peer))];
    assert s3.pending == s1.pending && key in s1.pending && s1.pending[key] == p;
  }

  /** A reply to a prompt that is not pending, or has expired, starts no delivery. */
  lemma UnissuedRepliesDoNothing(s: State, d: nat, key: Key, behavior: Behavior, t: State)
    requires Next(s, LookUp(d, key, behavior), t) && (key !in s.pending || s.now - s.pending[key].issued >= 15 * 60 * 1_000_000_000)
    ensures d !in t.deliveries && t.deliveries == s.deliveries && t.writes == s.writes && key !in t.pending
  {
  }

  // ---- How a prompt leaves the map ----------------------------------------------------

  ghost predicate Gone(s: State, t: State, k: Key) {
    k in s.pending && (k !in t.pending || t.pending[k] != s.pending[k])
  }

  /** A prompt leaves the map only by its own delivered verdict, by its TTL, by a reissue of its
      own key, or pushed out of a full map as one of its oldest. */
  lemma PromptLeavesOnlyByAReason(s: State, e: Event, t: State, k: Key)
    requires Inv(s) && Next(s, e, t) && Gone(s, t, k)
    ensures
      || (e.Retire? && s.deliveries[e.d].phase.Sent? && s.deliveries[e.d].key == k
          && s.deliveries[e.d].serial == s.pending[k].serial && WasWritten(s.writes, s.pending[k].serial))
      || ((e.LookUp? || e.RecordRequest?) && !Unexpired(s.pending[k], s.now))
      || (e.RecordRequest? && e.key == k)
      || (e.RecordRequest? && |Retained(s.pending, s.now)| >= PENDING_MAX
          && forall j :: j in t.pending && j != e.key ==> s.pending[k].issued <= t.pending[j].issued)
  {
    hide PeersOk, WriteOk, Recorded, Registers, OnlyDrops, PeerOf;
    if e.RecordRequest? {
      RecordedFits(s.pending, e.key, e.session, |s.issues|, s.now, t.pending);
      if k != e.key && Unexpired(s.pending[k], s.now) {
        assert k !in t.pending;
        RecordedDropsOnlyTheOldest(s.pending, e.key, e.session, |s.issues|, s.now, t.pending, k);
      }
    }
  }

  /** A delivery without a peer, a failed send, and a delivery whose id was reissued meanwhile
      remove nothing; the first two end there, with nothing written. */
  lemma FailedDeliveriesRemoveNothing(s: State, e: Event, t: State)
    requires Inv(s) && Next(s, e, t)
    requires e.FindPeer? || e.Send?
          || (e.Retire? && !(s.deliveries[e.d].key in s.pending && s.pending[s.deliveries[e.d].key].serial == s.deliveries[e.d].serial))
    ensures t.pending == s.pending
    ensures e.Send? && !e.succeeds ==> e.d !in t.deliveries && t.writes == s.writes
    ensures e.FindPeer? && PeerOf(s.peers, s.deliveries[e.d].key.mxid, s.deliveries[e.d].session).None? ==>
              e.d !in t.deliveries && t.writes == s.writes
  {
  }

  /** A step at which the prompt under `key` is neither reissued nor pushed out of a full map. */
  ghost predicate LeavesRoom(s: State, e: Event, key: Key) {
    e.RecordRequest? ==> e.key != key && |Retained(s.pending, s.now)| < PENDING_MAX
  }

  lemma TimeAndWritesGrow(s: State, e: Event, t: State)
    requires Next(s, e, t)
    ensures s.now <= t.now && s.writes <= t.writes
  {
  }

  /** Whatever the other prompts and deliveries do, of this identity or any other, a prompt stays
      answerable until it expires, is reissued, is pushed out of a full map, or its own verdict has
      been written. */
  lemma {:induction false} PromptStaysAnswerable(states: seq<State>, events: seq<Event>, i: nat, j: nat, k: Key)
    requires Run(states, events) && i <= j < |states| && k in states[i].pending
    requires Unexpired(states[i].pending[k], states[j].now)
    requires !WasWritten(states[j].writes, states[i].pending[k].serial)
    requires forall n :: i <= n < j ==> LeavesRoom(states[n], events[n], k)
    ensures k in states[j].pending && states[j].pending[k] == states[i].pending[k]
    decreases j
  {
    hide Next, Inv, WasWritten;
    if i < j {
      var s, t := states[j - 1], states[j];
      TimeAndWritesGrow(s, events[j - 1], t);
      WrittenStays(s.writes, t.writes);
      PromptStaysAnswerable(states, events, i, j - 1, k);
      InvHoldsThroughout(states, events, j - 1);
      if events[j - 1].FindPeer? || events[j - 1].Send? {
        FailedDeliveriesRemoveNothing(s, events[j - 1], t);
      } else if Gone(s, t, k) {
        PromptLeavesOnlyByAReason(s, events[j - 1], t, k);
      }
    }
  }

  /** A prompt just recorded is in the map, under a serial no delivery in flight carries. */
  lemma JustRecordedIsPending(s: State, key: Key, session: string, t: State)
    requires Inv(s) && Next(s, RecordRequest(key, session), t)
    ensures key in t.pending && t.pending[key] == Pending(s.now, session, |s.issues|)
    ensures forall d :: d in t.deliveries ==> t.deliveries[d].serial != t.pending[key].serial
  {
    RecordedFits(s.pending, key, session, |s.issues|, s.now, t.pending);
    forall d | d in t.deliveries ensures t.deliveries[d].serial != t.pending[key].serial {
      assert DeliveryOk(s.issues, s.registrations, s.deliveries[d]);
    }
  }

  /** A registry with one prompt and one peer, two deliveries at the given phases. */
  function Scene(key: Key, session: string, peer: Peer, yes: Option<Phase>, no: Option<Phase>, writes: seq<Write>): State {
    var none: map<nat, Delivery> := map[];
    var first := if yes.Some? then map[0 := Delivery(key, Allow, session, 0, 0, yes.value)] else none;
    var both := if no.Some? then first[1 := Delivery(key, Deny, session, 0, 0, no.value)] else first;
    State(0, map[key := Pending(0, session, 0)], map[key.mxid := map[session := peer]], both,
          [Issue(key, session, 0)], {Registration(key.mxid, session, peer)}, writes, {})
  }

  lemma SceneOpens(key: Key, session: string, peer: Peer) returns (s0: State, s1: State)
    ensures Init(s0) && Next(s0, Register(key.mxid, session, peer), s1)
    ensures Next(s1, RecordRequest(key, session), Scene(key, session, peer, None, None, []))
  {
    s0 := State(0, map[], map[], map[], [], {}, [], {});
    s1 := s0.(peers := map[key.mxid := map[session := peer]], registrations := {Registration(key.mxid, session, peer)});
    RecordIntoEmpty(key, session);
  }

  lemma SceneLooksUpTwice(key: Key, session: string, peer: Peer)
    ensures Next(Scene(key, session, peer, None, None, []), LookUp(0, key, Allow),
                 Scene(key, session, peer, Some(FoundPrompt), None, []))
    ensures Next(Scene(key, session, peer, Some(FoundPrompt), None, []), LookUp(1, key, Deny),
                 Scene(key, session, peer, Some(FoundPrompt), Some(FoundPrompt), []))
  {
    var pending := map[key := Pending(0, session, 0)];
    assert Retained(pending, 0) == pending;
  }

  lemma SceneFindsPeers(key: Key, session: string, peer: Peer)
    ensures Next(Scene(key, session, peer, Some(FoundPrompt), Some(FoundPrompt), []), FindPeer(0),
                 Scene(key, session, peer, Some(FoundPeer(peer)), Some(FoundPrompt), []))
    ensures Next(Scene(key, session, peer, Some(FoundPeer(peer)), Some(FoundPrompt), []), FindPeer(1),
                 Scene(key, session, peer, Some(FoundPeer(peer)), Some(FoundPeer(peer)), []))
  {
  }

  lemma SceneSendsTwice(key: Key, session: string, peer: Peer, allow: Write, deny: Write)
    requires allow == Write(key, Allow, session, 0, 0, peer) && deny == Write(key, Deny, session, 0, 0, peer)
    ensures Next(Scene(key, session, peer, Some(FoundPeer(peer)), Some(FoundPeer(peer)), []), Send(0, true),
                 Scene(key, session, peer, Some(Sent(peer)), Some(FoundPeer(peer)), [allow]))
    ensures Next(Scene(key, session, peer, Some(Sent(peer)), Some(FoundPeer(peer)), [allow]), Send(1, true),
                 Scene(key, session, peer, Some(Sent(peer)), Some(Sent(peer)), [allow, deny]))
    ensures Scene(key, session, peer, Some(Sent(peer)), Some(Sent(peer)), [allow, deny]).writes == [allow, deny]
  {
  }

  /** What is not promised: two replies that both look a prompt up before either is delivered are
      both written, so one prompt can receive an allow and a deny. */
  lemma OnePromptMayGetTwoVerdicts(key: Key, session: string, peer: Peer)
      returns (states: seq<State>, events: seq<Event>)
    ensures Run(states, events)
    ensures |states| > 0
    ensures var writes := states[|states| - 1].writes;
            && |writes| == 2 && writes[0].serial == writes[1].serial
            && writes[0].behavior == Allow && writes[1].behavior == Deny
  {
    hide Next, Init, Scene, Run;
    var allow, deny := Write(key, Allow, session, 0, 0, peer), Write(key, Deny, session, 0, 0, peer);
    var s0, s1 := SceneOpens(key, session, peer);
    SceneLooksUpTwice(key, session, peer);
    SceneFindsPeers(key, session, peer);
    SceneSendsTwice(key, session, peer, allow, deny);
    states, events := RunStarts(s0);
    states, events := RunGoesOn(states, events, Register(key.mxid, session, peer), s1);
    states, events := RunGoesOn(states, events, RecordRequest(key, session), Scene(key, session, peer, None, None, []));
    states, events := RunGoesOn(states, events, LookUp(0, key, Allow), Scene(key, session, peer, Some(FoundPrompt), None, []));
    states, events := RunGoesOn(states, events, LookUp(1, key, Deny), Scene(key, session, peer, Some(FoundPrompt), Some(FoundPrompt), []));
    states, events := RunGoesOn(states, events, FindPeer(0), Scene(key, session, peer, Some(FoundPeer(peer)), Some(FoundPrompt), []));
    states, events := RunGoesOn(states, events, FindPeer(1), Scene(key, session, peer, Some(FoundPeer(peer)), Some(FoundPeer(peer)), []));
    states, events := RunGoesOn(states, events, Send(0, true), Scene(key, session, peer, Some(Sent(peer)), Some(FoundPeer(peer)), [allow]));
    states, events := RunGoesOn(states, events, Send(1, true), Scene(key, session, peer, Some(Sent(peer)), Some(Sent(peer)), [allow, deny]));
  }

  lemma RunStarts(s: State) returns (states: seq<State>, events: seq<Event>)
    requires Init(s)
    ensures Run(states, events) && |states| > 0 && states[|states| - 1] == s
  {
    states, events := [s], [];
  }

  lemma RunGoesOn(states: seq<State>, events: seq<Event>, e: Event, t: State)
      returns (states': seq<State>, events': seq<Event>)
    requires Run(states, events) && |states| > 0 && Next(states[|states| - 1], e, t)
    ensures Run(states', events') && |states'| > 0 && states'[|states'| - 1] == t
  {
    hide Next, Init;
    states', events' := states + [t], events + [e];
    forall i | 0 <= i < |events'| ensures Next(states'[i], events'[i], states'[i + 1]) {
      if i < |events| {
        assert states'[i] == states[i] && events'[i] == events[i] && states'[i + 1] == states[i + 1];
      }
    }
  }

  lemma RecordIntoEmpty(key: Key, session: string)
    ensures Recorded(map[], key, session, 0, 0, map[key := Pending(0, session, 0)])
  {
    var none: PendingMap := map[];
    assert Retained(none, 0) == none;
    assert MadeRoom(Retained(none, 0), none);
    assert map[key := Pending(0, session, 0)] == none[key := Pending(0, session, 0)];
  }
}
