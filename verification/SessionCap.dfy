/** `CappedSessionManager` of src/session.rs: create and restore count and insert in separate
    steps behind a gate; close takes no gate. Each manager has its own gate and its own map. */
module SessionCap {
  import opened Options

  const MAX_SESSIONS: nat := 256

  /** Where a create or restore call stands. */
  datatype Pc = Waiting | HoldsGate | SawRoom | Rejected | Ended

  datatype State = State(sessions: set<nat>, gate: Option<nat>, calls: map<nat, Pc>)

  datatype Event =
    | Arrive(c: nat)
    | TakeGate(c: nat)
    | Count(c: nat)
    | Insert(c: nat, id: nat)   // `create` with a new id, or `restore`, which may find the id live
    | InnerFails(c: nat)
    | Cancel(c: nat)            // a dropped future releases the gate it holds
    | Close(id: nat)

  ghost predicate Init(s: State) {
    s == State({}, None, map[])
  }

  predicate At(s: State, c: nat, pc: Pc) {
    c in s.calls && s.calls[c] == pc
  }

  /** The call ends and lets go of the gate if it holds it. */
  function Leave(s: State, c: nat, pc: Pc): State {
    State(s.sessions, if s.gate == Some(c) then None else s.gate, s.calls[c := pc])
  }

  ghost predicate Next(s: State, e: Event, t: State) {
    match e
    case Arrive(c) => c !in s.calls && t == s.(calls := s.calls[c := Waiting])
    case TakeGate(c) => At(s, c, Waiting) && s.gate == None && t == s.(gate := Some(c), calls := s.calls[c := HoldsGate])
    case Count(c) =>
      && At(s, c, HoldsGate)
      && t == if |s.sessions| >= MAX_SESSIONS then Leave(s, c, Rejected) else s.(calls := s.calls[c := SawRoom])
    case Insert(c, id) => At(s, c, SawRoom) && t == Leave(s.(sessions := s.sessions + {id}), c, Ended)
    case InnerFails(c) => At(s, c, SawRoom) && t == Leave(s, c, Ended)
    case Cancel(c) => c in s.calls && t == Leave(s, c, Ended)
    case Close(id) => t == s.(sessions := s.sessions - {id})
  }

  /** Whoever is past the gate holds it, and whoever saw room still has it. */
  ghost predicate Inv(s: State) {
    && |s.sessions| <= MAX_SESSIONS
    && (forall c: nat :: At(s, c, HoldsGate) || At(s, c, SawRoom) ==> s.gate == Some(c))
    && (forall c: nat :: At(s, c, SawRoom) ==> |s.sessions| < MAX_SESSIONS)
  }

  lemma StepKeepsInv(s: State, e: Event, t: State)
    requires Inv(s) && Next(s, e, t)
    ensures Inv(t)
  {
    match e
    case Insert(c, id) =>
      assert At(s, c, SawRoom);
      assert forall d: nat :: At(t, d, SawRoom) ==> d != c && At(s, d, SawRoom);
    case Close(id) =>
      if id in s.sessions {
        assert |s.sessions - {id}| == |s.sessions| - 1;
      } else {
        assert s.sessions - {id} == s.sessions;
      }
      assert forall d: nat :: At(t, d, SawRoom) ==> At(s, d, SawRoom);
    case _ =>
      assert forall d: nat, pc :: At(t, d, pc) && !At(s, d, pc) ==> d == e.c;
  }

  ghost predicate Run(states: seq<State>, events: seq<Event>) {
    && |states| == |events| + 1
    && Init(states[0])
    && forall i :: 0 <= i < |events| ==> Next(states[i], events[i], states[i + 1])
  }

  /** In every interleaving of creates, restores, closes and cancellations a manager never holds
      more than its cap of live sessions. */
  lemma {:induction false} CapHoldsThroughout(states: seq<State>, events: seq<Event>, i: nat)
    requires Run(states, events) && i < |states|
    ensures Inv(states[i]) && |states[i].sessions| <= 256
    decreases i
  {
    if i > 0 {
      CapHoldsThroughout(states, events, i - 1);
      StepKeepsInv(states[i - 1], events[i - 1], states[i]);
    }
  }

  /** A call that has counted below the cap still finds room when it inserts, however many sessions
      other calls tried to open meanwhile: while it holds the gate the map only shrinks. */
  lemma {:induction false} RoomSeenIsRoomKept(states: seq<State>, events: seq<Event>, i: nat, j: nat, c: nat)
    requires Run(states, events) && i <= j < |states|
    requires forall k :: i <= k <= j ==> At(states[k], c, SawRoom)
    ensures states[j].sessions <= states[i].sessions && |states[j].sessions| < MAX_SESSIONS
    decreases j
  {
    CapHoldsThroughout(states, events, j);
    if i < j {
      RoomSeenIsRoomKept(states, events, i, j - 1, c);
      CapHoldsThroughout(states, events, j - 1);
      assert Next(states[j - 1], events[j - 1], states[j]);
      assert At(states[j - 1], c, SawRoom) && At(states[j], c, SawRoom);
    }
  }

  // ---- The code -----------------------------------------------------------------------

  /** The manager, one awaited section a method; each is a step of the protocol above. */
  class CappedSessionManager {
    var sessions: set<nat>
    var gate: Option<nat>
    ghost var calls: map<nat, Pc>

    ghost function Now(): State
      reads this
    {
      State(sessions, gate, calls)
    }

    constructor ()
      ensures Init(Now())
    {
      sessions, gate, calls := {}, None, map[];
    }

    method LockGate(c: nat)
      requires At(Now(), c, Waiting) && gate == None
      modifies this
      ensures Next(old(Now()), TakeGate(c), Now())
    {
      gate, calls := Some(c), calls[c := HoldsGate];
    }

    method CountSessions(c: nat) returns (room: bool)
      requires At(Now(), c, HoldsGate)
      modifies this
      ensures Next(old(Now()), Count(c), Now()) && room == (|old(sessions)| < MAX_SESSIONS)
    {
      room := |sessions| < MAX_SESSIONS;
      if room {
        calls := calls[c := SawRoom];
      } else {
        Release(c);
        calls := calls[c := Rejected];
      }
    }

    method Release(c: nat)
      modifies this`gate
      ensures gate == if old(gate) == Some(c) then None else old(gate)
    {
      if gate == Some(c) {
        gate := None;
      }
    }

    method InsertSession(c: nat, id: nat)
      requires At(Now(), c, SawRoom)
      modifies this
      ensures Next(old(Now()), Insert(c, id), Now())
    {
      sessions, calls := sessions + {id}, calls[c := Ended];
      Release(c);
    }

    method CloseSession(id: nat)
      modifies this`sessions
      ensures Next(old(Now()), Close(id), Now()) && sessions == old(sessions) - {id}
    {
      sessions := sessions - {id};
    }

    /** `create_session` or `restore_session` with nothing running beside it. */
    method OpenSession(c: nat, id: nat) returns (created: bool)
      requires Inv(Now()) && c !in calls && gate == None
      modifies this
      ensures Inv(Now()) && gate == None
      ensures created <==> |old(sessions)| < 256
      ensures sessions == if created then old(sessions) + {id} else old(sessions)
    {
      hide Inv;
      ghost var s0 := Now();
      calls := calls[c := Waiting];
      ghost var s1 := Now();
      StepKeepsInv(s0, Arrive(c), s1);
      LockGate(c);
      ghost var s2 := Now();
      StepKeepsInv(s1, TakeGate(c), s2);
      created := CountSessions(c);
      ghost var s3 := Now();
      StepKeepsInv(s2, Count(c), s3);
      if created {
        InsertSession(c, id);
        StepKeepsInv(s3, Insert(c, id), Now());
      }
    }
  }
}
