/** The in-flight flag of replay (src/channel.rs): one pass per identity, and the flag cleared
    however a pass ends. */
module ReplayGuard {

  datatype State = State(flags: set<string>, passes: map<nat, string>)

  datatype Event =
    | Attach(pass: nat, mxid: string)
    | Finish(pass: nat)
    | Abort(pass: nat)   // an unwind, or a dropped future: the guard's destructor still runs

  ghost predicate Init(s: State) {
    s == State({}, map[])
  }

  /** The guard's drop. */
  function Dropped(s: State, pass: nat): State
    requires pass in s.passes
  {
    State(s.flags - {s.passes[pass]}, s.passes - {pass})
  }

  ghost predicate Next(s: State, e: Event, t: State) {
    match e
    case Attach(pass, mxid) =>
      && pass !in s.passes
      && t == if mxid in s.flags then s else State(s.flags + {mxid}, s.passes[pass := mxid])
    case Finish(pass) => pass in s.passes && t == Dropped(s, pass)
    case Abort(pass) => pass in s.passes && t == Dropped(s, pass)
  }

  /** The flags are the identities of the passes in flight, each of which has one. */
  ghost predicate Inv(s: State) {
    && (forall m :: m in s.flags <==> exists p :: p in s.passes && s.passes[p] == m)
    && (forall p, q :: p in s.passes && q in s.passes && s.passes[p] == s.passes[q] ==> p == q)
  }

  lemma StepKeepsInv(s: State, e: Event, t: State)
    requires Inv(s) && Next(s, e, t)
    ensures Inv(t)
  {
    forall m ensures m in t.flags <==> exists p :: p in t.passes && t.passes[p] == m {
      if m in t.flags && m in s.flags {
        var p :| p in s.passes && s.passes[p] == m;
        assert p in t.passes;
      } else if m in t.flags {
        assert t.passes[e.pass] == m;
      }
      if p :| p in t.passes && t.passes[p] == m {
        assert p in s.passes ==> s.passes[p] in s.flags;
      }
    }
  }

  ghost predicate Run(states: seq<State>, events: seq<Event>) {
    && |states| == |events| + 1
    && Init(states[0])
    && forall i :: 0 <= i < |events| ==> Next(states[i], events[i], states[i + 1])
  }

  lemma {:induction false} InvHoldsThroughout(states: seq<State>, events: seq<Event>, i: nat)
    requires Run(states, events) && i < |states|
    ensures Inv(states[i])
    decreases i
  {
    if i > 0 {
      hide Next, Inv;
      InvHoldsThroughout(states, events, i - 1);
      StepKeepsInv(states[i - 1], events[i - 1], states[i]);
    }
  }

  /** In every interleaving of attaches and ends, aborts included, an identity has at most one pass
      in flight, and its flag is set exactly while it has one. */
  lemma OnePassPerIdentity(states: seq<State>, events: seq<Event>, i: nat, mxid: string)
    requires Run(states, events) && i < |states|
    ensures mxid in states[i].flags <==> exists p :: p in states[i].passes && states[i].passes[p] == mxid
    ensures forall p, q :: p in states[i].passes && q in states[i].passes && states[i].passes[p] == mxid == states[i].passes[q] ==> p == q
  {
    InvHoldsThroughout(states, events, i);
  }

  /** A flag that is clear stays clear until an attach of its identity. */
  lemma {:induction false} FlagStaysClear(states: seq<State>, events: seq<Event>, i: nat, j: nat, mxid: string)
    requires Run(states, events) && i <= j < |states| && mxid !in states[i].flags
    requires forall k :: i <= k < j ==> !(events[k].Attach? && events[k].mxid == mxid)
    ensures mxid !in states[j].flags
    decreases j
  {
    if i < j {
      FlagStaysClear(states, events, i, j - 1, mxid);
      assert Next(states[j - 1], events[j - 1], states[j]);
    }
  }

  /** However a pass ends in a run, the next attach of its identity begins a pass, whatever other
      identities do between. */
  lemma EndedPassFreesItsIdentity(states: seq<State>, events: seq<Event>, i: nat, j: nat, mxid: string)
    requires Run(states, events) && i < j < |events|
    requires (events[i].Finish? || events[i].Abort?) && events[i].pass in states[i].passes && states[i].passes[events[i].pass] == mxid
    requires events[j].Attach? && events[j].mxid == mxid
    requires forall k :: i < k < j ==> !(events[k].Attach? && events[k].mxid == mxid)
    ensures events[j].pass in states[j + 1].passes && states[j + 1].passes[events[j].pass] == mxid
  {
    assert Next(states[i], events[i], states[i + 1]);
    FlagStaysClear(states, events, i + 1, j, mxid);
    assert Next(states[j], events[j], states[j + 1]);
  }

  // ---- The code -----------------------------------------------------------------------

  /** The shared flags. The guard of a pass holds the identity it cleared the way for. */
  class ReplayFlags {
    var replaying: set<string>
    ghost var passes: map<nat, string>

    ghost function Now(): State
      reads this
    {
      State(replaying, passes)
    }

    constructor ()
      ensures Init(Now())
    {
      replaying, passes := {}, map[];
    }

    /** Set the flag, unless a pass of this identity is in flight. */
    method Begin(ghost pass: nat, mxid: string) returns (mine: bool)
      requires pass !in passes
      modifies this
      ensures Next(old(Now()), Attach(pass, mxid), Now())
      ensures mine <==> pass in passes
    {
      mine := mxid !in replaying;
      if mine {
        replaying, passes := replaying + {mxid}, passes[pass := mxid];
      }
    }

    /** The guard's destructor. */
    method DropGuard(ghost pass: nat, mxid: string)
      requires pass in passes && passes[pass] == mxid
      modifies this
      ensures Next(old(Now()), Finish(pass), Now()) && Next(old(Now()), Abort(pass), Now())
    {
      replaying, passes := replaying - {mxid}, passes - {pass};
    }
  }
}
