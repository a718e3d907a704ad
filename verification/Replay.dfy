/** Replay of missed messages: `replay_deliverable`, `replay_room` and `replay_missed` of
    src/channel.rs. The number of peers each notification reaches comes from outside: `reach(n)`
    is what the n-th notification of the pass was written to. */
module Replay {
  import opened ContentSandbox
  import opened MessageWrapper
  import opened Options
  import opened ReadEvents
  import opened Subsequences
  import opened Supersession
  import opened Text
  import opened Truncation
  import opened Utf8
  import opened VerdictGrammar

  const REPLAY_MAX: nat := 20
  const REPLAY_MAX_ROOMS: nat := 50
  const REPLAY_MAX_TOTAL: nat := 100

  /** A room's newest page of history, newest first, and the event last acknowledged in it. */
  datatype Room = Unreadable | History(id: string, decoded: seq<ReadEvent>, watermark: Option<string>)

  datatype Note = Truncated | Push(candidate: Candidate, content: string)

  /** A notification and the number of peers it was written to. */
  datatype Sent = Sent(note: Note, written: nat)

  // ---- Specification ------------------------------------------------------------------

  /** The identified events newer than the watermark, and whether the watermark was met. */
  function Unseen(decoded: seq<ReadEvent>, watermark: Option<string>): (seq<ReadEvent>, bool) {
    if decoded == [] then ([], false)
    else if decoded[0].eventId.None? then Unseen(decoded[1..], watermark)
    else if watermark == decoded[0].eventId then ([], true)
    else
      var (rest, reached) := Unseen(decoded[1..], watermark);
      ([decoded[0]] + rest, reached)
  }

  function Take<T>(s: seq<T>, n: nat): seq<T> {
    if |s| <= n then s else s[..n]
  }

  function Reversed<T>(s: seq<T>): (r: seq<T>)
    ensures |r| == |s| && forall i :: 0 <= i < |s| ==> r[i] == s[|s| - 1 - i]
  {
    seq(|s|, i requires 0 <= i < |s| => s[|s| - 1 - i])
  }

  /** The capped window, oldest first. */
  function Window(decoded: seq<ReadEvent>, watermark: Option<string>): seq<ReadEvent> {
    Reversed(Take(Unseen(decoded, watermark).0, REPLAY_MAX))
  }

  predicate AllowedSender(e: ReadEvent, mxid: string, allowed: seq<string>) {
    e.sender.Some? && e.sender.value != mxid && e.sender.value in allowed
  }

  /** What replay may carry at all. */
  predicate Carriable(e: ReadEvent, mxid: string, allowed: seq<string>) {
    AllowedSender(e, mxid, allowed) && !IsReplayedVerdict(e) && CarriedOf(e).Some?
  }

  /** What one event contributes to the candidates. */
  function CandidateOf(e: ReadEvent, mxid: string, allowed: seq<string>): seq<Candidate> {
    if Carriable(e, mxid, allowed) then [Candidate(e, CarriedOf(e).value)] else []
  }

  function Candidates(window: seq<ReadEvent>, mxid: string, allowed: seq<string>): seq<Candidate> {
    if window == [] then [] else CandidateOf(window[0], mxid, allowed) + Candidates(window[1..], mxid, allowed)
  }

  /** The room's deliverable events of the window, before any budget. */
  ghost function Deliverable(decoded: seq<ReadEvent>, watermark: Option<string>, mxid: string, allowed: seq<string>): seq<Candidate> {
    Survivors(Candidates(Window(decoded, watermark), mxid, allowed))
  }

  /** What the push loop sends for a candidate: nothing without a sender, an id or a body. */
  function PushText(t: Tables, room: string, c: Candidate): Option<string> {
    if c.event.sender.None? || c.event.eventId.None? then None else ReplayBody(t, room, c.carried, c.event)
  }

  /** Push events in order, skipping the bodyless, until one reaches nobody. */
  function Pushes(t: Tables, room: string, d: seq<Candidate>, reach: nat -> nat, calls: nat): seq<Sent> {
    if d == [] then []
    else
      var body := PushText(t, room, d[0]);
      if body.None? then Pushes(t, room, d[1..], reach, calls)
      else
        var first := Sent(Push(d[0], CappedWrapped(body.value)), reach(calls));
        if reach(calls) == 0 then [first]
        else [first] + Pushes(t, room, d[1..], reach, calls + 1)
  }

  /** Everything one room sends. */
  ghost function RoomLog(t: Tables, room: Room, mxid: string, allowed: seq<string>, budget: nat, reach: nat -> nat, calls: nat): seq<Sent> {
    if room.Unreadable? then []
    else
      var d := Take(Deliverable(room.decoded, room.watermark, mxid, allowed), budget);
      var (unseen, reached) := Unseen(room.decoded, room.watermark);
      if d == [] then []
      else if !reached && |unseen| > REPLAY_MAX
      then [Sent(Truncated, reach(calls))] + Pushes(t, room.id, d, reach, calls + 1)
      else Pushes(t, room.id, d, reach, calls)
  }

  /** The events a log delivered to somebody, in order. */
  function Delivered(log: seq<Sent>): seq<Candidate> {
    if log == [] then []
    else (if log[0].note.Push? && log[0].written > 0 then [log[0].note.candidate] else []) + Delivered(log[1..])
  }

  // ---- The code -----------------------------------------------------------------------

  /** `replay_deliverable`. */
  method ReplayDeliverable(unseen: seq<ReadEvent>, mxid: string, allowed: seq<string>, budget: nat) returns (d: seq<Candidate>)
    ensures d == Take(Survivors(Candidates(unseen, mxid, allowed)), budget)
  {
    var candidates := Candidates(unseen, mxid, allowed);
    d := SupersedeEdits(candidates);
    d := Take(d, budget);
  }

  /** The walk of `replay_room` back to the watermark. */
  method WalkToWatermark(decoded: seq<ReadEvent>, watermark: Option<string>) returns (unseen: seq<ReadEvent>, reachedWatermark: bool)
    ensures (unseen, reachedWatermark) == Unseen(decoded, watermark)
  {
    hide Unseen;
    var i := 0;
    unseen, reachedWatermark := [], false;
    ghost var all := Unseen(decoded, watermark);
    assert decoded[0..] == decoded && [] + all.0 == all.0;
    while i < |decoded| && !reachedWatermark
      invariant i <= |decoded|
      invariant reachedWatermark ==> all == (unseen, true)
      invariant !reachedWatermark ==>
                  all.0 == unseen + Unseen(decoded[i..], watermark).0 && all.1 == Unseen(decoded[i..], watermark).1
      decreases |decoded| - i, !reachedWatermark
    {
      UnseenFrom(decoded, i, watermark);
      var event := decoded[i];
      if event.eventId.Some? {
        if watermark == event.eventId {
          reachedWatermark := true;
          assert unseen + [] == unseen;
        } else {
          ghost var rest := Unseen(decoded[i + 1..], watermark).0;
          assert unseen + ([event] + rest) == unseen + [event] + rest;
          unseen := unseen + [event];
          i := i + 1;
        }
      } else {
        i := i + 1;
      }
    }
    if !reachedWatermark {
      NothingUnseen(decoded[i..], watermark);
      assert unseen + [] == unseen;
    }
  }

  lemma UnseenFrom(decoded: seq<ReadEvent>, i: nat, watermark: Option<string>)
    requires i < |decoded|
    ensures var rest := Unseen(decoded[i + 1..], watermark);
            Unseen(decoded[i..], watermark) ==
              if decoded[i].eventId.None? then rest
              else if watermark == decoded[i].eventId then ([], true)
              else ([decoded[i]] + rest.0, rest.1)
  {
    assert decoded[i..][0] == decoded[i] && decoded[i..][1..] == decoded[i + 1..];
  }

  lemma NothingUnseen(decoded: seq<ReadEvent>, watermark: Option<string>)
    requires decoded == []
    ensures Unseen(decoded, watermark) == ([], false)
  {
  }

  /** The push loop of `replay_room`: a candidate without a body is skipped, and the first one that
      reaches no peer ends the room. */
  method PushInOrder(t: Tables, roomId: string, d: seq<Candidate>, reach: nat -> nat, calls: nat)
      returns (log: seq<Sent>, replayed: nat)
    ensures log == Pushes(t, roomId, d, reach, calls)
    ensures replayed == |Delivered(log)|
  {
    hide PushText, CappedWrapped, Pushes, Delivered;
    log, replayed := [], 0;
    ghost var all := Pushes(t, roomId, d, reach, calls);
    assert d[0..] == d && [] + all == all;
    NothingDelivered();
    for k := 0 to |d|
      invariant all == log + Pushes(t, roomId, d[k..], reach, calls + |log|)
      invariant replayed == |Delivered(log)|
    {
      PushesFrom(t, roomId, d, k, reach, calls + |log|);
      var body := PushText(t, roomId, d[k]);
      if body.Some? {
        var delivered := reach(calls + |log|);
        var sent := Sent(Push(d[k], CappedWrapped(body.value)), delivered);
        DeliveredSnoc(log, sent);
        LogAssociates(log, sent, Pushes(t, roomId, d[k + 1..], reach, calls + |log| + 1));
        log := log + [sent];
        if delivered == 0 {
          return;
        }
        replayed := replayed + 1;
      }
    }
    NothingToPush(t, roomId, d[|d|..], reach, calls + |log|);
    assert log + [] == log;
  }

  lemma NothingDelivered()
    ensures Delivered([]) == []
  {
  }

  lemma LogAssociates(log: seq<Sent>, sent: Sent, rest: seq<Sent>)
    ensures log + ([sent] + rest) == log + [sent] + rest
  {
  }

  lemma PushesFrom(t: Tables, room: string, d: seq<Candidate>, k: nat, reach: nat -> nat, calls: nat)
    requires k < |d|
    ensures var body := PushText(t, room, d[k]);
            Pushes(t, room, d[k..], reach, calls) ==
              if body.None? then Pushes(t, room, d[k + 1..], reach, calls)
              else
                var sent := Sent(Push(d[k], CappedWrapped(body.value)), reach(calls));
                if reach(calls) == 0 then [sent] else [sent] + Pushes(t, room, d[k + 1..], reach, calls + 1)
  {
    hide PushText, CappedWrapped;
    assert d[k..][0] == d[k] && d[k..][1..] == d[k + 1..];
  }

  lemma NothingToPush(t: Tables, room: string, d: seq<Candidate>, reach: nat -> nat, calls: nat)
    requires d == []
    ensures Pushes(t, room, d, reach, calls) == []
  {
  }

  /** `replay_room`: walk back to the watermark, cap, filter, and push until one push reaches
      nobody. Returns what was sent and how many events were delivered. */
  method ReplayRoom(t: Tables, room: Room, mxid: string, allowed: seq<string>, budget: nat, reach: nat -> nat, calls: nat)
      returns (log: seq<Sent>, replayed: nat)
    ensures log == RoomLog(t, room, mxid, allowed, budget, reach, calls)
    ensures replayed == |Delivered(log)|
  {
    hide PushText, CappedWrapped, Unseen, Candidates, Survivors;
    if room.Unreadable? {
      return [], 0;
    }
    var unseen, reachedWatermark := WalkToWatermark(room.decoded, room.watermark);
    var truncated := !reachedWatermark && |unseen| > REPLAY_MAX;
    var d := ReplayDeliverable(Reversed(Take(unseen, REPLAY_MAX)), mxid, allowed, budget);
    if d == [] {
      return [], 0;
    }
    var notice := if truncated then [Sent(Truncated, reach(calls))] else [];
    log, replayed := PushInOrder(t, room.id, d, reach, calls + |notice|);
    DeliveredConcat(notice, log);
    log := notice + log;
  }

  lemma {:induction false} DeliveredConcat(a: seq<Sent>, b: seq<Sent>)
    ensures Delivered(a + b) == Delivered(a) + Delivered(b)
  {
    if a == [] {
      assert a + b == b;
    } else {
      assert (a + b)[0] == a[0] && (a + b)[1..] == a[1..] + b;
      DeliveredConcat(a[1..], b);
    }
  }

  lemma DeliveredSnoc(log: seq<Sent>, s: Sent)
    ensures Delivered(log + [s]) == Delivered(log) + (if s.note.Push? && s.written > 0 then [s.note.candidate] else [])
  {
    DeliveredConcat(log, [s]);
  }

  /** Everything one pass sends, room by room, each within what the rooms before it left. */
  ghost function PassLog(t: Tables, rooms: seq<Room>, mxid: string, allowed: seq<string>, budget: nat, reach: nat -> nat, calls: nat): seq<Sent>
    decreases |rooms|
  {
    if rooms == [] || budget == 0 then []
    else
      var log := RoomLog(t, rooms[0], mxid, allowed, budget, reach, calls);
      RoomStaysWithinBudget(t, rooms[0], mxid, allowed, budget, reach, calls);
      log + PassLog(t, rooms[1..], mxid, allowed, budget - |Delivered(log)|, reach, calls + |log|)
  }

  /** The loop of `replay_missed`: rooms share one budget, which never goes below zero. */
  method ReplayRooms(t: Tables, visited: seq<Room>, mxid: string, allowed: seq<string>, reach: nat -> nat) returns (log: seq<Sent>)
    ensures log == PassLog(t, visited, mxid, allowed, REPLAY_MAX_TOTAL, reach, 0)
  {
    hide RoomLog, Delivered;
    log := [];
    var budget := REPLAY_MAX_TOTAL;
    ghost var all := PassLog(t, visited, mxid, allowed, budget, reach, 0);
    for i := 0 to |visited|
      invariant all == log + PassLog(t, visited[i..], mxid, allowed, budget, reach, |log|)
    {
      if budget == 0 {
        assert log + [] == log;
        return;
      }
      var sent, replayed := ReplayRoom(t, visited[i], mxid, allowed, budget, reach, |log|);
      RoomStaysWithinBudget(t, visited[i], mxid, allowed, budget, reach, |log|);
      assert visited[i..][1..] == visited[i + 1..];
      budget := budget - replayed;
      ghost var rest := PassLog(t, visited[i + 1..], mxid, allowed, budget, reach, |log| + |sent|);
      assert log + (sent + rest) == log + sent + rest;
      log := log + sent;
    }
    assert visited[|visited|..] == [] && log + [] == log;
  }

  /** `replay_missed`, past the in-flight check: an empty allowlist replays nothing; otherwise at
      most fifty rooms are replayed. Where every notification reaches somebody, the first deliverable
      events of those rooms are delivered, in room order, as many as the pass may. */
  method ReplayMissed(t: Tables, rooms: seq<Room>, mxid: string, allowed: seq<string>, reach: nat -> nat) returns (log: seq<Sent>)
    ensures log == if allowed == [] then [] else PassLog(t, Take(rooms, REPLAY_MAX_ROOMS), mxid, allowed, REPLAY_MAX_TOTAL, reach, 0)
    ensures allowed != [] && RoomsDecoded(t, rooms) && (forall n :: reach(n) > 0) ==>
              Delivered(log) == Take(AllDeliverable(Take(rooms, 50), mxid, allowed), 100)
  {
    hide RoomLog, Delivered, AllDeliverable, PassLog;
    log := [];
    if allowed == [] {
      return;
    }
    var visited := Take(rooms, REPLAY_MAX_ROOMS);
    log := ReplayRooms(t, visited, mxid, allowed, reach);
    if RoomsDecoded(t, rooms) && forall n :: reach(n) > 0 {
      ReachingPassDeliversAll(t, visited, mxid, allowed, REPLAY_MAX_TOTAL, reach, 0);
    }
  }

  // ---- Bounds -------------------------------------------------------------------------

  lemma {:induction false} PushesAreBounded(t: Tables, room: string, d: seq<Candidate>, reach: nat -> nat, calls: nat)
    ensures var log := Pushes(t, room, d, reach, calls);
            && |Delivered(log)| <= |d| && |log| <= |Delivered(log)| + 1
            && (forall i :: 0 <= i < |log| ==> log[i].note.Push?)
  {
    hide PushText, CappedWrapped;
    if d != [] {
      var body := PushText(t, room, d[0]);
      if body.None? {
        PushesAreBounded(t, room, d[1..], reach, calls);
      } else {
        var first := Sent(Push(d[0], CappedWrapped(body.value)), reach(calls));
        var rest := Pushes(t, room, d[1..], reach, calls + 1);
        PushesAreBounded(t, room, d[1..], reach, calls + 1);
        DeliveredConcat([first], rest);
        assert [first][1..] == [];
      }
    }
  }

  /** The notifications actually written to some peer. */
  function Written(log: seq<Sent>): nat {
    if log == [] then 0 else (if log[0].written > 0 then 1 else 0) + Written(log[1..])
  }

  lemma {:induction false} WrittenConcat(a: seq<Sent>, b: seq<Sent>)
    ensures Written(a + b) == Written(a) + Written(b)
  {
    if a == [] {
      assert a + b == b;
    } else {
      assert (a + b)[0] == a[0] && (a + b)[1..] == a[1..] + b;
      WrittenConcat(a[1..], b);
    }
  }

  lemma {:induction false} PushesWriteWhatTheyDeliver(log: seq<Sent>)
    requires forall i :: 0 <= i < |log| ==> log[i].note.Push?
    ensures Written(log) == |Delivered(log)|
  {
    if log != [] {
      PushesWriteWhatTheyDeliver(log[1..]);
    }
  }

  /** One room delivers no more than its budget and no more than twenty events, with at most one
      notice and one push that reaches nobody besides. */
  lemma RoomStaysWithinBudget(t: Tables, room: Room, mxid: string, allowed: seq<string>, budget: nat, reach: nat -> nat, calls: nat)
    ensures var log := RoomLog(t, room, mxid, allowed, budget, reach, calls);
            && |Delivered(log)| <= budget
            && |Delivered(log)| <= 20
            && Written(log) <= |Delivered(log)| + 1
            && |log| <= |Delivered(log)| + 2
  {
    hide Pushes, Survivors, Candidates, Window, Unseen;
    if room.History? {
      var full := Deliverable(room.decoded, room.watermark, mxid, allowed);
      var d := Take(full, budget);
      DeliverableFitsTheWindow(room.decoded, room.watermark, mxid, allowed);
      forall c: nat ensures var log := Pushes(t, room.id, d, reach, c);
        |Delivered(log)| <= |d| && |log| <= |Delivered(log)| + 1 && Written(log) == |Delivered(log)|
      {
        PushesAreBounded(t, room.id, d, reach, c);
        PushesWriteWhatTheyDeliver(Pushes(t, room.id, d, reach, c));
      }
      var rest := Pushes(t, room.id, d, reach, calls + 1);
      var notice := [Sent(Truncated, reach(calls))];
      DeliveredConcat(notice, rest);
      WrittenConcat(notice, rest);
    }
  }

  lemma DeliverableFitsTheWindow(decoded: seq<ReadEvent>, watermark: Option<string>, mxid: string, allowed: seq<string>)
    ensures |Deliverable(decoded, watermark, mxid, allowed)| <= REPLAY_MAX
  {
    var window := Window(decoded, watermark);
    var c := Candidates(window, mxid, allowed);
    var at := KeptIsSubsequence(c, c);
    var from := CandidatesComeInOrder(window, mxid, allowed);
    IncreasingFits(at, |c|);
    IncreasingFits(from, |window|);
  }

  lemma {:induction false} IncreasingFits(at: seq<nat>, n: nat)
    requires forall i :: 0 <= i < |at| ==> at[i] < n
    requires forall i, j :: 0 <= i < j < |at| ==> at[i] < at[j]
    ensures |at| <= n
  {
    if at != [] {
      IncreasingFits(at[..|at| - 1], at[|at| - 1]);
    }
  }

  /** A whole pass delivers at most a hundred events, at most twenty of a room's, writes at most a
      hundred and fifty notifications, and attempts at most two hundred. */
  lemma PassStaysWithinBounds(t: Tables, rooms: seq<Room>, mxid: string, allowed: seq<string>, reach: nat -> nat)
    ensures var log := PassLog(t, Take(rooms, REPLAY_MAX_ROOMS), mxid, allowed, REPLAY_MAX_TOTAL, reach, 0);
            && |Delivered(log)| <= 100 && Written(log) <= 150 && |log| <= 200
  {
    PassIsBounded(t, Take(rooms, REPLAY_MAX_ROOMS), mxid, allowed, REPLAY_MAX_TOTAL, reach, 0);
  }

  lemma {:induction false} PassIsBounded(t: Tables, rooms: seq<Room>, mxid: string, allowed: seq<string>, budget: nat, reach: nat -> nat, calls: nat)
    ensures var log := PassLog(t, rooms, mxid, allowed, budget, reach, calls);
            && |Delivered(log)| <= budget
            && Written(log) <= |Delivered(log)| + |rooms|
            && |log| <= |Delivered(log)| + 2 * |rooms|
    decreases |rooms|
  {
    hide RoomLog;
    if rooms != [] && budget > 0 {
      var first := RoomLog(t, rooms[0], mxid, allowed, budget, reach, calls);
      RoomStaysWithinBudget(t, rooms[0], mxid, allowed, budget, reach, calls);
      var left := budget - |Delivered(first)|;
      var rest := PassLog(t, rooms[1..], mxid, allowed, left, reach, calls + |first|);
      PassIsBounded(t, rooms[1..], mxid, allowed, left, reach, calls + |first|);
      DeliveredConcat(first, rest);
      WrittenConcat(first, rest);
    }
  }

  // ---- What is pushed -----------------------------------------------------------------

  /** Every event in the page was decoded by the read path. */
  ghost predicate AllDecoded(t: Tables, decoded: seq<ReadEvent>) {
    forall i :: 0 <= i < |decoded| ==> exists v, ok :: decoded[i] == Decoded(t, v, ok)
  }

  /** Candidates come from the window, in its order, and every one may be carried. */
  lemma {:induction false} CandidatesComeInOrder(window: seq<ReadEvent>, mxid: string, allowed: seq<string>) returns (at: seq<nat>)
    ensures var c := Candidates(window, mxid, allowed);
            && |at| == |c|
            && (forall i :: 0 <= i < |c| ==> at[i] < |window| && c[i].event == window[at[i]])
            && (forall i :: 0 <= i < |c| ==> Carriable(c[i].event, mxid, allowed) && CarriedOf(c[i].event) == Some(c[i].carried))
            && (forall i, j :: 0 <= i < j < |c| ==> at[i] < at[j])
  {
    hide Carriable, CarriedOf;
    at := [];
    if window != [] {
      var rest := CandidatesComeInOrder(window[1..], mxid, allowed);
      var shifted := seq(|rest|, i requires 0 <= i < |rest| => rest[i] + 1);
      if Carriable(window[0], mxid, allowed) {
        CarriableIsCarried(window[0], mxid, allowed);
        at := [0] + shifted;
      } else {
        at := shifted;
      }
    }
  }

  lemma CarriableIsCarried(e: ReadEvent, mxid: string, allowed: seq<string>)
    requires Carriable(e, mxid, allowed)
    ensures CarriedOf(e).Some? && e.sender.Some?
  {
  }

  /** Where each deliverable event stands among the unseen ones: within the window, and later in the
      delivery is newer in the room. */
  ghost predicate Places(decoded: seq<ReadEvent>, watermark: Option<string>, mxid: string, allowed: seq<string>, at: seq<nat>) {
    var d, u := Deliverable(decoded, watermark, mxid, allowed), Unseen(decoded, watermark).0;
    && |at| == |d|
    && (forall i :: 0 <= i < |d| ==> at[i] < |u| && at[i] < REPLAY_MAX && d[i].event == u[at[i]])
    && (forall i, j :: 0 <= i < j < |d| ==> at[i] > at[j])
  }

  lemma DeliverableComesInOrder(decoded: seq<ReadEvent>, watermark: Option<string>, mxid: string, allowed: seq<string>) returns (at: seq<nat>)
    ensures Places(decoded, watermark, mxid, allowed, at)
    ensures var d := Deliverable(decoded, watermark, mxid, allowed);
            forall i :: 0 <= i < |d| ==> Carriable(d[i].event, mxid, allowed) && CarriedOf(d[i].event) == Some(d[i].carried)
  {
    hide Carriable, CarriedOf, Candidates, KeptOf, Keeps;
    var window := Window(decoded, watermark);
    var c := Candidates(window, mxid, allowed);
    var kept := KeptIsSubsequence(c, c);
    var from := CandidatesComeInOrder(window, mxid, allowed);
    at := seq(|kept|, i requires 0 <= i < |kept| => |window| - 1 - from[kept[i]]);
  }

  /** Without bodyless events, what the pushes deliver is a prefix. */
  lemma {:induction false} PushesDeliverAPrefix(t: Tables, room: string, d: seq<Candidate>, reach: nat -> nat, calls: nat) returns (m: nat)
    requires forall i :: 0 <= i < |d| ==> PushText(t, room, d[i]).Some?
    ensures m <= |d| && Delivered(Pushes(t, room, d, reach, calls)) == d[..m]
    ensures m < |d| ==> reach(calls + m) == 0
    ensures |Pushes(t, room, d, reach, calls)| == if m < |d| then m + 1 else m
  {
    hide PushText, CappedWrapped;
    m := 0;
    if d != [] {
      var log := Pushes(t, room, d, reach, calls);
      if reach(calls) > 0 {
        var rest := PushesDeliverAPrefix(t, room, d[1..], reach, calls + 1);
        m := rest + 1;
        assert log[1..] == Pushes(t, room, d[1..], reach, calls + 1);
        assert d[..m] == [d[0]] + d[1..][..rest];
      } else {
        assert log[1..] == [];
      }
    }
  }

  /** Replay has a text for this event, and it wraps what the sender wrote. */
  ghost predicate HasWrappedBody(t: Tables, room: string, c: Candidate) {
    var body := PushText(t, room, c);
    body.Some? && exists r :: body.value == WrapBody(t, r, c.event.sender, c.event.eventId, DeliveredText(c.carried, c.event))
  }

  lemma DeliverableHasBodies(t: Tables, decoded: seq<ReadEvent>, watermark: Option<string>, mxid: string, allowed: seq<string>, room: string)
    requires AllDecoded(t, decoded)
    ensures forall c :: c in Deliverable(decoded, watermark, mxid, allowed) ==> HasWrappedBody(t, room, c)
  {
    hide WrapBody, ReplayBody, Decoded, Carriable, CarriedOf, Deliverable;
    var d := Deliverable(decoded, watermark, mxid, allowed);
    var at := DeliverableComesInOrder(decoded, watermark, mxid, allowed);
    UnseenAreDecoded(decoded, watermark);
    forall c | c in d ensures HasWrappedBody(t, room, c) {
      var i :| 0 <= i < |d| && d[i] == c;
      assert c.event in Unseen(decoded, watermark).0;
      var k :| 0 <= k < |decoded| && decoded[k] == c.event;
      var v, ok :| decoded[k] == Decoded(t, v, ok);
      CarriableIsCarried(c.event, mxid, allowed);
      CarriedEventsHaveABody(t, v, ok, room);
    }
  }

  lemma {:induction false} UnseenAreDecoded(decoded: seq<ReadEvent>, watermark: Option<string>)
    ensures forall e :: e in Unseen(decoded, watermark).0 ==> e in decoded && e.eventId.Some?
  {
    if decoded != [] {
      UnseenAreDecoded(decoded[1..], watermark);
    }
  }

  /** What a room delivers, it delivers by its pushes. */
  lemma RoomDeliversItsPushes(t: Tables, room: Room, mxid: string, allowed: seq<string>, budget: nat, reach: nat -> nat, calls: nat) returns (from: nat)
    requires room.History?
    ensures Delivered(RoomLog(t, room, mxid, allowed, budget, reach, calls))
         == Delivered(Pushes(t, room.id, Take(Deliverable(room.decoded, room.watermark, mxid, allowed), budget), reach, from))
    ensures calls <= from
    ensures from + |Pushes(t, room.id, Take(Deliverable(room.decoded, room.watermark, mxid, allowed), budget), reach, from)|
         == calls + |RoomLog(t, room, mxid, allowed, budget, reach, calls)|
  {
    hide PushText, Pushes, Deliverable, Unseen, Take;
    var d := Take(Deliverable(room.decoded, room.watermark, mxid, allowed), budget);
    var (unseen, reached) := Unseen(room.decoded, room.watermark);
    from := calls;
    if d == [] {
      NothingToPush(t, room.id, d, reach, calls);
    } else if !reached && |unseen| > REPLAY_MAX {
      from := calls + 1;
      DeliveredConcat([Sent(Truncated, reach(calls))], Pushes(t, room.id, d, reach, from));
    }
  }

  /** A replayed room delivers, oldest first, a prefix of its deliverable events within the budget,
      and less than that only because one of its notifications reached nobody. */
  lemma RoomDeliversAPrefix(t: Tables, room: Room, mxid: string, allowed: seq<string>, budget: nat, reach: nat -> nat, calls: nat) returns (m: nat)
    requires room.History? && AllDecoded(t, room.decoded)
    ensures var full := Deliverable(room.decoded, room.watermark, mxid, allowed);
            && m <= |full| && m <= budget && Delivered(RoomLog(t, room, mxid, allowed, budget, reach, calls)) == full[..m]
            && (m < |full| && m < budget ==>
                  exists x :: calls <= x < calls + |RoomLog(t, room, mxid, allowed, budget, reach, calls)| && reach(x) == 0)
  {
    hide PushText, Pushes, Deliverable, RoomLog, Delivered, AllDecoded;
    var full := Deliverable(room.decoded, room.watermark, mxid, allowed);
    var d := Take(full, budget);
    DeliverableHasBodies(t, room.decoded, room.watermark, mxid, allowed, room.id);
    forall i | 0 <= i < |d| ensures PushText(t, room.id, d[i]).Some? {
      assert d[i] == full[i] && HasWrappedBody(t, room.id, full[i]);
    }
    var from := RoomDeliversItsPushes(t, room, mxid, allowed, budget, reach, calls);
    m := PushesDeliverAPrefix(t, room.id, d, reach, from);
    assert d[..m] == full[..m];
    if m < |d| {
      assert calls <= from + m && reach(from + m) == 0;
    }
  }

  // ---- What a whole pass delivers -------------------------------------------------------

  ghost function DeliverableOf(room: Room, mxid: string, allowed: seq<string>): seq<Candidate> {
    if room.Unreadable? then [] else Deliverable(room.decoded, room.watermark, mxid, allowed)
  }

  /** The deliverable events of all rooms, room by room. */
  ghost function AllDeliverable(rooms: seq<Room>, mxid: string, allowed: seq<string>): seq<Candidate> {
    if rooms == [] then [] else DeliverableOf(rooms[0], mxid, allowed) + AllDeliverable(rooms[1..], mxid, allowed)
  }

  /** The first `cuts[r]` deliverable events of each room `r`, room by room. */
  ghost function Prefixes(rooms: seq<Room>, mxid: string, allowed: seq<string>, cuts: seq<nat>): seq<Candidate>
    requires |cuts| == |rooms|
  {
    if rooms == [] then []
    else Take(DeliverableOf(rooms[0], mxid, allowed), cuts[0]) + Prefixes(rooms[1..], mxid, allowed, cuts[1..])
  }

  ghost predicate RoomsDecoded(t: Tables, rooms: seq<Room>) {
    forall r :: 0 <= r < |rooms| && rooms[r].History? ==> AllDecoded(t, rooms[r].decoded)
  }

  /** What one room of a pass delivers. */
  lemma RoomCut(t: Tables, room: Room, mxid: string, allowed: seq<string>, budget: nat, reach: nat -> nat, calls: nat) returns (m: nat)
    requires room.History? ==> AllDecoded(t, room.decoded)
    ensures var full := DeliverableOf(room, mxid, allowed);
            && m <= |full| && m <= budget && Delivered(RoomLog(t, room, mxid, allowed, budget, reach, calls)) == full[..m]
            && (m < |full| && m < budget ==>
                  exists x :: calls <= x < calls + |RoomLog(t, room, mxid, allowed, budget, reach, calls)| && reach(x) == 0)
  {
    hide Deliverable, Delivered, AllDecoded;
    if room.History? {
      hide RoomLog;
      m := RoomDeliversAPrefix(t, room, mxid, allowed, budget, reach, calls);
    } else {
      m := 0;
      NothingDelivered();
    }
  }

  /** The stretches of a pass's notifications that its rooms sent, one after another. */
  ghost predicate Stretches(starts: seq<nat>, rooms: nat, from: nat, to: nat) {
    && |starts| == rooms + 1 && starts[0] == from && starts[rooms] == to
    && forall r :: 0 <= r < rooms ==> starts[r] <= starts[r + 1]
  }

  /** Room `r` may be cut short: a notification of its own reached nobody. */
  ghost predicate ReachedNobody(reach: nat -> nat, starts: seq<nat>, r: nat)
    requires r + 1 < |starts|
  {
    exists x :: starts[r] <= x < starts[r + 1] && reach(x) == 0
  }

  /** In every pass each room delivers a prefix of its own deliverable events, and less than all of
      them only because the budget is used up or one of its own notifications reached nobody. */
  lemma {:induction false} PassDeliversPrefixes(t: Tables, rooms: seq<Room>, mxid: string, allowed: seq<string>, budget: nat, reach: nat -> nat, calls: nat)
      returns (cuts: seq<nat>, starts: seq<nat>)
    requires RoomsDecoded(t, rooms)
    ensures |cuts| == |rooms|
    ensures Stretches(starts, |rooms|, calls, calls + |PassLog(t, rooms, mxid, allowed, budget, reach, calls)|)
    ensures var delivered := Delivered(PassLog(t, rooms, mxid, allowed, budget, reach, calls));
            && delivered == Prefixes(rooms, mxid, allowed, cuts) && |delivered| <= budget
            && (forall r :: 0 <= r < |rooms| && cuts[r] < |DeliverableOf(rooms[r], mxid, allowed)| ==>
                  |delivered| == budget || ReachedNobody(reach, starts, r))
    decreases |rooms|
  {
    hide RoomLog, Delivered, DeliverableOf, Take;
    if rooms == [] {
      cuts, starts := [], [calls];
      NothingDelivered();
    } else if budget == 0 {
      cuts, starts := seq(|rooms|, _ => 0), seq(|rooms| + 1, _ => calls);
      NothingDelivered();
      NoPrefixes(rooms, mxid, allowed, cuts);
    } else {
      var first := RoomLog(t, rooms[0], mxid, allowed, budget, reach, calls);
      var m := RoomCut(t, rooms[0], mxid, allowed, budget, reach, calls);
      RoomStaysWithinBudget(t, rooms[0], mxid, allowed, budget, reach, calls);
      var left := budget - |Delivered(first)|;
      assert RoomsDecoded(t, rooms[1..]);
      var rest, later := PassDeliversPrefixes(t, rooms[1..], mxid, allowed, left, reach, calls + |first|);
      DeliveredConcat(first, PassLog(t, rooms[1..], mxid, allowed, left, reach, calls + |first|));
      cuts, starts := [m] + rest, [calls] + later;
      assert cuts[1..] == rest;
      TakeIsPrefix(DeliverableOf(rooms[0], mxid, allowed), m);
      forall r | 0 < r < |rooms| && ReachedNobody(reach, later, r - 1) ensures ReachedNobody(reach, starts, r) {
        var x :| later[r - 1] <= x < later[r] && reach(x) == 0;
        assert starts[r] == later[r - 1] && starts[r + 1] == later[r];
      }
      assert starts[1] == later[0] == calls + |first|;
    }
  }

  lemma TakeIsPrefix<T>(s: seq<T>, n: nat)
    requires n <= |s|
    ensures Take(s, n) == s[..n]
  {
  }

  lemma {:induction false} NoPrefixes(rooms: seq<Room>, mxid: string, allowed: seq<string>, cuts: seq<nat>)
    requires |cuts| == |rooms| && forall r :: 0 <= r < |cuts| ==> cuts[r] == 0
    ensures Prefixes(rooms, mxid, allowed, cuts) == []
  {
    if rooms != [] {
      NoPrefixes(rooms[1..], mxid, allowed, cuts[1..]);
    }
  }

  /** A pass whose every notification reaches somebody delivers exactly the first deliverable events of
      its rooms, in room order, as many as the budget allows. */
  lemma {:induction false} ReachingPassDeliversAll(t: Tables, rooms: seq<Room>, mxid: string, allowed: seq<string>, budget: nat, reach: nat -> nat, calls: nat)
    requires RoomsDecoded(t, rooms) && forall n :: reach(n) > 0
    ensures Delivered(PassLog(t, rooms, mxid, allowed, budget, reach, calls)) == Take(AllDeliverable(rooms, mxid, allowed), budget)
    decreases |rooms|
  {
    hide RoomLog, Delivered, DeliverableOf;
    if rooms == [] || budget == 0 {
      NothingDelivered();
    } else {
      var first := RoomLog(t, rooms[0], mxid, allowed, budget, reach, calls);
      var full := DeliverableOf(rooms[0], mxid, allowed);
      var m := RoomCut(t, rooms[0], mxid, allowed, budget, reach, calls);
      RoomStaysWithinBudget(t, rooms[0], mxid, allowed, budget, reach, calls);
      assert RoomsDecoded(t, rooms[1..]);
      ReachingPassDeliversAll(t, rooms[1..], mxid, allowed, budget - m, reach, calls + |first|);
      DeliveredConcat(first, PassLog(t, rooms[1..], mxid, allowed, budget - m, reach, calls + |first|));
      TakeOfConcat(full, AllDeliverable(rooms[1..], mxid, allowed), budget, m);
    }
  }

  lemma TakeOfConcat<T>(a: seq<T>, b: seq<T>, n: nat, m: nat)
    requires m <= n && m <= |a| && (m == |a| || m == n)
    ensures a[..m] + Take(b, n - m) == Take(a + b, n)
  {
    if m < |a| {
      assert n == m && Take(b, 0) == [];
    }
  }

  // ---- Nothing carriable is left out ----------------------------------------------------

  /** The watermark is met exactly when an identified event of the page has its id. */
  lemma {:induction false} WatermarkIsMetExactlyWhen(decoded: seq<ReadEvent>, watermark: Option<string>)
    ensures Unseen(decoded, watermark).1 <==>
              exists p :: 0 <= p < |decoded| && decoded[p].eventId.Some? && decoded[p].eventId == watermark
  {
    if decoded != [] {
      WatermarkIsMetExactlyWhen(decoded[1..], watermark);
      if p :| 0 <= p < |decoded[1..]| && decoded[1..][p].eventId.Some? && decoded[1..][p].eventId == watermark {
        assert decoded[p + 1] == decoded[1..][p];
      }
      if p :| 0 <= p < |decoded| && decoded[p].eventId.Some? && decoded[p].eventId == watermark {
        assert p > 0 ==> decoded[p] == decoded[1..][p - 1];
      }
    }
  }

  /** Every identified event newer than the watermark is unseen, in its place among the identified. */
  lemma {:induction false} NewerThanWatermarkIsUnseen(decoded: seq<ReadEvent>, watermark: Option<string>, p: nat) returns (r: nat)
    requires p < |decoded| && decoded[p].eventId.Some?
    requires forall q :: 0 <= q <= p && decoded[q].eventId.Some? ==> decoded[q].eventId != watermark
    ensures r <= p && r < |Unseen(decoded, watermark).0| && Unseen(decoded, watermark).0[r] == decoded[p]
  {
    if p == 0 {
      r := 0;
    } else {
      assert decoded[1..][p - 1] == decoded[p];
      assert forall q :: 0 <= q <= p - 1 ==> decoded[1..][q] == decoded[q + 1];
      var rest := NewerThanWatermarkIsUnseen(decoded[1..], watermark, p - 1);
      r := if decoded[0].eventId.Some? then rest + 1 else rest;
    }
  }

  /** Of the newest twenty unseen events each one that may be carried is deliverable, or covered by a
      deliverable edit of it or of its own target. */
  lemma CarriableIsDeliverableOrCovered(decoded: seq<ReadEvent>, watermark: Option<string>, mxid: string, allowed: seq<string>, r: nat)
    requires r < |Unseen(decoded, watermark).0| && r < 20 && Carriable(Unseen(decoded, watermark).0[r], mxid, allowed)
    ensures CarriedOf(Unseen(decoded, watermark).0[r]).Some?
    ensures var e := Unseen(decoded, watermark).0[r];
            var c := Candidate(e, CarriedOf(e).value);
            || c in Deliverable(decoded, watermark, mxid, allowed)
            || exists w :: w in Deliverable(decoded, watermark, mxid, allowed)
                           && e.eventId.Some? && EditOf(w, if Target(c).Some? then Target(c).value else e.eventId.value)
  {
    hide Carriable, CarriedOf, Candidates, Keeps, KeptOf, EditOf, Target;
    var unseen := Unseen(decoded, watermark).0;
    var e, window := unseen[r], Window(decoded, watermark);
    CarriableIsCarried(e, mxid, allowed);
    assert window[|window| - 1 - r] == e;
    CandidateOfWindow(window, mxid, allowed, |window| - 1 - r);
    var c, b := Candidate(e, CarriedOf(e).value), Candidates(window, mxid, allowed);
    var at := KeptIsSubsequence(b, b);
    if Keeps(b, c) {
      KeptSurvives(b, c, at);
    } else {
      var k :| 0 <= k < |b| && b[k] == c;
      IdentifiedIfDropped(b, c);
      var w := DroppedEventsAreCovered(b, k);
      KeptSurvives(b, b[w], at);
    }
  }

  lemma IdentifiedIfDropped(b: seq<Candidate>, c: Candidate)
    requires !Keeps(b, c)
    ensures c.event.eventId.Some?
  {
  }

  /** A room announces that something was cut off exactly when it sends something at all, did not meet
      its watermark, and has more unseen events than the window; and then first. */
  lemma NoticeExactlyWhen(t: Tables, room: Room, mxid: string, allowed: seq<string>, budget: nat, reach: nat -> nat, calls: nat, n: nat)
    requires room.History? && n < |RoomLog(t, room, mxid, allowed, budget, reach, calls)|
    ensures RoomLog(t, room, mxid, allowed, budget, reach, calls)[n].note == Truncated <==>
              && n == 0 && |Unseen(room.decoded, room.watermark).0| > 20
              && !exists p :: 0 <= p < |room.decoded| && room.decoded[p].eventId.Some? && room.decoded[p].eventId == room.watermark
  {
    hide Deliverable, Pushes, Unseen, Delivered;
    WatermarkIsMetExactlyWhen(room.decoded, room.watermark);
    var d := Take(Deliverable(room.decoded, room.watermark, mxid, allowed), budget);
    PushesAreBounded(t, room.id, d, reach, calls);
    PushesAreBounded(t, room.id, d, reach, calls + 1);
  }

  /** Acknowledging an unseen event cuts at the newest event of that id. */
  lemma {:induction false} AcknowledgingCutsAtTheNewest(decoded: seq<ReadEvent>, watermark: Option<string>, u: nat) returns (q: nat)
    requires u < |Unseen(decoded, watermark).0|
    ensures var unseen := Unseen(decoded, watermark).0;
            && q <= u && unseen[q].eventId == unseen[u].eventId
            && (forall p :: 0 <= p < q ==> unseen[p].eventId != unseen[u].eventId)
            && Unseen(decoded, unseen[u].eventId) == (unseen[..q], true)
  {
    var unseen := Unseen(decoded, watermark).0;
    if decoded[0].eventId.None? {
      q := AcknowledgingCutsAtTheNewest(decoded[1..], watermark, u);
      UnseenAreDecoded(decoded, watermark);
      assert unseen[u] in unseen;
    } else if decoded[0].eventId == unseen[u].eventId {
      q := 0;
    } else {
      assert unseen[1..] == Unseen(decoded[1..], watermark).0;
      var rest := AcknowledgingCutsAtTheNewest(decoded[1..], watermark, u - 1);
      q := rest + 1;
      assert unseen[..q] == [unseen[0]] + unseen[1..][..rest];
      forall p | 0 <= p < q ensures unseen[p].eventId != unseen[u].eventId {
        assert p > 0 ==> unseen[p] == unseen[1..][p - 1];
      }
    }
  }

  /** Acknowledging an unseen event leaves exactly the newer ones unseen, exactly when none of them
      shares its id. */
  lemma AcknowledgingCutsThere(decoded: seq<ReadEvent>, watermark: Option<string>, u: nat)
    requires u < |Unseen(decoded, watermark).0|
    ensures var unseen := Unseen(decoded, watermark).0;
            Unseen(decoded, unseen[u].eventId) == (unseen[..u], true)
            <==> forall p :: 0 <= p < u ==> unseen[p].eventId != unseen[u].eventId
  {
    hide Unseen;
    var unseen := Unseen(decoded, watermark).0;
    var q := AcknowledgingCutsAtTheNewest(decoded, watermark, u);
    assert |unseen[..q]| == q && |unseen[..u]| == u;
  }

  /** An unseen event stays unseen, in its place, exactly when neither it nor a newer one carries the
      acknowledged id. */
  lemma StaysUnseenExactlyWhen(decoded: seq<ReadEvent>, watermark: Option<string>, u: nat, p: nat)
    requires u < |Unseen(decoded, watermark).0| && p < |Unseen(decoded, watermark).0|
    ensures var unseen := Unseen(decoded, watermark).0;
            var left := Unseen(decoded, unseen[u].eventId).0;
            && left <= unseen && |left| <= u
            && (p < |left| <==> forall q :: 0 <= q <= p ==> unseen[q].eventId != unseen[u].eventId)
  {
    hide Unseen;
    var q := AcknowledgingCutsAtTheNewest(decoded, watermark, u);
  }

  lemma {:induction false} CandidatesConcat(a: seq<ReadEvent>, b: seq<ReadEvent>, mxid: string, allowed: seq<string>)
    ensures Candidates(a + b, mxid, allowed) == Candidates(a, mxid, allowed) + Candidates(b, mxid, allowed)
  {
    hide CandidateOf;
    if a == [] {
      assert a + b == b;
    } else {
      assert (a + b)[0] == a[0] && (a + b)[1..] == a[1..] + b;
      CandidatesConcat(a[1..], b, mxid, allowed);
      assert CandidateOf(a[0], mxid, allowed) + (Candidates(a[1..], mxid, allowed) + Candidates(b, mxid, allowed))
          == CandidateOf(a[0], mxid, allowed) + Candidates(a[1..], mxid, allowed) + Candidates(b, mxid, allowed);
    }
  }

  /** The newer unseen events are the end of the window. */
  lemma WindowEndsWithTheNewer(unseen: seq<ReadEvent>, u: nat) returns (older: seq<ReadEvent>)
    requires u < |unseen| && u < REPLAY_MAX
    ensures Reversed(Take(unseen, REPLAY_MAX)) == older + Reversed(Take(unseen[..u], REPLAY_MAX))
    ensures forall e :: e in older ==> exists r :: u <= r < |unseen| && unseen[r] == e
  {
    var all := Take(unseen, REPLAY_MAX);
    older := Reversed(all[u..]);
    assert Take(unseen[..u], REPLAY_MAX) == all[..u];
    forall e | e in older ensures exists r :: u <= r < |unseen| && unseen[r] == e {
      var i :| 0 <= i < |older| && older[i] == e;
      assert e == unseen[|all| - 1 - i];
    }
  }

  /** A survivor among the candidates of the newer unseen events survives among them alone, unless it
      is an edit whose id an older one shares. */
  lemma NewerSurvivorsSurvive(unseen: seq<ReadEvent>, u: nat, mxid: string, allowed: seq<string>, c: Candidate, p: nat)
    requires u < |unseen| && u < REPLAY_MAX && p < u && c.event == unseen[p]
    requires Target(c).Some? ==> forall r :: u <= r < |unseen| ==> unseen[r].eventId != unseen[p].eventId
    requires c in Survivors(Candidates(Reversed(Take(unseen, REPLAY_MAX)), mxid, allowed))
    ensures c in Survivors(Candidates(Reversed(Take(unseen[..u], REPLAY_MAX)), mxid, allowed))
  {
    hide Carriable, CarriedOf, Candidates, Keeps, KeptOf, Take, Reversed, Target;
    var b := Candidates(Reversed(Take(unseen, REPLAY_MAX)), mxid, allowed);
    var newer := Reversed(Take(unseen[..u], REPLAY_MAX));
    var older := WindowEndsWithTheNewer(unseen, u);
    CandidatesConcat(older, newer, mxid, allowed);
    var pre, suf := Candidates(older, mxid, allowed), Candidates(newer, mxid, allowed);
    var at := KeptIsSubsequence(b, b);
    SurvivorIsKept(b, c, at);
    var from := CandidatesComeInOrder(older, mxid, allowed);
    if Target(c).Some? {
      forall j | 0 <= j < |pre| ensures Id(pre[j]) != Id(c) {
        assert older[from[j]] in older;
        var r :| u <= r < |unseen| && unseen[r] == older[from[j]];
      }
    }
    NewerCandidateIsNewer(unseen, u, mxid, allowed, c, p);
    SuffixKeeps(pre, suf, c);
    var at' := KeptIsSubsequence(suf, suf);
    KeptSurvives(suf, c, at');
  }

  /** A candidate's event, where it stands in a window, is a candidate of that window. */
  lemma {:induction false} CandidateOfWindow(window: seq<ReadEvent>, mxid: string, allowed: seq<string>, i: nat)
    requires i < |window| && Carriable(window[i], mxid, allowed) && CarriedOf(window[i]).Some?
    ensures Candidate(window[i], CarriedOf(window[i]).value) in Candidates(window, mxid, allowed)
  {
    hide Carriable, CarriedOf;
    if i > 0 {
      CandidateOfWindow(window[1..], mxid, allowed, i - 1);
    }
  }

  lemma NewerCandidateIsNewer(unseen: seq<ReadEvent>, u: nat, mxid: string, allowed: seq<string>, c: Candidate, p: nat)
    requires u < |unseen| && u < REPLAY_MAX && p < u && c.event == unseen[p]
    requires c in Candidates(Reversed(Take(unseen, REPLAY_MAX)), mxid, allowed)
    ensures c in Candidates(Reversed(Take(unseen[..u], REPLAY_MAX)), mxid, allowed)
  {
    hide Carriable, CarriedOf, Candidates;
    var window := Reversed(Take(unseen, REPLAY_MAX));
    var from := CandidatesComeInOrder(window, mxid, allowed);
    var k :| 0 <= k < |Candidates(window, mxid, allowed)| && Candidates(window, mxid, allowed)[k] == c;
    var newer := Reversed(Take(unseen[..u], REPLAY_MAX));
    assert newer[u - 1 - p] == c.event;
    CandidateOfWindow(newer, mxid, allowed, u - 1 - p);
  }

  lemma SurvivorIsKept(b: seq<Candidate>, c: Candidate, at: seq<nat>)
    requires c in Survivors(b) && Embeds(KeptOf(b, b), b, at)
    requires forall k :: 0 <= k < |b| ==> (k in at <==> Keeps(b, b[k]))
    ensures c in b && Keeps(b, c)
  {
    hide Keeps, KeptOf;
    var i :| 0 <= i < |Survivors(b)| && Survivors(b)[i] == c;
    assert at[i] in at && b[at[i]] == c;
  }

  lemma KeptSurvives(b: seq<Candidate>, c: Candidate, at: seq<nat>)
    requires c in b && Keeps(b, c) && Embeds(KeptOf(b, b), b, at)
    requires forall k :: 0 <= k < |b| ==> (k in at <==> Keeps(b, b[k]))
    ensures c in Survivors(b)
  {
    hide Keeps, KeptOf;
    var k :| 0 <= k < |b| && b[k] == c;
    var i :| 0 <= i < |at| && at[i] == k;
    assert Survivors(b)[i] == c;
  }

  /** How many events a replay of this room delivers. */
  ghost function DeliveredCount(t: Tables, room: Room, mxid: string, allowed: seq<string>, budget: nat, reach: nat -> nat, calls: nat): nat {
    |Delivered(RoomLog(t, room, mxid, allowed, budget, reach, calls))|
  }

  /** Acknowledging delivered event `i` passes over no undelivered deliverable event exactly when none
      of those, and no event newer than one of them, carries the acknowledged id. */
  lemma AcknowledgingPassesNothingExactlyWhen(t: Tables, room: Room, mxid: string, allowed: seq<string>, budget: nat, reach: nat -> nat,
                                              calls: nat, at: seq<nat>, i: nat)
    requires room.History? && AllDecoded(t, room.decoded) && Places(room.decoded, room.watermark, mxid, allowed, at)
    requires i < DeliveredCount(t, room, mxid, allowed, budget, reach, calls) && i < |at|
    ensures var unseen, m := Unseen(room.decoded, room.watermark).0, DeliveredCount(t, room, mxid, allowed, budget, reach, calls);
            var id := Delivered(RoomLog(t, room, mxid, allowed, budget, reach, calls))[i].event.eventId;
            && Unseen(room.decoded, id).0 <= unseen
            && ((forall k :: m <= k < |at| ==> at[k] < |Unseen(room.decoded, id).0|)
                <==> forall k, q :: m <= k < |at| && 0 <= q <= at[k] ==> unseen[q].eventId != id)
  {
    hide RoomLog, Delivered, Unseen, AllDecoded, Deliverable;
    var unseen, m := Unseen(room.decoded, room.watermark).0, DeliveredCount(t, room, mxid, allowed, budget, reach, calls);
    var n := RoomDeliversAPrefix(t, room, mxid, allowed, budget, reach, calls);
    var id := unseen[at[i]].eventId;
    StaysUnseenExactlyWhen(room.decoded, room.watermark, at[i], at[i]);
    forall k | m <= k < |at|
      ensures at[k] < |Unseen(room.decoded, id).0| <==> forall q :: 0 <= q <= at[k] ==> unseen[q].eventId != id
    {
      StaysUnseenExactlyWhen(room.decoded, room.watermark, at[i], at[k]);
    }
  }

  /** And what it does not pass over is deliverable again under the new watermark, but for an edit
      whose id an event passed over shares. On a page whose ids are distinct nothing is lost. */
  lemma AcknowledgingLosesNothing(t: Tables, room: Room, mxid: string, allowed: seq<string>, budget: nat, reach: nat -> nat, calls: nat,
                                  at: seq<nat>, i: nat, k: nat)
    requires room.History? && AllDecoded(t, room.decoded) && Places(room.decoded, room.watermark, mxid, allowed, at)
    requires i < DeliveredCount(t, room, mxid, allowed, budget, reach, calls) && i < |at| && k < |at|
    requires var unseen, c := Unseen(room.decoded, room.watermark).0, Deliverable(room.decoded, room.watermark, mxid, allowed)[k];
             k >= DeliveredCount(t, room, mxid, allowed, budget, reach, calls) ==>
               && (forall q :: 0 <= q <= at[k] ==> unseen[q].eventId != unseen[at[i]].eventId)
               && (Target(c).Some? ==> forall r :: |Unseen(room.decoded, unseen[at[i]].eventId).0| <= r < |unseen| ==> unseen[r].eventId != c.event.eventId)
    ensures var delivered := Delivered(RoomLog(t, room, mxid, allowed, budget, reach, calls));
            var c := Deliverable(room.decoded, room.watermark, mxid, allowed)[k];
            c in delivered || c in Deliverable(room.decoded, delivered[i].event.eventId, mxid, allowed)
  {
    hide RoomLog, Delivered, Unseen, AllDecoded, Candidates, Survivors, Target;
    var full, unseen := Deliverable(room.decoded, room.watermark, mxid, allowed), Unseen(room.decoded, room.watermark).0;
    var m := RoomDeliversAPrefix(t, room, mxid, allowed, budget, reach, calls);
    assert full[i].event == unseen[at[i]];
    if k < m {
      assert full[..m][k] == full[k];
    } else {
      var q := AcknowledgingCutsAtTheNewest(room.decoded, room.watermark, at[i]);
      NewerSurvivorsSurvive(unseen, q, mxid, allowed, full[k], at[k]);
    }
  }

  ghost predicate DistinctIds(events: seq<ReadEvent>) {
    forall p, r :: 0 <= p < r < |events| ==> events[p].eventId != events[r].eventId
  }

  /** On a page whose unseen ids are distinct nothing is lost. */
  lemma DistinctIdsLoseNothing(t: Tables, room: Room, mxid: string, allowed: seq<string>, budget: nat, reach: nat -> nat, calls: nat, i: nat, k: nat)
    requires room.History? && AllDecoded(t, room.decoded) && DistinctIds(Unseen(room.decoded, room.watermark).0)
    requires i < DeliveredCount(t, room, mxid, allowed, budget, reach, calls)
    requires k < |Deliverable(room.decoded, room.watermark, mxid, allowed)|
    ensures var delivered := Delivered(RoomLog(t, room, mxid, allowed, budget, reach, calls));
            var c := Deliverable(room.decoded, room.watermark, mxid, allowed)[k];
            c in delivered || c in Deliverable(room.decoded, delivered[i].event.eventId, mxid, allowed)
  {
    hide RoomLog, Delivered, Unseen, AllDecoded, Deliverable, Target;
    var at := DeliverableComesInOrder(room.decoded, room.watermark, mxid, allowed);
    var unseen := Unseen(room.decoded, room.watermark).0;
    var m := RoomDeliversAPrefix(t, room, mxid, allowed, budget, reach, calls);
    if k >= DeliveredCount(t, room, mxid, allowed, budget, reach, calls) {
      assert at[k] < at[i];
      StaysUnseenExactlyWhen(room.decoded, room.watermark, at[i], at[k]);
    }
    AcknowledgingLosesNothing(t, room, mxid, allowed, budget, reach, calls, at, i, k);
  }

  // ---- A second pass --------------------------------------------------------------------

  /** The candidates of a window that are no newer than the `u`-th unseen event. */
  function OlderCandidates(unseen: seq<ReadEvent>, u: nat, mxid: string, allowed: seq<string>): seq<Candidate>
    requires u < |unseen| && u < REPLAY_MAX
  {
    Candidates(Reversed(Take(unseen, REPLAY_MAX)[u..]), mxid, allowed)
  }

  lemma CandidatesSplit(unseen: seq<ReadEvent>, u: nat, mxid: string, allowed: seq<string>)
    requires u < |unseen| && u < REPLAY_MAX
    ensures Candidates(Reversed(Take(unseen, REPLAY_MAX)), mxid, allowed)
         == OlderCandidates(unseen, u, mxid, allowed) + Candidates(Reversed(Take(unseen[..u], REPLAY_MAX)), mxid, allowed)
  {
    hide Candidates;
    var all := Take(unseen, REPLAY_MAX);
    assert Take(unseen[..u], REPLAY_MAX) == all[..u];
    assert Reversed(all) == Reversed(all[u..]) + Reversed(all[..u]);
    CandidatesConcat(Reversed(all[u..]), Reversed(all[..u]), mxid, allowed);
  }

  lemma DistinctCandidates(unseen: seq<ReadEvent>, mxid: string, allowed: seq<string>)
    requires DistinctIds(unseen)
    ensures var b := Candidates(Reversed(Take(unseen, REPLAY_MAX)), mxid, allowed);
            forall i, j :: 0 <= i < j < |b| ==> Id(b[i]) != Id(b[j])
  {
    hide Candidates, Carriable, CarriedOf;
    var window := Reversed(Take(unseen, REPLAY_MAX));
    var from := CandidatesComeInOrder(window, mxid, allowed);
    var b := Candidates(window, mxid, allowed);
    forall i, j | 0 <= i < j < |b| ensures Id(b[i]) != Id(b[j]) {
      assert b[i].event == window[from[i]] && b[j].event == window[from[j]];
    }
  }

  /** What a pass delivers after event `u` is acknowledged, the pass before would have delivered too,
      exactly when no candidate passed over is an edit of the same event with a later time stamp, or,
      of a plain event, an edit at all. */
  lemma LaterPassAgreesExactlyWhen(decoded: seq<ReadEvent>, watermark: Option<string>, u: nat, mxid: string, allowed: seq<string>, c: Candidate)
    requires u < |Unseen(decoded, watermark).0| && u < REPLAY_MAX && DistinctIds(Unseen(decoded, watermark).0)
    requires c in Deliverable(decoded, Unseen(decoded, watermark).0[u].eventId, mxid, allowed) && Id(c).Some?
    ensures var older := OlderCandidates(Unseen(decoded, watermark).0, u, mxid, allowed);
            c in Deliverable(decoded, watermark, mxid, allowed) <==>
              forall j :: 0 <= j < |older| ==>
                if Target(c).Some? then EditOf(older[j], Target(c).value) ==> Ts(older[j]) <= Ts(c)
                else !EditOf(older[j], Id(c).value)
  {
    hide Unseen, Candidates, OlderCandidates, Keeps, KeptOf, EditOf, Ts, Target;
    var unseen := Unseen(decoded, watermark).0;
    AcknowledgingCutsThere(decoded, watermark, u);
    CandidatesSplit(unseen, u, mxid, allowed);
    DistinctCandidates(unseen, mxid, allowed);
    var pre, suf := OlderCandidates(unseen, u, mxid, allowed), Candidates(Reversed(Take(unseen[..u], REPLAY_MAX)), mxid, allowed);
    var here := KeptIsSubsequence(suf, suf);
    SurvivorIsKept(suf, c, here);
    var k :| 0 <= k < |suf| && suf[k] == c;
    NewerPartAgreesExactlyWhen(pre, suf, k);
    var before := KeptIsSubsequence(pre + suf, pre + suf);
    SuffixAt(pre, suf, |pre| + k);
    if Keeps(pre + suf, c) {
      KeptSurvives(pre + suf, c, before);
    }
    if c in Survivors(pre + suf) {
      SurvivorIsKept(pre + suf, c, before);
    }
  }

  lemma EditAtIsCarried(t: Tables, id: string, sender: string, ts: nat, mxid: string, roomId: string)
    requires sender != mxid && ts < 0x1_0000_0000_0000_0000
    ensures var e := EditAt(t, id, sender, ts);
            && e.eventId == Some(id) && Carriable(e, mxid, [sender]) && CarriedOf(e) == Some(Message)
            && Target(Candidate(e, Message)) == Some("$o") && Ts(Candidate(e, Message)) == ts
            && PushText(t, roomId, Candidate(e, Message)).Some?
  {
    hide EditAt, Classify, CarriedOf, ReplacesOf, RawBody, NewContentBody;
    EditAtFields(t, id, sender, ts);
    EditAtIsAMessage(t, id, sender, ts);
    EmptyIsNoVerdict();
  }

  lemma OneIsPushed(t: Tables, roomId: string, c: Candidate, reach: nat -> nat)
    requires PushText(t, roomId, c).Some? && reach(0) > 0
    ensures Delivered(Pushes(t, roomId, [c], reach, 0)) == [c]
  {
    hide PushText, CappedWrapped;
    PushesFrom(t, roomId, [c], 0, reach, 0);
    NothingToPush(t, roomId, [c][1..], reach, 1);
    var sent := Sent(Push(c, CappedWrapped(PushText(t, roomId, c).value)), reach(0));
    assert [c][0..] == [c] && [sent] + [] == [sent] && [] + [sent] == [sent];
    DeliveredSnoc([], sent);
  }

  /** A room with one deliverable event, and no more unseen than fit the window, delivers it. */
  lemma OneIsDelivered(t: Tables, room: Room, mxid: string, allowed: seq<string>, budget: nat, reach: nat -> nat, c: Candidate)
    requires room.History? && Deliverable(room.decoded, room.watermark, mxid, allowed) == [c]
    requires |Unseen(room.decoded, room.watermark).0| <= REPLAY_MAX
    requires PushText(t, room.id, c).Some? && reach(0) > 0 && budget > 0
    ensures Delivered(RoomLog(t, room, mxid, allowed, budget, reach, 0)) == [c]
  {
    hide PushText, CappedWrapped, Pushes, Delivered, Deliverable, Unseen;
    OneIsPushed(t, room.id, c, reach);
  }

  lemma LaterStampSurvives(a: Candidate, b: Candidate)
    requires Id(a).Some? && Id(b).Some? && Id(a) != Id(b) && Target(a).Some? && Target(a) == Target(b) && Ts(a) > Ts(b)
    ensures Survivors([a, b]) == [a]
  {
    hide Keeps, KeptOf;
    var both := [a, b];
    ExactlyTheNewestEditSurvives(both, Target(a).value, 0);
    ExactlyTheNewestEditSurvives(both, Target(a).value, 1);
    assert IsNewestEdit(both, Target(a).value, 0) && !IsNewestEdit(both, Target(a).value, 1) by {
      assert EditOf(both[0], Target(a).value) && EditOf(both[1], Target(a).value);
    }
    assert both == [a] + [b] && [a] == [] + [a];
    KeptOfSnoc(both, [a], b);
    KeptOfSnoc(both, [], a);
    KeptOfNothing(both);
  }

  lemma UnseenOfTwo(newer: ReadEvent, older: ReadEvent)
    requires newer.eventId.Some? && older.eventId.Some? && newer.eventId != older.eventId
    ensures Unseen([newer, older], None) == ([newer, older], false)
    ensures Unseen([newer, older], older.eventId) == ([newer], true)
  {
    hide Unseen;
    var page := [newer, older];
    assert page[0..] == page;
    NothingUnseen(page[2..], None);
    UnseenFrom(page, 1, None);
    UnseenFrom(page, 0, None);
    UnseenFrom(page, 1, older.eventId);
    UnseenFrom(page, 0, older.eventId);
    assert [newer] + ([older] + []) == page && [newer] + [] == [newer];
  }

  lemma TwoEditsOneSurvives(newer: ReadEvent, older: ReadEvent, mxid: string, allowed: seq<string>)
    requires newer.eventId.Some? && older.eventId.Some? && newer.eventId != older.eventId
    requires Carriable(newer, mxid, allowed) && CarriedOf(newer) == Some(Message)
    requires Carriable(older, mxid, allowed) && CarriedOf(older) == Some(Message)
    requires var (a, b) := (Candidate(older, Message), Candidate(newer, Message));
             Target(a).Some? && Target(a) == Target(b) && Ts(a) > Ts(b)
    ensures Deliverable([newer, older], None, mxid, allowed) == [Candidate(older, Message)]
    ensures Deliverable([newer, older], older.eventId, mxid, allowed) == [Candidate(newer, Message)]
  {
    hide Carriable, CarriedOf, Survivors, Target, Ts, Unseen, Candidates;
    var first, second := Candidate(older, Message), Candidate(newer, Message);
    UnseenOfTwo(newer, older);
    assert Window([newer, older], None) == [older] + [newer];
    assert Window([newer, older], older.eventId) == [newer];
    CandidatesConcat([older], [newer], mxid, allowed);
    OneCandidate(older, mxid, allowed);
    OneCandidate(newer, mxid, allowed);
    assert [first] + [second] == [first, second];
    LaterStampSurvives(first, second);
    OneEditSurvives(second);
  }

  /** Where time stamps decrease along the timeline, a superseded edit returns: of two edits of one
      event, the older in the room with the later time stamp, the first pass delivers that one, and
      once it is acknowledged the second delivers the other. */
  lemma SupersededEditReturns(t: Tables, mxid: string, sender: string, roomId: string, budget: nat, reach: nat -> nat)
    requires sender != mxid && budget > 0 && reach(0) > 0
    ensures var (newer, older) := (EditAt(t, "$2", sender, 1), EditAt(t, "$1", sender, 2));
            var page := [newer, older];
            && Delivered(RoomLog(t, History(roomId, page, None), mxid, [sender], budget, reach, 0)) == [Candidate(older, Message)]
            && older.eventId == Some("$1")
            && Delivered(RoomLog(t, History(roomId, page, Some("$1")), mxid, [sender], budget, reach, 0)) == [Candidate(newer, Message)]
  {
    hide EditAt, Carriable, CarriedOf, PushText, Deliverable, Target, Ts, RoomLog, Delivered, Unseen;
    var newer, older := EditAt(t, "$2", sender, 1), EditAt(t, "$1", sender, 2);
    assert "$1"[1] != "$2"[1];
    EditAtIsCarried(t, "$2", sender, 1, mxid, roomId);
    EditAtIsCarried(t, "$1", sender, 2, mxid, roomId);
    UnseenOfTwo(newer, older);
    TwoEditsOneSurvives(newer, older, mxid, [sender]);
    OneIsDelivered(t, History(roomId, [newer, older], None), mxid, [sender], budget, reach, Candidate(older, Message));
    OneIsDelivered(t, History(roomId, [newer, older], Some("$1")), mxid, [sender], budget, reach, Candidate(newer, Message));
  }

  /** A message without text. */
  function EmptyMessage(t: Tables, id: string, sender: string): ReadEvent {
    Decoded(t, JObj(map[
      "event_id" := JStr(id),
      "sender" := JStr(sender),
      "content" := JObj(map["msgtype" := JStr("m.text"), "body" := JStr("")])]), true)
  }

  lemma EmptyMessageIsCarried(t: Tables, id: string, sender: string, mxid: string, allowed: seq<string>)
    requires sender != mxid && sender in allowed
    ensures var e := EmptyMessage(t, id, sender);
            && e.eventId == Some(id) && Carriable(e, mxid, allowed) && CarriedOf(e) == Some(Message)
            && ReplacesOf(e) == None
  {
    hide WrapBody, Classify;
    EmptyIsNoVerdict();
  }

  lemma {:induction false} NoEditsNoNewest(b: seq<Candidate>)
    requires forall c :: c in b ==> Target(c).None?
    ensures Survivors(b) == b
  {
    forall target ensures Newest(b, target).None? {
      var i := NewestIsMax(b, target);
      forall j | 0 <= j < |b| ensures !EditOf(b[j], target) {
        assert b[j] in b;
      }
    }
    NothingSuperseded(b, b);
  }

  /** Where ids repeat, events are lost: of a page whose oldest and newest messages share an id, the
      oldest alone is delivered, and acknowledging it leaves the middle one neither delivered nor
      unseen. */
  lemma RepeatedIdLosesAnEvent(t: Tables, mxid: string, sender: string, roomId: string, reach: nat -> nat)
    requires sender != mxid && reach(0) > 0
    ensures var (first, second) := (EmptyMessage(t, "$a", sender), EmptyMessage(t, "$b", sender));
            var room := History(roomId, [first, second, first], None);
            && Deliverable(room.decoded, None, mxid, [sender]) == [Candidate(first, Message), Candidate(second, Message), Candidate(first, Message)]
            && Delivered(RoomLog(t, room, mxid, [sender], 1, reach, 0)) == [Candidate(first, Message)]
            && first.eventId == Some("$a") && Unseen(room.decoded, Some("$a")) == ([], true)
            && first != second
  {
    hide Carriable, CarriedOf, EmptyMessage, PushText, CappedWrapped, Survivors;
    var first, second := EmptyMessage(t, "$a", sender), EmptyMessage(t, "$b", sender);
    EmptyMessageIsCarried(t, "$a", sender, mxid, [sender]);
    EmptyMessageIsCarried(t, "$b", sender, mxid, [sender]);
    assert "$a"[1] != "$b"[1];
    var page := [first, second, first];
    UnseenOfThree(first, second);
    assert Window(page, None) == page;
    var c := [Candidate(first, Message), Candidate(second, Message), Candidate(first, Message)];
    CandidatesOfThree(first, second, mxid, [sender]);
    NoEditsNoNewest(c);
    EmptyMessageHasText(t, "$a", sender, roomId);
    FirstOfThreeIsPushed(t, roomId, c, reach);
  }

  lemma UnseenOfThree(first: ReadEvent, second: ReadEvent)
    requires first.eventId.Some? && second.eventId.Some?
    ensures Unseen([first, second, first], None) == ([first, second, first], false)
    ensures Unseen([first, second, first], first.eventId) == ([], true)
  {
    hide Unseen;
    var page := [first, second, first];
    assert page[0..] == page;
    NothingUnseen(page[3..], None);
    UnseenFrom(page, 2, None);
    UnseenFrom(page, 1, None);
    UnseenFrom(page, 0, None);
    UnseenFrom(page, 0, first.eventId);
    assert [second] + ([first] + []) == [second, first];
    assert [first] + [second, first] == page;
  }

  lemma CandidatesOfThree(first: ReadEvent, second: ReadEvent, mxid: string, allowed: seq<string>)
    requires Carriable(first, mxid, allowed) && Carriable(second, mxid, allowed)
    requires CarriedOf(first) == Some(Message) && CarriedOf(second) == Some(Message)
    ensures Candidates([first, second, first], mxid, allowed) == [Candidate(first, Message), Candidate(second, Message), Candidate(first, Message)]
  {
    hide Carriable, CarriedOf;
    assert [first, second, first] == [first] + ([second] + [first]);
    CandidatesConcat([first], [second] + [first], mxid, allowed);
    CandidatesConcat([second], [first], mxid, allowed);
    OneCandidate(first, mxid, allowed);
    OneCandidate(second, mxid, allowed);
  }

  lemma OneCandidate(e: ReadEvent, mxid: string, allowed: seq<string>)
    requires Carriable(e, mxid, allowed) && CarriedOf(e).Some?
    ensures Candidates([e], mxid, allowed) == [Candidate(e, CarriedOf(e).value)]
  {
    hide Carriable, CarriedOf;
    assert Candidates([e][1..], mxid, allowed) == [];
  }

  lemma EmptyMessageHasText(t: Tables, id: string, sender: string, room: string)
    ensures PushText(t, room, Candidate(EmptyMessage(t, id, sender), Message)).Some?
  {
    hide WrapBody;
  }

  lemma FirstOfThreeIsPushed(t: Tables, room: string, c: seq<Candidate>, reach: nat -> nat)
    requires |c| == 3 && PushText(t, room, c[0]).Some? && reach(0) > 0
    ensures Delivered(Pushes(t, room, Take(c, 1), reach, 0)) == [c[0]]
  {
    hide PushText, CappedWrapped;
    var d := Take(c, 1);
    assert d == [c[0]] && d[0..] == d;
    PushesFrom(t, room, d, 0, reach, 0);
    NothingToPush(t, room, d[1..], reach, 1);
    var sent := Sent(Push(c[0], CappedWrapped(PushText(t, room, c[0]).value)), reach(0));
    assert [] + [sent] == [sent];
    DeliveredSnoc([], sent);
  }

  /** Every event a room delivers is from an allowlisted sender other than the identity itself, has a
      body that is no permission verdict, and stands in the room's page with an id. */
  lemma DeliveredEventsPassTheGate(t: Tables, room: Room, mxid: string, allowed: seq<string>, budget: nat, reach: nat -> nat, calls: nat, c: Candidate)
    requires room.History? && AllDecoded(t, room.decoded)
    requires c in Delivered(RoomLog(t, room, mxid, allowed, budget, reach, calls))
    ensures c.event in room.decoded && c.event.eventId.Some?
    ensures c.event.sender.Some? && c.event.sender.value != mxid && c.event.sender.value in allowed
    ensures !IsReplayedVerdict(c.event) && CarriedOf(c.event) == Some(c.carried)
  {
    hide RoomLog, Deliverable, Delivered, CarriedOf, IsReplayedVerdict, AllDecoded;
    var m := RoomDeliversAPrefix(t, room, mxid, allowed, budget, reach, calls);
    var at := DeliverableComesInOrder(room.decoded, room.watermark, mxid, allowed);
    UnseenAreDecoded(room.decoded, room.watermark);
    var full := Deliverable(room.decoded, room.watermark, mxid, allowed);
    var i :| 0 <= i < m && full[i] == c;
    assert Unseen(room.decoded, room.watermark).0[at[i]] == c.event;
  }

  /** What a delivered event says is a permission verdict exactly when the event is an edit whose new
      content is one: the gate judges an edit by its fallback. Nothing else delivered is a verdict. */
  lemma DeliveredVerdictsAreEdits(t: Tables, room: Room, mxid: string, allowed: seq<string>, budget: nat, reach: nat -> nat, calls: nat, c: Candidate)
    requires room.History? && AllDecoded(t, room.decoded)
    requires c in Delivered(RoomLog(t, room, mxid, allowed, budget, reach, calls))
    ensures exists r :: PushText(t, room.id, c) == Some(WrapBody(t, r, c.event.sender, c.event.eventId, DeliveredText(c.carried, c.event)))
    ensures Classify(true, DeliveredText(c.carried, c.event)).Verdict?
       <==> ReplacesOf(c.event).Some? && NewContentBody(c.event).Some? && Classify(true, NewContentBody(c.event).value).Verdict?
  {
    hide RoomLog, Deliverable, Delivered, CarriedOf, IsReplayedVerdict, AllDecoded, DeliveredText, PushText, WrapBody, Classify;
    DeliveredEventsPassTheGate(t, room, mxid, allowed, budget, reach, calls, c);
    var m := RoomDeliversAPrefix(t, room, mxid, allowed, budget, reach, calls);
    DeliverableHasBodies(t, room.decoded, room.watermark, mxid, allowed, room.id);
    assert HasWrappedBody(t, room.id, c);
    var r :| PushText(t, room.id, c).value == WrapBody(t, r, c.event.sender, c.event.eventId, DeliveredText(c.carried, c.event));
    assert PushText(t, room.id, c) == Some(WrapBody(t, r, c.event.sender, c.event.eventId, DeliveredText(c.carried, c.event)));
    DeliveredTextIsAVerdictExactlyWhen(c.carried, c.event);
  }

  /** And such edits are delivered: a room whose one event edits some message into a verdict. */
  lemma EditedVerdictGoesOut(t: Tables, mxid: string, sender: string, verdict: string, roomId: string, budget: nat, reach: nat -> nat)
    requires sender != mxid && budget > 0 && reach(0) > 0 && Classify(true, verdict).Verdict?
    ensures var e := EditedIntoVerdict(t, sender, verdict);
            && Delivered(RoomLog(t, History(roomId, [e], None), mxid, [sender], budget, reach, 0)) == [Candidate(e, Message)]
            && DeliveredText(Message, e) == verdict
  {
    hide EditedIntoVerdict, CarriedOf, IsReplayedVerdict, PushText, CappedWrapped, DeliveredText, Classify, Survivors, Target;
    var e := EditedIntoVerdict(t, sender, verdict);
    var c := Candidate(e, Message);
    EditedVerdictIsDelivered(t, sender, verdict);
    assert [e][0..] == [e] && [e][1..] == [];
    UnseenFrom([e], 0, None);
    NothingUnseen([e][1..], None);
    assert Window([e], None) == [e];
    OneCandidate(e, mxid, [sender]);
    EditedVerdictHasText(t, sender, verdict, roomId);
    OneEditSurvives(c);
    OneIsDelivered(t, History(roomId, [e], None), mxid, [sender], budget, reach, c);
  }

  lemma OneEditSurvives(c: Candidate)
    requires Id(c).Some? && Target(c).Some?
    ensures Survivors([c]) == [c]
  {
    assert [c][..0] == [];
    assert Newest([c], Target(c).value) == Some((Ts(c), Id(c).value));
    assert Keeps([c], c);
    KeptOfSnoc([c], [], c);
    KeptOfNothing([c]);
    assert [] + [c] == [c];
  }

  lemma EditedVerdictHasText(t: Tables, sender: string, verdict: string, room: string)
    ensures PushText(t, room, Candidate(EditedIntoVerdict(t, sender, verdict), Message)).Some?
    ensures Id(Candidate(EditedIntoVerdict(t, sender, verdict), Message)).Some?
    ensures Target(Candidate(EditedIntoVerdict(t, sender, verdict), Message)).Some?
  {
    hide WrapBody;
  }

  lemma {:induction false} PushesCarryCappedBodies(t: Tables, room: string, d: seq<Candidate>, reach: nat -> nat, calls: nat, n: nat)
    requires n < |Pushes(t, room, d, reach, calls)|
    ensures var s := Pushes(t, room, d, reach, calls)[n];
            && s.note.Push? && s.note.candidate in d
            && var body := PushText(t, room, s.note.candidate);
               body.Some? && s.note.content == CappedWrapped(body.value)
  {
    hide PushText, CappedWrapped;
    var body := PushText(t, room, d[0]);
    if body.None? {
      PushesCarryCappedBodies(t, room, d[1..], reach, calls, n);
    } else if n > 0 {
      PushesCarryCappedBodies(t, room, d[1..], reach, calls + 1, n - 1);
    }
  }

  /** Whatever a sender wrote, every text replay pushes ends with the closing delimiter, holds it
      nowhere else, and has a fixed size bound. */
  lemma EveryPushIsClosed(t: Tables, room: Room, mxid: string, allowed: seq<string>, budget: nat, reach: nat -> nat, calls: nat, n: nat, i: int)
    requires room.History? && AllDecoded(t, room.decoded) && WRAPPER_END == "\n" + FullCloser(t)
    requires n < |RoomLog(t, room, mxid, allowed, budget, reach, calls)|
    requires RoomLog(t, room, mxid, allowed, budget, reach, calls)[n].note.Push?
    ensures var text := RoomLog(t, room, mxid, allowed, budget, reach, calls)[n].note.content;
            && (MatchesAt(text, i, FullCloser(t)) <==> i == |text| - |FullCloser(t)|)
            && Size(text) <= 4096 + Size(TRUNCATED_NOTE + WRAPPER_END)
  {
    hide PushText, Pushes, Deliverable, Unseen, WrapBody, CappedWrapped, AllDecoded, Size, MatchesAt, FullCloser;
    var full := Deliverable(room.decoded, room.watermark, mxid, allowed);
    var d := Take(full, budget);
    var log := RoomLog(t, room, mxid, allowed, budget, reach, calls);
    DeliverableHasBodies(t, room.decoded, room.watermark, mxid, allowed, room.id);
    var (unseen, reached) := Unseen(room.decoded, room.watermark);
    if !reached && |unseen| > REPLAY_MAX {
      PushesCarryCappedBodies(t, room.id, d, reach, calls + 1, n - 1);
    } else {
      PushesCarryCappedBodies(t, room.id, d, reach, calls, n);
    }
    var c := log[n].note.candidate;
    var k :| 0 <= k < |d| && d[k] == c;
    assert full[k] == c && HasWrappedBody(t, room.id, c);
    var r :| PushText(t, room.id, c).value == WrapBody(t, r, c.event.sender, c.event.eventId, DeliveredText(c.carried, c.event));
    CappedWrapperStaysClosed(t, r, c.event.sender, c.event.eventId, DeliveredText(c.carried, c.event), i);
  }
}
