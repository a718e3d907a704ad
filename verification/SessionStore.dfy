/** The file-backed session store of src/session_store.rs, on a disk whose steps may fail and
    between whose steps the process may die. */
module SessionStore {
  import opened Options
  import opened Sets

  /** File names. Session ids are hashed into file names; the hash is injective, so the id stands
      for its digest. */
  datatype Name = Json(id: string) | JsonTmp(id: string)

  /** A file's content: one whole session state, or the beginning of one. */
  datatype Data = Whole(state: string) | Torn

  datatype File = File(data: Data, mtime: int)

  /** What becomes of one file step: done, refused with nothing changed, or never reached. */
  datatype Fate = Succeeds | Fails | ProcessDies

  /** What the file system does during one operation: the fate of each step that changes it, whether
      the directory can be listed and files read, whether the existence check gets an answer, which
      files' metadata can be read, and which directory entries the listing fails to yield. */
  datatype Outside = Outside(
    fate: nat -> Fate, listable: bool, readable: bool, existsAnswers: bool,
    statable: Name -> bool, skipped: Name -> bool)

  datatype Outcome =
    | Stored | CapReached | Deleted | Loaded(state: Option<string>) | Swept | Restarted | IoError | Crashed

  /** A state as last renamed into place, and when it was written. */
  datatype Stamped = Stamped(state: string, at: int)

  /** Seven days, in nanoseconds; the cap; and how often a store sweeps unasked. */
  const SESSION_STATE_TTL: int := 7 * 24 * 60 * 60 * 1_000_000_000
  const MAX_PERSISTED_SESSIONS: nat := 4096
  const SWEEP_EVERY_N_WRITES: nat := 64

  predicate IsExpired(mtime: int, now: int) {
    now - mtime > SESSION_STATE_TTL
  }

  /** A map with expiry: what a lookup at `now` finds. */
  function Unexpired(m: map<string, Stamped>, id: string, now: int): Option<string> {
    if id in m && !IsExpired(m[id].at, now) then Some(m[id].state) else None
  }

  /** Every session file is whole and is the committed state; a committed state without a file has
      expired. */
  ghost predicate Reflects(disk: map<Name, File>, committed: map<string, Stamped>, clock: int) {
    && (forall id :: Json(id) in disk ==>
          id in committed && disk[Json(id)] == File(Whole(committed[id].state), committed[id].at))
    && (forall id :: id in committed && Json(id) !in disk ==> IsExpired(committed[id].at, clock))
  }

  /** What a sweep may do: remove expired files, and nothing else. */
  ghost predicate SweptOf(disk: map<Name, File>, before: map<Name, File>, now: int) {
    && (forall n :: n in disk ==> n in before && disk[n] == before[n])
    && (forall n :: n in before && n !in disk ==> IsExpired(before[n].mtime, now))
  }

  lemma NothingSwept(disk: map<Name, File>, now: int)
    ensures SweptOf(disk, disk, now)
  {
  }

  lemma SweepingReflects(disk: map<Name, File>, before: map<Name, File>, committed: map<string, Stamped>, clock: int, now: int)
    requires Reflects(before, committed, clock) && clock <= now && SweptOf(disk, before, now)
    ensures Reflects(disk, committed, now)
  {
  }

  lemma RemovingExpired(disk: map<Name, File>, before: map<Name, File>, now: int, n: Name)
    requires SweptOf(disk, before, now) && n in disk && IsExpired(disk[n].mtime, now)
    ensures SweptOf(disk - {n}, before, now)
  {
  }

  /** Every file step works. */
  ghost predicate AllSucceed(fate: nat -> Fate) {
    forall k :: fate(k) == Succeeds
  }

  /** `is_expired`: a file whose metadata cannot be read counts as fresh. */
  predicate SeenExpired(out: Outside, n: Name, f: File, now: int) {
    out.statable(n) && IsExpired(f.mtime, now)
  }

  /** The files a listing yields. */
  function Yielded(names: set<Name>, out: Outside): set<Name> {
    set n | n in names && !out.skipped(n)
  }

  /** `live` files counted so far, `left` still to look at. */
  ghost predicate Counted(disk: map<Name, File>, left: set<Name>, out: Outside, live: nat) {
    left <= disk.Keys && live == |Yielded(disk.Keys - left, out)|
  }

  lemma CountOne(disk: map<Name, File>, left: set<Name>, out: Outside, live: nat, n: Name)
    requires Counted(disk, left, out, live) && n in left
    ensures Counted(disk, left - {n}, out, if out.skipped(n) then live else live + 1)
  {
    var done := Yielded(disk.Keys - left, out);
    assert Yielded(disk.Keys - (left - {n}), out) == if out.skipped(n) then done else done + {n};
  }

  lemma RemoveOne(disk: map<Name, File>, left: set<Name>, out: Outside, live: nat, n: Name)
    requires Counted(disk, left, out, live) && n in left
    ensures Counted(disk - {n}, left - {n}, out, live)
  {
    assert (disk - {n}).Keys - (left - {n}) == disk.Keys - left;
  }

  lemma CountedAll(disk: map<Name, File>, out: Outside, live: nat)
    requires Counted(disk, {}, out, live)
    ensures live == |Yielded(disk.Keys, out)|
  {
    assert disk.Keys - {} == disk.Keys;
  }

  lemma CountedNone(disk: map<Name, File>, out: Outside)
    ensures Counted(disk, disk.Keys, out, 0)
  {
    assert Yielded(disk.Keys - disk.Keys, out) == {};
  }

  // ---- What the operations do when every step that changes a file works ----------------

  /** What a sweep leaves. */
  function Kept(disk: map<Name, File>, out: Outside, now: int): map<Name, File> {
    if out.listable then map n | n in disk && !(!out.skipped(n) && SeenExpired(out, n, disk[n], now)) :: disk[n]
    else disk
  }

  /** What a sweep counts. */
  function CountOf(kept: map<Name, File>, out: Outside): nat {
    if out.listable then |Yielded(kept.Keys, out)| else 0
  }

  /** The existence check says no. */
  predicate TakenForNew(disk: map<Name, File>, id: string, out: Outside) {
    Json(id) !in disk || !out.existsAnswers
  }

  function StoreKept(disk: map<Name, File>, writes: nat, id: string, out: Outside, now: int): map<Name, File> {
    if writes % SWEEP_EVERY_N_WRITES == 0 || TakenForNew(disk, id, out) then Kept(disk, out, now) else disk
  }

  function StoreSpec(disk: map<Name, File>, writes: nat, id: string, state: string, out: Outside, now: int): (map<Name, File>, Outcome) {
    var kept := StoreKept(disk, writes, id, out, now);
    if TakenForNew(disk, id, out) && CountOf(kept, out) >= MAX_PERSISTED_SESSIONS then (kept, CapReached)
    else ((kept - {JsonTmp(id)})[Json(id) := File(Whole(state), now)], Stored)
  }

  function LoadSpec(disk: map<Name, File>, id: string, out: Outside, now: int): (map<Name, File>, Outcome) {
    var name := Json(id);
    if name !in disk then (disk, Loaded(None))
    else if !out.readable then (disk, IoError)
    else if SeenExpired(out, name, disk[name], now) || disk[name].data == Torn then (disk - {name}, Loaded(None))
    else (disk, Loaded(Some(disk[name].data.state)))
  }

  function JsonFiles(disk: map<Name, File>): set<Name> {
    set n | n in disk && n.Json?
  }

  datatype Op =
    | StoreOp(id: string, state: string, now: int)
    | LoadOp(id: string, now: int)
    | DeleteOp(id: string, now: int)
    | SweepOp(now: int)
    | RestartOp(now: int)

  function Now(op: Op): int { op.now }

  /** What an operation does. */
  function OpSpec(op: Op, disk: map<Name, File>, writes: nat, out: Outside): (map<Name, File>, Outcome) {
    match op
    case StoreOp(id, state, now) => StoreSpec(disk, writes, id, state, out, now)
    case LoadOp(id, now) => LoadSpec(disk, id, out, now)
    case DeleteOp(id, _) => (disk - {Json(id)}, Deleted)
    case SweepOp(now) => (Kept(disk, out, now), Swept)
    case RestartOp(_) => (disk, Restarted)
  }

  // ---- What the operations do whatever fails --------------------------------------------

  ghost predicate SomeStepDies(fate: nat -> Fate) {
    exists k :: fate(k) == ProcessDies
  }

  ghost predicate SomeStepFails(fate: nat -> Fate) {
    exists k :: fate(k) == Fails
  }

  /** A crash has a step at which the process died, and an error a step that failed or an excuse. */
  ghost predicate Explained(fate: nat -> Fate, outcome: Outcome, excuse: bool) {
    && (outcome == Crashed ==> SomeStepDies(fate))
    && (outcome == IoError ==> SomeStepFails(fate) || excuse)
  }

  /** Of the session files, all but the touched one are as before, or were expired and are gone. */
  ghost predicate FilesStep(disk: map<Name, File>, next: map<Name, File>, now: int, touched: Option<string>) {
    forall n: Name :: n.Json? && touched != Some(n.id) ==>
      && (n in next ==> n in disk && next[n] == disk[n])
      && (n in disk && n !in next ==> IsExpired(disk[n].mtime, now))
  }

  lemma SweptFilesStep(disk: map<Name, File>, before: map<Name, File>, now: int)
    requires SweptOf(disk, before, now)
    ensures FilesStep(before, disk, now, None)
  {
  }

  lemma FilesStepsCompose(a: map<Name, File>, b: map<Name, File>, c: map<Name, File>, now: int, touched: Option<string>)
    requires FilesStep(a, b, now, None) && FilesStep(b, c, now, touched)
    ensures FilesStep(a, c, now, touched)
  {
  }

  lemma NothingChanges(disk: map<Name, File>, now: int)
    ensures FilesStep(disk, disk, now, None)
  {
  }

  /** A temporary file is no session file. */
  lemma TmpIsNoSession(disk: map<Name, File>, committed: map<string, Stamped>, now: int, id: string, f: File)
    requires Reflects(disk, committed, now)
    ensures var next := disk[JsonTmp(id) := f];
            Reflects(next, committed, now) && FilesStep(disk, next, now, None) && JsonFiles(next) == JsonFiles(disk)
  {
  }

  /** The rename puts exactly the new state in place. */
  lemma RenameStores(disk: map<Name, File>, committed: map<string, Stamped>, now: int, id: string, state: string)
    requires Reflects(disk, committed, now)
    ensures var next := (disk - {JsonTmp(id)})[Json(id) := File(Whole(state), now)];
            && Reflects(next, committed[id := Stamped(state, now)], now)
            && FilesStep(disk, next, now, Some(id)) && JsonFiles(next) == JsonFiles(disk) + {Json(id)}
  {
  }

  /** A store that counts sees every file there is. */
  ghost predicate CountsAll(disk: map<Name, File>, out: Outside) {
    out.listable && forall n :: n in disk ==> !out.skipped(n)
  }

  /** The age of this session's file can be read, or does not matter. */
  predicate AgeIsKnown(disk: map<Name, File>, id: string, out: Outside, now: int) {
    Json(id) in disk && IsExpired(disk[Json(id)].mtime, now) ==> out.statable(Json(id))
  }

  lemma SweptFits(disk: map<Name, File>, before: map<Name, File>, now: int)
    requires SweptOf(disk, before, now)
    ensures |JsonFiles(disk)| <= |JsonFiles(before)|
  {
    SubsetSize(JsonFiles(disk), JsonFiles(before));
  }

  /** Where every file is counted, a session accepted as new finds room. */
  lemma StoringFits(before: map<Name, File>, disk: map<Name, File>, id: string, out: Outside, now: int)
    requires SweptOf(disk, before, now)
    ensures Json(id) in before ==> |JsonFiles(disk) + {Json(id)}| <= |JsonFiles(before)|
    ensures CountsAll(before, out) && CountOf(disk, out) < MAX_PERSISTED_SESSIONS ==>
              |JsonFiles(disk) + {Json(id)}| <= MAX_PERSISTED_SESSIONS
  {
    if Json(id) in before {
      SubsetSize(JsonFiles(disk) + {Json(id)}, JsonFiles(before));
    }
    if CountsAll(before, out) {
      SubsetSize(JsonFiles(disk), Yielded(disk.Keys, out));
    }
  }

  class FileSessionStore {
    var disk: map<Name, File>
    var writes: nat
    /** The states renamed into place and not deleted since. */
    ghost var committed: map<string, Stamped>
    /** The latest clock reading so far. */
    ghost var clock: int

    ghost predicate Valid()
      reads this
    {
      Reflects(disk, committed, clock)
    }

    ghost predicate WithinCap()
      reads this
    {
      |JsonFiles(disk)| <= MAX_PERSISTED_SESSIONS
    }

    constructor (ghost now: int)
      ensures Valid() && WithinCap() && committed == map[] && clock == now && disk == map[] && writes == 0
    {
      disk, writes, committed, clock := map[], 0, map[], now;
    }

    /** `sweep`: remove what has expired, count what stays. */
    method Sweep(now: int, out: Outside) returns (live: nat, steps: nat, died: bool)
      requires Valid() && now >= clock
      modifies this`disk, this`clock, this`writes
      ensures Valid() && clock == now && writes == if died then 0 else old(writes)
      ensures SweptOf(disk, old(disk), now)
      ensures !died ==> live == CountOf(disk, out)
      ensures died ==> SomeStepDies(out.fate)
      ensures AllSucceed(out.fate) ==> !died && disk == Kept(old(disk), out, now)
    {
      hide IsExpired, SweptOf, Reflects, Counted;
      NothingSwept(disk, now);
      CountedNone(disk, out);
      clock := now;
      live, steps, died := 0, 0, false;
      if !out.listable {
        SweepingReflects(disk, old(disk), committed, old(clock), now);
        return;
      }
      var left := disk.Keys;
      while left != {}
        invariant SweptOf(disk, old(disk), now) && Counted(disk, left, out, live)
        invariant clock == now && writes == old(writes) && left <= old(disk).Keys
        invariant forall n :: n in left ==> n in disk
        invariant forall n :: n in disk ==> n in old(disk) && disk[n] == old(disk)[n]
        invariant AllSucceed(out.fate) ==>
                    forall n :: n in old(disk) && n !in left ==> (n in disk <==> out.skipped(n) || !SeenExpired(out, n, old(disk)[n], now))
        decreases left
      {
        var n :| n in left;
        if !out.skipped(n) && SeenExpired(out, n, disk[n], now) {
          var f := out.fate(steps);
          steps := steps + 1;
          if f == ProcessDies {
            SweepingReflects(disk, old(disk), committed, old(clock), now);
            died, writes := true, 0;
            return;
          }
          if f == Succeeds {
            RemovingExpired(disk, old(disk), now, n);
            RemoveOne(disk, left, out, live, n);
            disk, left := disk - {n}, left - {n};
            continue;
          }
        }
        CountOne(disk, left, out, live, n);
        live := if out.skipped(n) then live else live + 1;
        left := left - {n};
      }
      CountedAll(disk, out, live);
      SweepingReflects(disk, old(disk), committed, old(clock), now);
    }

    /** `store`: refuse a new session when the cap is reached, else write a temporary file and rename
        it over the session's. */
    method Store(id: string, state: string, now: int, out: Outside) returns (outcome: Outcome)
      requires Valid() && now >= clock
      modifies this
      ensures Valid() && clock == now
      ensures outcome in {Stored, CapReached, IoError, Crashed}
      ensures committed == if outcome == Stored then old(committed)[id := Stamped(state, now)] else old(committed)
      ensures outcome == CapReached ==> TakenForNew(old(disk), id, out) && CountOf(disk, out) >= MAX_PERSISTED_SESSIONS
      ensures old(WithinCap()) && (Json(id) in old(disk) || CountsAll(old(disk), out)) ==> WithinCap()
      ensures AllSucceed(out.fate) ==> (disk, outcome) == StoreSpec(old(disk), old(writes), id, state, out, now)
      ensures writes == (if outcome == Crashed then 0 else old(writes) + 1) && Explained(out.fate, outcome, false)
      ensures FilesStep(old(disk), disk, now, if outcome == Stored then Some(id) else None)
      ensures outcome == Stored ==> Json(id) in disk && disk[Json(id)] == File(Whole(state), now)
    {
      hide SweptOf, Reflects, Kept, CountOf, CountsAll, JsonFiles, FilesStep, SomeStepDies, SomeStepFails;
      clock := now;
      var isNew := Json(id) !in disk || !out.existsAnswers;
      var sweeps := writes % SWEEP_EVERY_N_WRITES == 0 || isNew;
      writes := writes + 1;
      var steps := 0;
      NothingSwept(disk, now);
      ghost var w := old(clock);
      assert Valid() by { SweepingReflects(disk, disk, committed, w, now); }
      if sweeps {
        var live, died;
        live, steps, died := Sweep(now, out);
        SweptFits(disk, old(disk), now);
        SweptFilesStep(disk, old(disk), now);
        if died {
          return Crashed;
        }
        if isNew && live >= MAX_PERSISTED_SESSIONS {
          return CapReached;
        }
      }
      StoringFits(old(disk), disk, id, out, now);
      SweptFits(disk, old(disk), now);
      SweptFilesStep(disk, old(disk), now);
      ghost var swept := disk;
      outcome := WriteThenRename(id, state, now, out.fate, steps);
      FilesStepsCompose(old(disk), swept, disk, now, if outcome == Stored then Some(id) else None);
    }

    /** Write the temporary file, then rename it: until the rename the session's file is untouched. */
    method WriteThenRename(id: string, state: string, now: int, fate: nat -> Fate, steps: nat) returns (outcome: Outcome)
      requires Valid() && now == clock
      modifies this`disk, this`committed, this`writes
      ensures Valid()
      ensures outcome in {Stored, IoError, Crashed}
      ensures committed == if outcome == Stored then old(committed)[id := Stamped(state, now)] else old(committed)
      ensures AllSucceed(fate) ==>
                outcome == Stored && disk == (old(disk) - {JsonTmp(id)})[Json(id) := File(Whole(state), now)]
      ensures JsonFiles(disk) == if outcome == Stored then JsonFiles(old(disk)) + {Json(id)} else JsonFiles(old(disk))
      ensures writes == (if outcome == Crashed then 0 else old(writes)) && Explained(fate, outcome, false)
      ensures FilesStep(old(disk), disk, now, if outcome == Stored then Some(id) else None)
      ensures outcome == Stored ==> Json(id) in disk && disk[Json(id)] == File(Whole(state), now)
    {
      hide Reflects, FilesStep, JsonFiles;
      var tmp := JsonTmp(id);
      ghost var before := disk;
      TmpIsNoSession(before, committed, now, id, File(Torn, now));
      TmpIsNoSession(before, committed, now, id, File(Whole(state), now));
      // Create or truncate, write the content, rename.
      if fate(steps) != Succeeds {
        outcome := Refused(fate(steps));
        NothingChanges(before, now);
        return;
      }
      disk := disk[tmp := File(Torn, now)];
      if fate(steps + 1) != Succeeds {
        outcome := Refused(fate(steps + 1));
        return;
      }
      disk := disk[tmp := File(Whole(state), now)];
      assert disk == before[tmp := File(Whole(state), now)];
      if fate(steps + 2) != Succeeds {
        outcome := Refused(fate(steps + 2));
        return;
      }
      RenameStores(disk, committed, now, id, state);
      FilesStepsCompose(before, disk, (disk - {tmp})[Json(id) := disk[tmp]], now, Some(id));
      assert (disk - {tmp})[Json(id) := disk[tmp]] == (before - {tmp})[Json(id) := File(Whole(state), now)];
      disk := (disk - {tmp})[Json(id) := disk[tmp]];
      committed := committed[id := Stamped(state, now)];
      outcome := Stored;
    }

    /** A step that did not happen: an error, or the end of the process and with it of the counter. */
    method Refused(f: Fate) returns (outcome: Outcome)
      requires f != Succeeds
      modifies this`writes
      ensures outcome == (if f == Fails then IoError else Crashed) && writes == if f == Fails then old(writes) else 0
    {
      if f == Fails {
        return IoError;
      }
      writes := 0;
      return Crashed;
    }

    /** The process ends between two operations and a new one opens the directory. */
    method Restart(now: int)
      requires Valid() && now >= clock
      modifies this`clock, this`writes
      ensures Valid() && clock == now && writes == 0
    {
      clock, writes := now, 0;
    }

    /** `load`: a missing, expired or unparseable file is no state; but a file whose age cannot be
        read is taken for a live one. */
    method Load(id: string, now: int, out: Outside) returns (outcome: Outcome)
      requires Valid() && now >= clock
      modifies this`disk, this`clock, this`writes
      ensures Valid() && clock == now && committed == old(committed)
      ensures outcome.Loaded? && AgeIsKnown(old(disk), id, out, now) ==> outcome == Loaded(Unexpired(committed, id, now))
      ensures outcome.Loaded? && !AgeIsKnown(old(disk), id, out, now) ==>
                Unexpired(committed, id, now) == None && id in committed && outcome == Loaded(Some(committed[id].state))
      ensures outcome.Loaded? || outcome == Crashed || (outcome == IoError && !out.readable)
      ensures disk == old(disk) || (Json(id) in old(disk) && IsExpired(old(disk)[Json(id)].mtime, now) && disk == old(disk) - {Json(id)})
      ensures AllSucceed(out.fate) ==> (disk, outcome) == LoadSpec(old(disk), id, out, now)
      ensures writes == (if outcome == Crashed then 0 else old(writes)) && Explained(out.fate, outcome, !out.readable)
      ensures FilesStep(old(disk), disk, now, None)
    {
      clock := now;
      var name := Json(id);
      if name !in disk {
        return Loaded(None);
      }
      if !out.readable {
        return IoError;
      }
      if SeenExpired(out, name, disk[name], now) || disk[name].data == Torn {
        if out.fate(0) == ProcessDies {
          writes := 0;
          return Crashed;
        }
        if out.fate(0) == Succeeds {
          disk := disk - {name};
        }
        return Loaded(None);
      }
      outcome := Loaded(Some(disk[name].data.state));
    }

    /** `delete`: a missing file is no error. */
    method Delete(id: string, now: int, fate: nat -> Fate) returns (outcome: Outcome)
      requires Valid() && now >= clock
      modifies this
      ensures Valid() && clock == now
      ensures outcome in {Deleted, IoError, Crashed}
      ensures committed == if outcome == Deleted then old(committed) - {id} else old(committed)
      ensures JsonFiles(disk) <= JsonFiles(old(disk))
      ensures AllSucceed(fate) || Json(id) !in old(disk) ==> outcome == Deleted
      ensures disk == if outcome == Deleted then old(disk) - {Json(id)} else old(disk)
      ensures writes == (if outcome == Crashed then 0 else old(writes)) && Explained(fate, outcome, false)
    {
      clock := now;
      if Json(id) in disk {
        if fate(0) != Succeeds {
          outcome := Refused(fate(0));
          return;
        }
        disk := disk - {Json(id)};
      }
      committed := committed - {id};
      outcome := Deleted;
    }
  }

  // ---- Histories ----------------------------------------------------------------------

  /** What a history leaves stored: the last store of each id that succeeded and was not followed by
      a delete that did. */
  function StoredBy(ops: seq<Op>, outcomes: seq<Outcome>): map<string, Stamped>
    requires |ops| == |outcomes|
  {
    if ops == [] then map[]
    else
      var n := |ops| - 1;
      var before := StoredBy(ops[..n], outcomes[..n]);
      match ops[n]
      case StoreOp(id, state, now) => if outcomes[n] == Stored then before[id := Stamped(state, now)] else before
      case DeleteOp(id, _) => if outcomes[n] == Deleted then before - {id} else before
      case LoadOp(_, _) => before
      case SweepOp(_) => before
      case RestartOp(_) => before
  }

  /** The count of writes a history leaves: a crash or a restart starts it again. */
  function WritesAfter(ops: seq<Op>, outcomes: seq<Outcome>): nat
    requires |ops| == |outcomes|
  {
    if ops == [] then 0
    else
      var n := |ops| - 1;
      if outcomes[n] == Crashed || ops[n].RestartOp? then 0
      else WritesAfter(ops[..n], outcomes[..n]) + if ops[n].StoreOp? then 1 else 0
  }

  /** What operation `op`, met with `disk`, may answer and leave. When every step works it does what
      its specification says; a crash and an error have their causes; and the session files change by
      what succeeded, expired ones going besides. */
  ghost predicate StepOk(op: Op, out: Outside, disk: map<Name, File>, writes: nat, next: map<Name, File>, outcome: Outcome) {
    && (match op
        case StoreOp(_, _, _) => outcome in {Stored, CapReached, IoError, Crashed}
        case LoadOp(_, _) => outcome.Loaded? || outcome in {IoError, Crashed}
        case DeleteOp(_, _) => outcome in {Deleted, IoError, Crashed}
        case SweepOp(_) => outcome in {Swept, Crashed}
        case RestartOp(_) => outcome == Restarted)
    && Explained(out.fate, outcome, op.LoadOp? && !out.readable)
    && (AllSucceed(out.fate) ==> (next, outcome) == OpSpec(op, disk, writes, out))
    && (op.LoadOp? && outcome == IoError ==> !out.readable)
    && (op.DeleteOp? && Json(op.id) !in disk ==> outcome == Deleted)
    && (op.StoreOp? && outcome == CapReached ==> TakenForNew(disk, op.id, out) && CountOf(next, out) >= MAX_PERSISTED_SESSIONS)
    && FilesStep(disk, next, op.now, if (outcome == Stored && op.StoreOp?) || (outcome == Deleted && op.DeleteOp?) then Some(op.id) else None)
    && (op.StoreOp? && outcome == Stored ==> Json(op.id) in next && next[Json(op.id)] == File(Whole(op.state), op.now))
    && (op.DeleteOp? && outcome == Deleted ==> Json(op.id) !in next)
  }

  /** The answer of operation `k`, met with `disk`. A load that answers gives the last state stored
      before it if that is within its lifetime, and nothing otherwise, exactly when the file's age
      can be read or does not matter; else it gives the expired state. */
  ghost predicate AnswersRight(ops: seq<Op>, outcomes: seq<Outcome>, out: Outside, disk: map<Name, File>, k: nat)
    requires k < |ops| && k < |outcomes|
  {
    ops[k].LoadOp? ==>
      var stored, id, now := StoredBy(ops[..k], outcomes[..k]), ops[k].id, ops[k].now;
      (outcomes[k].Loaded? ==>
            && (outcomes[k].state == Unexpired(stored, id, now) <==> AgeIsKnown(disk, id, out, now))
            && (outcomes[k].state != Unexpired(stored, id, now) ==> id in stored && outcomes[k].state == Some(stored[id].state)))
  }

  lemma AnswersStayRight(ops: seq<Op>, outcomes: seq<Outcome>, next: Outcome, out: Outside, disk: map<Name, File>, k: nat)
    requires k < |outcomes| < |ops| && AnswersRight(ops, outcomes, out, disk, k)
    ensures AnswersRight(ops, outcomes + [next], out, disk, k)
  {
    assert (outcomes + [next])[..k] == outcomes[..k];
  }

  lemma WritesOneMore(ops: seq<Op>, outcomes: seq<Outcome>, next: Outcome)
    requires |outcomes| < |ops|
    ensures
      var n := |outcomes|;
      WritesAfter(ops[..n + 1], outcomes + [next]) ==
        if next == Crashed || ops[n].RestartOp? then 0
        else WritesAfter(ops[..n], outcomes) + if ops[n].StoreOp? then 1 else 0
  {
    var n := |outcomes|;
    assert ops[..n + 1][..n] == ops[..n] && (outcomes + [next])[..n] == outcomes;
  }

  lemma StoredByOneMore(ops: seq<Op>, outcomes: seq<Outcome>, next: Outcome)
    requires |outcomes| < |ops|
    ensures
      var n := |outcomes|;
      var before := StoredBy(ops[..n], outcomes);
      StoredBy(ops[..n + 1], outcomes + [next]) == match ops[n] {
        case StoreOp(id, state, now) => if next == Stored then before[id := Stamped(state, now)] else before
        case DeleteOp(id, _) => if next == Deleted then before - {id} else before
        case _ => before
      }
  {
    var n := |outcomes|;
    assert ops[..n + 1][..n] == ops[..n] && (outcomes + [next])[..n] == outcomes;
  }

  /** Among the first `n` operations, each store of a new session saw every file there was. */
  ghost predicate StoresCountAll(ops: seq<Op>, outside: nat -> Outside, disks: seq<map<Name, File>>, n: nat) {
    forall k: nat :: k < n && k < |ops| && k < |disks| && ops[k].StoreOp? && Json(ops[k].id) !in disks[k] ==>
      CountsAll(disks[k], outside(k))
  }

  lemma StoresCountAllSoFar(ops: seq<Op>, outside: nat -> Outside, disks: seq<map<Name, File>>, next: map<Name, File>, n: nat)
    requires n < |disks|
    ensures StoresCountAll(ops, outside, disks + [next], n) <==> StoresCountAll(ops, outside, disks, n)
    ensures n < |ops| && StoresCountAll(ops, outside, disks + [next], n + 1) ==>
              StoresCountAll(ops, outside, disks, n) && (ops[n].StoreOp? && Json(ops[n].id) !in disks[n] ==> CountsAll(disks[n], outside(n)))
  {
    assert forall k: nat :: k < |disks| ==> (disks + [next])[k] == disks[k];
  }

  /** A history as far as `outcomes` goes: every operation did what it may, and exactly its
      specification when its steps worked; every load answered right; and the session files stayed
      within the cap for as long as each store of a new session saw every file. */
  ghost predicate HistoryOk(ops: seq<Op>, outside: nat -> Outside, outcomes: seq<Outcome>, disks: seq<map<Name, File>>) {
    && |outcomes| <= |ops| && |disks| == |outcomes| + 1 && disks[0] == map[]
    && (forall i :: 0 <= i < |outcomes| ==>
          StepOk(ops[i], outside(i), disks[i], WritesAfter(ops[..i], outcomes[..i]), disks[i + 1], outcomes[i]))
    && (forall i :: 0 <= i < |outcomes| ==> AnswersRight(ops, outcomes, outside(i), disks[i], i))
    && (forall i :: 0 <= i < |disks| && StoresCountAll(ops, outside, disks, i) ==> |JsonFiles(disks[i])| <= MAX_PERSISTED_SESSIONS)
  }

  lemma HistoryBegins(ops: seq<Op>, outside: nat -> Outside)
    ensures HistoryOk(ops, outside, [], [map[]])
  {
    NothingIsWithinCap();
  }

  /** One more operation that did what it may, and a load that answered right, within the cap if the
      stores saw every file. */
  ghost predicate NextOk(ops: seq<Op>, outside: nat -> Outside, outcomes: seq<Outcome>, disks: seq<map<Name, File>>, outcome: Outcome, next: map<Name, File>)
    requires |outcomes| < |ops| && |disks| == |outcomes| + 1
  {
    var i := |outcomes|;
    && StepOk(ops[i], outside(i), disks[i], WritesAfter(ops[..i], outcomes), next, outcome)
    && LoadRight(ops[i], outcome, StoredBy(ops[..i], outcomes), outside(i), disks[i])
    && (StoresCountAll(ops, outside, disks + [next], i + 1) ==> |JsonFiles(next)| <= MAX_PERSISTED_SESSIONS)
  }

  lemma HistoryGrows(ops: seq<Op>, outside: nat -> Outside, outcomes: seq<Outcome>, disks: seq<map<Name, File>>, outcome: Outcome, next: map<Name, File>)
    requires |outcomes| < |ops| && |disks| == |outcomes| + 1
    ensures HistoryOk(ops, outside, outcomes, disks) && NextOk(ops, outside, outcomes, disks, outcome, next) ==>
              HistoryOk(ops, outside, outcomes + [outcome], disks + [next])
  {
    hide StoredBy, WritesAfter, JsonFiles, StoresCountAll, StepOk, AnswersRight, LoadRight;
    var i := |outcomes|;
    var outcomes', disks' := outcomes + [outcome], disks + [next];
    assert outcomes'[..i] == outcomes;
    if HistoryOk(ops, outside, outcomes, disks) && NextOk(ops, outside, outcomes, disks, outcome, next) {
      forall k | 0 <= k < i
        ensures StepOk(ops[k], outside(k), disks'[k], WritesAfter(ops[..k], outcomes'[..k]), disks'[k + 1], outcomes'[k])
             && AnswersRight(ops, outcomes', outside(k), disks'[k], k)
      {
        assert outcomes'[..k] == outcomes[..k];
        AnswersStayRight(ops, outcomes, outcome, outside(k), disks[k], k);
      }
      AnswerIsRight(ops, outcomes, outcome, outside(i), disks[i], i);
      forall k | 0 <= k <= i ensures StoresCountAll(ops, outside, disks', k) ==> StoresCountAll(ops, outside, disks, k) {
        StoresCountAllSoFar(ops, outside, disks, next, k);
      }
    }
  }

  /** So far within the cap, if each store saw what there was. */
  lemma CapPremise(ops: seq<Op>, outside: nat -> Outside, outcomes: seq<Outcome>, disks: seq<map<Name, File>>, next: map<Name, File>)
    requires HistoryOk(ops, outside, outcomes, disks) && |outcomes| < |ops|
    ensures var i := |outcomes|;
            StoresCountAll(ops, outside, disks + [next], i + 1) ==>
              && |JsonFiles(disks[i])| <= MAX_PERSISTED_SESSIONS
              && (ops[i].StoreOp? && Json(ops[i].id) !in disks[i] ==> CountsAll(disks[i], outside(i)))
  {
    hide StepOk, AnswersRight, StoresCountAll, JsonFiles, CountsAll;
    StoresCountAllSoFar(ops, outside, disks, next, |outcomes|);
  }

  /** Play any history on a fresh store, whatever fails in whichever operation and wherever the
      process dies: `disks[k]` is what operation `k` meets. */
  method Play(ops: seq<Op>, outside: nat -> Outside) returns (outcomes: seq<Outcome>, disks: seq<map<Name, File>>)
    requires forall i, j :: 0 <= i < j < |ops| ==> Now(ops[i]) <= Now(ops[j])
    ensures |outcomes| == |ops| && HistoryOk(ops, outside, outcomes, disks)
  {
    hide StoredBy, WritesAfter, JsonFiles, Reflects, CountsAll, StoresCountAll, StepOk, LoadRight, HistoryOk;
    outcomes, disks := [], [map[]];
    HistoryBegins(ops, outside);
    if ops == [] {
      return;
    }
    var store := new FileSessionStore(Now(ops[0]));
    NothingStoredYet(ops);
    for i := 0 to |ops|
      invariant |outcomes| == i && |disks| == i + 1 && disks[i] == store.disk && HistoryOk(ops, outside, outcomes, disks)
      invariant store.Valid() && fresh(store)
      invariant store.clock == Now(ops[if i == 0 then 0 else i - 1])
      invariant store.committed == StoredBy(ops[..i], outcomes) && store.writes == WritesAfter(ops[..i], outcomes)
    {
      var outcome := Perform(store, ops[i], outside(i));
      StoredByOneMore(ops, outcomes, outcome);
      WritesOneMore(ops, outcomes, outcome);
      CapPremise(ops, outside, outcomes, disks, store.disk);
      HistoryGrows(ops, outside, outcomes, disks, outcome, store.disk);
      outcomes := outcomes + [outcome];
      disks := disks + [store.disk];
    }
  }

  lemma NothingIsWithinCap()
    ensures |JsonFiles(map[])| == 0
  {
    assert JsonFiles(map[]) == {};
  }

  lemma NothingStoredYet(ops: seq<Op>)
    ensures StoredBy(ops[..0], []) == map[] && WritesAfter(ops[..0], []) == 0
  {
  }

  /** The answer of one load, given what was committed. */
  ghost predicate LoadRight(op: Op, outcome: Outcome, committed: map<string, Stamped>, out: Outside, disk: map<Name, File>) {
    op.LoadOp? && outcome.Loaded? ==>
      && (outcome.state == Unexpired(committed, op.id, op.now) <==> AgeIsKnown(disk, op.id, out, op.now))
      && (outcome.state != Unexpired(committed, op.id, op.now) ==> op.id in committed && outcome.state == Some(committed[op.id].state))
  }

  lemma AnswerIsRight(ops: seq<Op>, outcomes: seq<Outcome>, next: Outcome, out: Outside, disk: map<Name, File>, i: nat)
    requires i == |outcomes| < |ops| && LoadRight(ops[i], next, StoredBy(ops[..i], outcomes), out, disk)
    ensures AnswersRight(ops, outcomes + [next], out, disk, i)
  {
    assert (outcomes + [next])[..i] == outcomes;
  }

  /** One operation of a history. */
  method Perform(store: FileSessionStore, op: Op, out: Outside) returns (outcome: Outcome)
    requires store.Valid() && Now(op) >= store.clock
    modifies store
    ensures store.Valid() && store.clock == Now(op)
    ensures StepOk(op, out, old(store.disk), old(store.writes), store.disk, outcome)
    ensures LoadRight(op, outcome, old(store.committed), out, old(store.disk))
    ensures old(store.WithinCap()) && (op.StoreOp? && Json(op.id) !in old(store.disk) ==> CountsAll(old(store.disk), out)) ==>
              store.WithinCap()
    ensures store.writes == if outcome == Crashed || op.RestartOp? then 0 else old(store.writes) + if op.StoreOp? then 1 else 0
    ensures store.committed ==
              match op
              case StoreOp(id, state, now) => if outcome == Stored then old(store.committed)[id := Stamped(state, now)] else old(store.committed)
              case DeleteOp(id, _) => if outcome == Deleted then old(store.committed) - {id} else old(store.committed)
              case _ => old(store.committed)
  {
    hide Reflects, IsExpired, StoreSpec, LoadSpec, Kept, CountOf, CountsAll, AllSucceed, SomeStepDies, SomeStepFails;
    NothingChanges(store.disk, Now(op));
    match op
    case StoreOp(id, state, now) =>
      outcome := store.Store(id, state, now, out);
    case LoadOp(id, now) =>
      outcome := store.Load(id, now, out);
      SubsetSize(JsonFiles(store.disk), JsonFiles(old(store.disk)));
    case DeleteOp(id, now) =>
      outcome := store.Delete(id, now, out.fate);
      SubsetSize(JsonFiles(store.disk), JsonFiles(old(store.disk)));
    case SweepOp(now) =>
      var _, _, died := store.Sweep(now, out);
      SweptFilesStep(store.disk, old(store.disk), now);
      outcome := if died then Crashed else Swept;
      SubsetSize(JsonFiles(store.disk), JsonFiles(old(store.disk)));
    case RestartOp(now) =>
      store.Restart(now);
      outcome := Restarted;
  }

  // ---- Exactly when the promises hold ---------------------------------------------------

  /** A sweep whose removals work keeps exactly what is unlisted, of unreadable age, or unexpired: of a
      directory whose every file it sees, nothing expired is left and nothing live is lost. */
  lemma SweepKeepsExactly(disk: map<Name, File>, out: Outside, now: int, n: Name)
    requires n in disk && out.listable
    ensures n in Kept(disk, out, now) <==> out.skipped(n) || !out.statable(n) || now - disk[n].mtime <= 604_800_000_000_000
    ensures n in Kept(disk, out, now) ==> Kept(disk, out, now)[n] == disk[n]
  {
  }

  /** Every store of a session taken for new sweeps, and every sixty-fourth store besides. */
  lemma StoresSweepWhen(disk: map<Name, File>, writes: nat, id: string, out: Outside, now: int, n: Name)
    requires n in disk && out.listable && !out.skipped(n) && out.statable(n) && now - disk[n].mtime > 604_800_000_000_000
    ensures n in StoreKept(disk, writes, id, out, now) <==> writes % 64 != 0 && Json(id) in disk && out.existsAnswers
  {
  }

  /** A load that answers is right exactly when the file's age can be read or does not matter. */
  lemma LoadIsRightExactlyWhen(disk: map<Name, File>, committed: map<string, Stamped>, clock: int, id: string, out: Outside, now: int)
    requires Reflects(disk, committed, clock) && clock <= now && LoadSpec(disk, id, out, now).1.Loaded?
    ensures LoadSpec(disk, id, out, now).1 == Loaded(Unexpired(committed, id, now)) <==> AgeIsKnown(disk, id, out, now)
  {
    assert id in committed && Json(id) !in disk ==> IsExpired(committed[id].at, clock);
  }

  /** From within the cap, a store passes it exactly when the session is new, the directory already
      holds the cap's number of session files after the sweep, and the count missed one. */
  lemma CapIsPassedExactlyWhen(disk: map<Name, File>, writes: nat, id: string, state: string, out: Outside, now: int)
    requires |JsonFiles(disk)| <= MAX_PERSISTED_SESSIONS
    ensures var kept := StoreKept(disk, writes, id, out, now);
            (|JsonFiles(StoreSpec(disk, writes, id, state, out, now).0)| > MAX_PERSISTED_SESSIONS
             <==> Json(id) !in disk && |JsonFiles(kept)| == 4096 && CountOf(kept, out) < 4096)
    ensures CountsAll(disk, out) ==> |JsonFiles(StoreSpec(disk, writes, id, state, out, now).0)| <= MAX_PERSISTED_SESSIONS
  {
    hide Kept, CountOf, CountsAll, JsonFiles, IsExpired;
    var kept := StoreKept(disk, writes, id, out, now);
    KeptIsSwept(disk, out, now);
    NothingSwept(disk, now);
    SweptFits(kept, disk, now);
    StoringFits(disk, kept, id, out, now);
    var full := StoreSpec(disk, writes, id, state, out, now);
    if full.1 == Stored {
      StoredFiles(kept, id, state, now);
      if Json(id) !in disk { NewFileCounts(kept, disk, id, now); }
    }
  }

  lemma KeptIsSwept(disk: map<Name, File>, out: Outside, now: int)
    ensures SweptOf(Kept(disk, out, now), disk, now)
  {
  }

  lemma StoredFiles(kept: map<Name, File>, id: string, state: string, now: int)
    ensures JsonFiles((kept - {JsonTmp(id)})[Json(id) := File(Whole(state), now)]) == JsonFiles(kept) + {Json(id)}
  {
  }

  lemma NewFileCounts(kept: map<Name, File>, disk: map<Name, File>, id: string, now: int)
    requires SweptOf(kept, disk, now) && Json(id) !in disk
    ensures |JsonFiles(kept) + {Json(id)}| == |JsonFiles(kept)| + 1
  {
    assert Json(id) !in JsonFiles(kept);
  }

  /** A new session is refused exactly when the cap's number of files is counted, and an existing one
      only if besides its existence check got no answer. */
  lemma RefusedExactlyWhen(disk: map<Name, File>, writes: nat, id: string, state: string, out: Outside, now: int)
    ensures StoreSpec(disk, writes, id, state, out, now).1 == CapReached
       <==> (Json(id) in disk ==> !out.existsAnswers) && CountOf(Kept(disk, out, now), out) >= 4096
  {
  }

  // ---- Where they fail ------------------------------------------------------------------

  /** Everything works, except what the arguments say. */
  function Working(existsAnswers: bool, statable: bool, skipped: Name -> bool): Outside {
    Outside(_ => Succeeds, true, true, existsAnswers, _ => statable, skipped)
  }

  /** An unreadable age makes a load answer with an expired state. */
  lemma ExpiredStateIsServed()
    ensures var disk := map[Json("s") := File(Whole("x"), 0)];
            var committed := map["s" := Stamped("x", 0)];
            var now := SESSION_STATE_TTL + 1;
            && Reflects(disk, committed, 0)
            && LoadSpec(disk, "s", Working(true, false, _ => false), now).1 == Loaded(Some("x"))
            && Unexpired(committed, "s", now) == None
  {
  }

  function Id(k: nat): string {
    seq(k, _ => 'a')
  }

  /** `k` session files stored at time zero. */
  function Sessions(k: nat): map<Name, File> {
    if k == 0 then map[] else Sessions(k - 1)[Json(Id(k - 1)) := File(Whole(""), 0)]
  }

  lemma {:induction false} SessionsAre(k: nat)
    ensures forall n :: n in Sessions(k) ==> n.Json? && |n.id| < k && Sessions(k)[n].mtime == 0
    ensures k > 0 ==> Json(Id(0)) in Sessions(k)
    ensures |Sessions(k)| == k
  {
    hide Id;
    if k > 0 {
      var before, name := Sessions(k - 1), Json(Id(k - 1));
      SessionsAre(k - 1);
      IdHasItsLength(k - 1);
      assert name !in before;
      assert Sessions(k).Keys == before.Keys + {name};
      assert |before| == |before.Keys| && |Sessions(k)| == |Sessions(k).Keys|;
    }
  }

  lemma IdHasItsLength(k: nat)
    ensures |Id(k)| == k
  {
  }

  lemma AllAreSessionFiles(disk: map<Name, File>)
    requires forall n :: n in disk ==> n.Json?
    ensures |JsonFiles(disk)| == |disk|
  {
    assert JsonFiles(disk) == disk.Keys;
    assert |disk| == |disk.Keys|;
  }

  lemma NewIsNoSession(k: nat)
    ensures Json("new") !in Sessions(k)
    decreases k
  {
    if k > 0 {
      NewIsNoSession(k - 1);
      assert Id(k - 1) != "new" by { IdIsNotNew(k - 1); }
    }
  }

  lemma IdIsNotNew(k: nat)
    ensures Id(k) != "new"
  {
    assert k > 0 ==> Id(k)[0] == 'a' && "new"[0] == 'n';
  }

  /** With the directory full of live sessions, one skipped entry lets the cap be passed, and one
      unanswered existence check refuses an existing session. */
  lemma FullDirectoryGoesWrong()
    ensures var disk := Sessions(MAX_PERSISTED_SESSIONS);
            && |JsonFiles(disk)| == MAX_PERSISTED_SESSIONS
            && |JsonFiles(StoreSpec(disk, 0, "new", "", Working(true, true, n => n == Json(Id(0))), 0).0)| > MAX_PERSISTED_SESSIONS
            && Json(Id(0)) in disk && StoreSpec(disk, 0, Id(0), "", Working(false, true, _ => false), 0).1 == CapReached
  {
    hide Sessions, StoreSpec, Kept, CountOf;
    var disk := Sessions(MAX_PERSISTED_SESSIONS);
    SessionsAre(MAX_PERSISTED_SESSIONS);
    AllAreSessionFiles(disk);
    NewIsNoSession(MAX_PERSISTED_SESSIONS);
    var skip, blind := Working(true, true, n => n == Json(Id(0))), Working(false, true, _ => false);
    NothingExpiresYet(disk, skip);
    NothingExpiresYet(disk, blind);
    CountSkipsOne(disk, skip);
    CountsEverything(disk, blind);
    CapIsPassedExactlyWhen(disk, 0, "new", "", skip, 0);
    RefusedExactlyWhen(disk, 0, Id(0), "", blind, 0);
  }

  lemma NothingExpiresYet(disk: map<Name, File>, out: Outside)
    requires forall n :: n in disk ==> disk[n].mtime == 0
    ensures Kept(disk, out, 0) == disk
  {
  }

  lemma CountSkipsOne(disk: map<Name, File>, out: Outside)
    requires Json(Id(0)) in disk && out.listable && forall n :: out.skipped(n) <==> n == Json(Id(0))
    ensures CountOf(disk, out) < |disk|
  {
    assert Yielded(disk.Keys, out) == disk.Keys - {Json(Id(0))};
    assert |disk| == |disk.Keys|;
  }

  lemma CountsEverything(disk: map<Name, File>, out: Outside)
    requires out.listable && forall n :: !out.skipped(n)
    ensures CountOf(disk, out) == |disk|
  {
    assert Yielded(disk.Keys, out) == disk.Keys;
    assert |disk| == |disk.Keys|;
  }
}
