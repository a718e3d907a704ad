/** Client lookup and self-heal of src/matrix_client.rs: every interleaving of concurrent
    `for_user` calls, split at their awaits and lock sections. */
module SelfHeal {
  import opened Options

  datatype Client = Client(mxid: string, keysVerified: bool, syncFinished: bool)

  /** A once-cell: empty, being filled by a call, or full. */
  datatype Cell = Vacant | Building(call: nat) | Full(client: nat)

  /** Where a call stands. */
  datatype Pc =
    | Lookup                    // the fast path's read lock
    | StaleCheck                // drop a client whose sync task has finished
    | GetCell                   // get or insert the once-cell
    | InCell(cell: nat)         // about to fill the cell or wait for it
    | Filling(cell: nat)        // the SDK build runs off-lock
    | Refresh(client: nat)      // swap the access token in place
    | ReadFlag(client: nat)     // consult keys_verified
    | Ask(client: nat)          // the /keys/query round trip
    | Claim(client: nat)        // take this identity's one heal
    | CheckBackup(client: nat)  // is there a recoverable key backup
    | Evict
    | Wipe
    | AwaitPublication(client: nat)
    | Done(result: Option<nat>)

  /** One `for_user` call. `retry` is set once it has recursed. */
  datatype Call = Call(mxid: string, retry: bool, pc: Pc, builds: nat, queries: nat)

  /** What happened, in order. */
  datatype Fact =
    | Claimed(mxid: string, call: nat)
    | BackupConfirmed(mxid: string, call: nat)
    | Evicted(mxid: string, call: nat)
    | Wiped(mxid: string, call: nat)
    | Announced(client: nat)

  datatype State = State(
    cache: map<string, nat>,
    cells: map<nat, Cell>,
    clients: map<nat, Client>,
    healed: set<string>,
    calls: map<nat, Call>,
    // History the code does not keep: whose cell each cell is, and what happened.
    owners: map<nat, string>,
    log: seq<Fact>)

  datatype Answer = Yes | No | Failed

  /** A step is one call's next section, with the outside's answer where it asks, or something
      outside any call. */
  datatype Event =
    | Begin(d: nat, mxid: string)
    | Step(d: nat, answer: Answer, newId: nat)
    | Abandon(d: nat)
    | SyncEnds(client: nat)
    | EvictFromOutside(mxid: string)

  ghost predicate Init(s: State) {
    s == State(map[], map[], map[], {}, map[], map[], [])
  }

  predicate Live(s: State, client: nat) {
    client in s.clients && !s.clients[client].syncFinished
  }

  /** The full, cached client of an identity. */
  function Cached(s: State, mxid: string): Option<nat> {
    if mxid in s.cache && s.cache[mxid] in s.cells && s.cells[s.cache[mxid]].Full?
    then Some(s.cells[s.cache[mxid]].client) else None
  }

  /** What one section of a call does: the shared maps it leaves, the call itself, and at most one
      new fact. */
  datatype Effect = Effect(
    cache: map<string, nat>,
    cells: map<nat, Cell>,
    clients: map<nat, Client>,
    healed: set<string>,
    owners: map<nat, string>,
    call: Call,
    facts: seq<Fact>)

  /** Move a call on, changing nothing else. */
  function Goto(s: State, c: Call, pc: Pc): Effect {
    Effect(s.cache, s.cells, s.clients, s.healed, s.owners, c.(pc := pc), [])
  }

  /** Where a call goes when it has its client: the recursive call goes on to wait for publication. */
  function Returning(c: Call, client: nat): Pc {
    if c.retry then AwaitPublication(client) else Done(Some(client))
  }

  /** The next section of a call, given the outside's answer where it asks and an unused id where it
      needs one. Nothing while the call waits for another call's build, or is done. */
  function Section(s: State, d: nat, answer: Answer, newId: nat): Option<Effect>
    requires d in s.calls
  {
    if Obtaining(s.calls[d].pc) then ObtainSection(s, d, answer, newId) else VerifySection(s, d, answer)
  }

  /** Still on the way to a client. */
  predicate Obtaining(pc: Pc) {
    BeforeBuild(pc) || pc.Filling? || pc.Refresh?
  }

  /** `for_user_inner`: look the client up, drop a stale one, build, refresh its token. */
  function ObtainSection(s: State, d: nat, answer: Answer, newId: nat): Option<Effect>
    requires d in s.calls && Obtaining(s.calls[d].pc)
  {
    var c := s.calls[d];
    match c.pc
    case Lookup =>
      var hit := Cached(s, c.mxid);
      Some(Goto(s, c, if hit.Some? && Live(s, hit.value) then Refresh(hit.value) else StaleCheck))
    case StaleCheck =>
      var hit := Cached(s, c.mxid);
      Some(Goto(s, c, GetCell).(cache := if hit.Some? && !Live(s, hit.value) then s.cache - {c.mxid} else s.cache))
    case GetCell =>
      if c.mxid in s.cache then Some(Goto(s, c, InCell(s.cache[c.mxid])))
      else if newId in s.cells then None
      else Some(Goto(s, c, InCell(newId)).(cache := s.cache[c.mxid := newId], cells := s.cells[newId := Vacant],
                                           owners := s.owners[newId := c.mxid]))
    case InCell(cell) =>
      if cell !in s.cells then None
      else (
        match s.cells[cell]
        case Full(client) => Some(Goto(s, c, Refresh(client)))
        case Vacant => Some(Goto(s, c.(builds := c.builds + 1), Filling(cell)).(cells := s.cells[cell := Building(d)]))
        case Building(_) => None)
    case Filling(cell) =>
      if answer != Yes then Some(Goto(s, c, Done(None)).(cells := s.cells[cell := Vacant]))
      else if newId in s.clients then None
      else Some(Goto(s, c, Refresh(newId)).(clients := s.clients[newId := Client(c.mxid, false, false)],
                                            cells := s.cells[cell := Full(newId)]))
    case Refresh(client) =>
      Some(Goto(s, c, if answer == Yes then ReadFlag(client) else Done(None)))
  }

  /** `verify_or_heal`: trust a verified client, and ask the homeserver about any other. */
  function VerifySection(s: State, d: nat, answer: Answer): Option<Effect>
    requires d in s.calls && !Obtaining(s.calls[d].pc)
  {
    var c := s.calls[d];
    match c.pc
    case ReadFlag(client) =>
      Some(Goto(s, c, if client in s.clients && s.clients[client].keysVerified then Returning(c, client) else Ask(client)))
    case Ask(client) =>
      var asked := c.(queries := c.queries + 1);
      if client !in s.clients then None
      else (
        match answer
        case Yes => Some(Goto(s, asked, Returning(c, client))
                         .(clients := s.clients[client := s.clients[client].(keysVerified := true)], facts := [Announced(client)]))
        case No => Some(Goto(s, asked, if c.retry then Returning(c, client) else Claim(client)))
        case Failed => Some(Goto(s, asked, Returning(c, client))))
    case _ => HealSection(s, d, answer)
  }

  /** The rest of `verify_or_heal`: claim the identity's one heal, check its backup, evict, wipe, and
      after the recursion wait for publication. */
  function HealSection(s: State, d: nat, answer: Answer): Option<Effect>
    requires d in s.calls
  {
    var c := s.calls[d];
    match c.pc
    case Claim(client) =>
      if c.mxid in s.healed then Some(Goto(s, c, Returning(c, client)))
      else Some(Goto(s, c, CheckBackup(client)).(healed := s.healed + {c.mxid}, facts := [Claimed(c.mxid, d)]))
    case CheckBackup(client) =>
      if answer == Yes then Some(Goto(s, c, Evict).(facts := [BackupConfirmed(c.mxid, d)]))
      else Some(Goto(s, c, Returning(c, client)))
    case Evict =>
      Some(Goto(s, c, Wipe).(cache := s.cache - {c.mxid}, facts := [Evicted(c.mxid, d)]))
    case Wipe =>
      // A failed removal may have removed part of the store, so it counts as a wipe as well.
      if answer == Yes then Some(Goto(s, c.(retry := true), Lookup).(facts := [Wiped(c.mxid, d)]))
      else Some(Goto(s, c, Done(None)).(facts := [Wiped(c.mxid, d)]))
    case AwaitPublication(client) => Some(Goto(s, c, Done(Some(client))))
    case _ => None
  }

  function Apply(s: State, d: nat, e: Effect): State {
    State(e.cache, e.cells, e.clients, e.healed, s.calls[d := e.call], e.owners, s.log + e.facts)
  }

  ghost predicate StepOf(s: State, d: nat, answer: Answer, newId: nat, t: State)
    requires d in s.calls
  {
    var e := Section(s, d, answer, newId);
    e.Some? && t == Apply(s, d, e.value)
  }

  /** A dropped future; a build it was running leaves its cell vacant. */
  function Abandoned(s: State, d: nat): State
    requires d in s.calls
  {
    var c := s.calls[d];
    s.(cells := if c.pc.Filling? then s.cells[c.pc.cell := Vacant] else s.cells,
       calls := s.calls[d := c.(pc := Done(None))])
  }

  ghost predicate Next(s: State, e: Event, t: State) {
    match e
    case Begin(d, mxid) => d !in s.calls && t == s.(calls := s.calls[d := Call(mxid, false, Lookup, 0, 0)])
    case Step(d, answer, newId) => d in s.calls && StepOf(s, d, answer, newId, t)
    case Abandon(d) =>
      // A removal already under way may finish without its call, so it counts as a wipe as well.
      d in s.calls && if s.calls[d].pc.Wipe? then StepOf(s, d, Failed, 0, t) else t == Abandoned(s, d)
    case SyncEnds(client) =>
      client in s.clients && t == s.(clients := s.clients[client := s.clients[client].(syncFinished := true)])
    case EvictFromOutside(mxid) => t == s.(cache := s.cache - {mxid})
  }

  // ---- The invariant ------------------------------------------------------------------

  /** `f` comes before position `k`. */
  ghost predicate Before(log: seq<Fact>, k: nat, f: Fact) {
    exists i :: 0 <= i < k && i < |log| && log[i] == f
  }

  /** `f` and later `g`, both before position `k`. */
  ghost predicate InOrder(log: seq<Fact>, k: nat, f: Fact, g: Fact) {
    exists i, j :: 0 <= i < j < k && j < |log| && log[i] == f && log[j] == g
  }

  ghost predicate EverWiped(log: seq<Fact>, mxid: string) {
    exists k :: 0 <= k < |log| && log[k].Wiped? && log[k].mxid == mxid
  }

  /** Past the claim and before the wipe. */
  predicate Healing(pc: Pc) {
    pc.CheckBackup? || pc.Evict? || pc.Wipe?
  }

  predicate BeforeBuild(pc: Pc) {
    pc.Lookup? || pc.StaleCheck? || pc.GetCell? || pc.InCell?
  }

  predicate BeforeQuery(pc: Pc) {
    BeforeBuild(pc) || pc.Filling? || pc.Refresh? || pc.ReadFlag? || pc.Ask?
  }

  /** What one call may have done by where it stands. */
  predicate CountsOk(c: Call) {
    var passes := if c.retry then 1 else 0;
    && c.builds <= (if BeforeBuild(c.pc) then passes else passes + 1)
    && c.queries <= (if BeforeQuery(c.pc) then passes else passes + 1)
    && ((c.pc.Claim? || Healing(c.pc)) ==> !c.retry)
    && (c.pc.AwaitPublication? ==> c.retry)
  }

  /** The log a healing call has behind it. */
  ghost predicate HealOk(s: State, d: nat, c: Call) {
    && c.mxid in s.healed && !EverWiped(s.log, c.mxid)
    && Before(s.log, |s.log|, Claimed(c.mxid, d))
    && (c.pc.Evict? || c.pc.Wipe? ==> InOrder(s.log, |s.log|, Claimed(c.mxid, d), BackupConfirmed(c.mxid, d)))
    && (c.pc.Wipe? ==> InOrder(s.log, |s.log|, BackupConfirmed(c.mxid, d), Evicted(c.mxid, d)))
  }

  /** Every wipe in the log came after its own claim, the backup's yes, and the eviction. */
  ghost predicate WipesJustified(log: seq<Fact>) {
    forall k :: 0 <= k < |log| && log[k].Wiped? ==>
      && InOrder(log, k, Claimed(log[k].mxid, log[k].call), BackupConfirmed(log[k].mxid, log[k].call))
      && InOrder(log, k, BackupConfirmed(log[k].mxid, log[k].call), Evicted(log[k].mxid, log[k].call))
  }

  ghost predicate WipesAtMostOnce(log: seq<Fact>) {
    forall i, j :: 0 <= i < j < |log| && log[i].Wiped? && log[j].Wiped? ==> log[i].mxid != log[j].mxid
  }

  ghost predicate ClaimsAtMostOnce(log: seq<Fact>) {
    forall i, j :: 0 <= i < j < |log| && log[i].Claimed? && log[j].Claimed? ==> log[i].mxid != log[j].mxid
  }

  ghost predicate LogOk(healed: set<string>, log: seq<Fact>) {
    && WipesJustified(log) && WipesAtMostOnce(log) && ClaimsAtMostOnce(log)
    && (forall k :: 0 <= k < |log| && log[k].Claimed? ==> log[k].mxid in healed)
  }

  ghost predicate VerifiedOk(s: State) {
    forall k :: k in s.clients && s.clients[k].keysVerified ==> Before(s.log, |s.log|, Announced(k))
  }

  ghost predicate Inv(s: State) {
    && LogOk(s.healed, s.log)
    && VerifiedOk(s)
    && (forall d :: d in s.calls ==> CountsOk(s.calls[d]))
    && (forall d :: d in s.calls && Healing(s.calls[d].pc) ==> HealOk(s, d, s.calls[d]))
  }

  lemma BeforeGrows(log: seq<Fact>, more: Fact, k: nat, f: Fact)
    requires k <= |log|
    ensures Before(log, k, f) ==> Before(log + [more], k, f) && Before(log + [more], |log| + 1, f)
  {
    if Before(log, k, f) {
      var i :| 0 <= i < k && i < |log| && log[i] == f;
      assert (log + [more])[i] == f;
    }
  }

  lemma InOrderGrows(log: seq<Fact>, more: Fact, k: nat, f: Fact, g: Fact)
    requires k <= |log|
    ensures InOrder(log, k, f, g) ==> InOrder(log + [more], k, f, g) && InOrder(log + [more], |log| + 1, f, g)
  {
    if InOrder(log, k, f, g) {
      var i, j :| 0 <= i < j < k && j < |log| && log[i] == f && log[j] == g;
      assert (log + [more])[i] == f && (log + [more])[j] == g;
    }
  }

  lemma InOrderSnoc(log: seq<Fact>, f: Fact, g: Fact)
    requires Before(log, |log|, f)
    ensures InOrder(log + [g], |log| + 1, f, g)
  {
    var i :| 0 <= i < |log| && log[i] == f;
    assert (log + [g])[i] == f && (log + [g])[|log|] == g;
  }

  lemma BeforeSnoc(log: seq<Fact>, f: Fact)
    ensures Before(log + [f], |log| + 1, f)
  {
    assert (log + [f])[|log|] == f;
  }

  lemma JustifiedGrows(log: seq<Fact>, f: Fact)
    requires WipesJustified(log)
    requires f.Wiped? ==> InOrder(log, |log|, Claimed(f.mxid, f.call), BackupConfirmed(f.mxid, f.call))
    requires f.Wiped? ==> InOrder(log, |log|, BackupConfirmed(f.mxid, f.call), Evicted(f.mxid, f.call))
    ensures WipesJustified(log + [f])
  {
    hide InOrder;
    var after := log + [f];
    forall k | 0 <= k < |after| && after[k].Wiped?
      ensures InOrder(after, k, Claimed(after[k].mxid, after[k].call), BackupConfirmed(after[k].mxid, after[k].call))
           && InOrder(after, k, BackupConfirmed(after[k].mxid, after[k].call), Evicted(after[k].mxid, after[k].call))
    {
      assert after[k] == if k < |log| then log[k] else f;
      InOrderGrows(log, f, k, Claimed(after[k].mxid, after[k].call), BackupConfirmed(after[k].mxid, after[k].call));
      InOrderGrows(log, f, k, BackupConfirmed(after[k].mxid, after[k].call), Evicted(after[k].mxid, after[k].call));
    }
  }

  /** A new fact keeps the log in order, if a claim is the identity's first and a wipe its first and
      justified. */
  lemma LogGrows(healed: set<string>, healed': set<string>, log: seq<Fact>, f: Fact)
    requires LogOk(healed, log) && healed <= healed'
    requires f.Claimed? ==> f.mxid !in healed && f.mxid in healed'
    requires f.Wiped? ==> !EverWiped(log, f.mxid)
    requires f.Wiped? ==> InOrder(log, |log|, Claimed(f.mxid, f.call), BackupConfirmed(f.mxid, f.call))
    requires f.Wiped? ==> InOrder(log, |log|, BackupConfirmed(f.mxid, f.call), Evicted(f.mxid, f.call))
    ensures LogOk(healed', log + [f])
  {
    hide InOrder, WipesJustified;
    JustifiedGrows(log, f);
  }

  /** A healing call keeps what stands behind it when the log grows by anything but a wipe of its
      identity. */
  lemma HealOkGrows(s: State, t: State, d: nat, c: Call, f: Fact)
    requires HealOk(s, d, c) && s.healed <= t.healed && t.log == s.log + [f]
    requires !(f.Wiped? && f.mxid == c.mxid)
    ensures HealOk(t, d, c)
  {
    BeforeGrows(s.log, f, |s.log|, Claimed(c.mxid, d));
    InOrderGrows(s.log, f, |s.log|, Claimed(c.mxid, d), BackupConfirmed(c.mxid, d));
    InOrderGrows(s.log, f, |s.log|, BackupConfirmed(c.mxid, d), Evicted(c.mxid, d));
    forall k | 0 <= k < |t.log| && t.log[k].Wiped? ensures t.log[k].mxid != c.mxid {
      if k < |s.log| { assert s.log[k] == t.log[k]; }
    }
  }

  lemma VerifiedOkGrows(s: State, t: State, f: Fact)
    requires VerifiedOk(s) && t.log == s.log + [f]
    requires forall k :: k in t.clients && t.clients[k].keysVerified ==>
               (k in s.clients && s.clients[k].keysVerified) || f == Announced(k)
    ensures VerifiedOk(t)
  {
    forall k | k in t.clients && t.clients[k].keysVerified ensures Before(t.log, |t.log|, Announced(k)) {
      BeforeGrows(s.log, f, |s.log|, Announced(k));
      BeforeSnoc(s.log, f);
    }
  }

  /** No two calls heal one identity at once: claims are unique. */
  lemma HealersDiffer(s: State, d: nat, e: nat)
    requires Inv(s) && d in s.calls && e in s.calls && d != e
    requires Healing(s.calls[d].pc) && Healing(s.calls[e].pc)
    ensures s.calls[d].mxid != s.calls[e].mxid
  {
    hide WipesJustified, WipesAtMostOnce, VerifiedOk, InOrder, EverWiped;
    assert HealOk(s, d, s.calls[d]) && HealOk(s, e, s.calls[e]);
    var i :| 0 <= i < |s.log| && s.log[i] == Claimed(s.calls[d].mxid, d);
    var j :| 0 <= j < |s.log| && s.log[j] == Claimed(s.calls[e].mxid, e);
    assert i < j || j < i;
  }

  lemma LookingUpIsQuiet(s: State, d: nat, answer: Answer, newId: nat)
    requires d in s.calls && CountsOk(s.calls[d]) && (s.calls[d].pc.Lookup? || s.calls[d].pc.StaleCheck? || s.calls[d].pc.GetCell?)
    ensures var c, e := s.calls[d], ObtainSection(s, d, answer, newId);
            e.Some? ==>
              && e.value.facts == [] && e.value.healed == s.healed
              && e.value.call.mxid == c.mxid && CountsOk(e.value.call) && !Healing(e.value.call.pc)
              && (forall k :: k in e.value.clients && e.value.clients[k].keysVerified ==> k in s.clients && s.clients[k].keysVerified)
  {
    hide Cached, Live;
  }

  lemma BuildingIsQuiet(s: State, d: nat, answer: Answer, newId: nat)
    requires d in s.calls && CountsOk(s.calls[d]) && (s.calls[d].pc.InCell? || s.calls[d].pc.Filling? || s.calls[d].pc.Refresh?)
    ensures var c, e := s.calls[d], ObtainSection(s, d, answer, newId);
            e.Some? ==>
              && e.value.facts == [] && e.value.healed == s.healed
              && e.value.call.mxid == c.mxid && CountsOk(e.value.call) && !Healing(e.value.call.pc)
              && (forall k :: k in e.value.clients && e.value.clients[k].keysVerified ==> k in s.clients && s.clients[k].keysVerified)
  {
    hide Cached, Live;
  }

  /** Obtaining a client logs nothing and verifies nothing. */
  lemma ObtainingIsQuiet(s: State, d: nat, answer: Answer, newId: nat)
    requires d in s.calls && Obtaining(s.calls[d].pc) && CountsOk(s.calls[d])
    ensures var c, e := s.calls[d], ObtainSection(s, d, answer, newId);
            e.Some? ==>
              && e.value.facts == [] && e.value.healed == s.healed
              && e.value.call.mxid == c.mxid && CountsOk(e.value.call) && !Healing(e.value.call.pc)
              && (forall k :: k in e.value.clients && e.value.clients[k].keysVerified ==> k in s.clients && s.clients[k].keysVerified)
  {
    hide Cached, Live, CountsOk, Healing;
    var pc := s.calls[d].pc;
    if pc.Lookup? || pc.StaleCheck? || pc.GetCell? {
      LookingUpIsQuiet(s, d, answer, newId);
    } else {
      BuildingIsQuiet(s, d, answer, newId);
    }
  }

  lemma AskingCounts(s: State, d: nat, answer: Answer)
    requires d in s.calls && CountsOk(s.calls[d]) && (s.calls[d].pc.ReadFlag? || s.calls[d].pc.Ask?)
    ensures var e := VerifySection(s, d, answer);
            e.Some? ==> CountsOk(e.value.call) && e.value.call.mxid == s.calls[d].mxid
  {
  }

  lemma ClaimingCounts(s: State, d: nat, answer: Answer)
    requires d in s.calls && CountsOk(s.calls[d]) && (s.calls[d].pc.Claim? || s.calls[d].pc.CheckBackup?)
    ensures var e := VerifySection(s, d, answer);
            e.Some? ==> CountsOk(e.value.call) && e.value.call.mxid == s.calls[d].mxid
  {
  }

  lemma WipingCounts(s: State, d: nat, answer: Answer)
    requires d in s.calls && CountsOk(s.calls[d]) && (s.calls[d].pc.Evict? || s.calls[d].pc.Wipe? || s.calls[d].pc.AwaitPublication?)
    ensures var e := VerifySection(s, d, answer);
            e.Some? ==> CountsOk(e.value.call) && e.value.call.mxid == s.calls[d].mxid
  {
  }

  lemma VerifyingCounts(s: State, d: nat, answer: Answer)
    requires d in s.calls && !Obtaining(s.calls[d].pc) && CountsOk(s.calls[d])
    ensures var e := VerifySection(s, d, answer);
            e.Some? ==> CountsOk(e.value.call) && e.value.call.mxid == s.calls[d].mxid
  {
    hide CountsOk;
    var pc := s.calls[d].pc;
    if pc.ReadFlag? || pc.Ask? {
      AskingCounts(s, d, answer);
    } else if pc.Claim? || pc.CheckBackup? {
      ClaimingCounts(s, d, answer);
    } else if !pc.Done? {
      WipingCounts(s, d, answer);
    }
  }

  lemma AskingFacts(s: State, d: nat, answer: Answer)
    requires d in s.calls && (s.calls[d].pc.ReadFlag? || s.calls[d].pc.Ask?) && VerifySection(s, d, answer).Some?
    ensures var c, e := s.calls[d], VerifySection(s, d, answer).value;
            && |e.facts| <= 1
            && (e.facts == [] ==> !Healing(e.call.pc) && e.healed == s.healed)
            && (e.facts != [] ==>
                  var f := e.facts[0];
                  && s.healed <= e.healed
                  && (f.Claimed? ==> f.mxid !in s.healed && f.mxid in e.healed)
                  && (f.Wiped? <==> c.pc.Wipe?)
                  && (f.Wiped? ==> f == Wiped(c.mxid, d))
                  && (f.BackupConfirmed? ==> c.pc.CheckBackup? && f == BackupConfirmed(c.mxid, d)))
  {
    hide HealSection;
  }

  lemma HealingFacts(s: State, d: nat, answer: Answer)
    requires d in s.calls && HealSection(s, d, answer).Some?
    ensures var c, e := s.calls[d], HealSection(s, d, answer).value;
            && |e.facts| <= 1
            && (e.facts == [] ==> !Healing(e.call.pc) && e.healed == s.healed)
            && (e.facts != [] ==>
                  var f := e.facts[0];
                  && s.healed <= e.healed
                  && (f.Claimed? ==> f.mxid !in s.healed && f.mxid in e.healed)
                  && (f.Wiped? <==> c.pc.Wipe?)
                  && (f.Wiped? ==> f == Wiped(c.mxid, d))
                  && (f.BackupConfirmed? ==> c.pc.CheckBackup? && f == BackupConfirmed(c.mxid, d)))
  {
  }

  lemma VerifyingFacts(s: State, d: nat, answer: Answer)
    requires d in s.calls && !Obtaining(s.calls[d].pc) && VerifySection(s, d, answer).Some?
    ensures var c, e := s.calls[d], VerifySection(s, d, answer).value;
            && |e.facts| <= 1
            && (e.facts == [] ==> !Healing(e.call.pc) && e.healed == s.healed)
            && (e.facts != [] ==>
                  var f := e.facts[0];
                  && s.healed <= e.healed
                  && (f.Claimed? ==> f.mxid !in s.healed && f.mxid in e.healed)
                  && (f.Wiped? <==> c.pc.Wipe?)
                  && (f.Wiped? ==> f == Wiped(c.mxid, d))
                  && (f.BackupConfirmed? ==> c.pc.CheckBackup? && f == BackupConfirmed(c.mxid, d)))
  {
    hide HealSection;
    if s.calls[d].pc.ReadFlag? || s.calls[d].pc.Ask? {
      AskingFacts(s, d, answer);
    } else {
      HealingFacts(s, d, answer);
    }
  }

  lemma CountsStep(s: State, d: nat, answer: Answer, newId: nat)
    requires d in s.calls && CountsOk(s.calls[d])
    ensures var e := Section(s, d, answer, newId);
            e.Some? ==> CountsOk(e.value.call) && e.value.call.mxid == s.calls[d].mxid
  {
    hide ObtainSection, VerifySection, CountsOk;
    if Obtaining(s.calls[d].pc) { ObtainingIsQuiet(s, d, answer, newId); } else { VerifyingCounts(s, d, answer); }
  }

  /** What a section may log. */
  lemma SectionFacts(s: State, d: nat, answer: Answer, newId: nat)
    requires d in s.calls && CountsOk(s.calls[d]) && Section(s, d, answer, newId).Some?
    ensures var c, e := s.calls[d], Section(s, d, answer, newId).value;
            && |e.facts| <= 1
            && (e.facts == [] ==> !Healing(e.call.pc) && e.healed == s.healed)
            && (e.facts != [] ==>
                  var f := e.facts[0];
                  && s.healed <= e.healed
                  && (f.Claimed? ==> f.mxid !in s.healed && f.mxid in e.healed)
                  && (f.Wiped? <==> c.pc.Wipe?)
                  && (f.Wiped? ==> f == Wiped(c.mxid, d))
                  && (f.BackupConfirmed? ==> c.pc.CheckBackup? && f == BackupConfirmed(c.mxid, d)))
  {
    hide ObtainSection, VerifySection, CountsOk;
    if Obtaining(s.calls[d].pc) { ObtainingIsQuiet(s, d, answer, newId); } else { VerifyingFacts(s, d, answer); }
  }

  lemma AskingFlags(s: State, d: nat, answer: Answer, k: nat)
    requires d in s.calls && (s.calls[d].pc.ReadFlag? || s.calls[d].pc.Ask?) && VerifySection(s, d, answer).Some?
    ensures var e := VerifySection(s, d, answer).value;
            k in e.clients && e.clients[k].keysVerified ==>
              (k in s.clients && s.clients[k].keysVerified) || e.facts == [Announced(k)]
  {
    hide HealSection;
  }

  lemma HealingFlags(s: State, d: nat, answer: Answer)
    requires d in s.calls && HealSection(s, d, answer).Some?
    ensures HealSection(s, d, answer).value.clients == s.clients
  {
  }

  /** Only the homeserver's yes sets a verified flag. */
  lemma SectionFlags(s: State, d: nat, answer: Answer, newId: nat, k: nat)
    requires d in s.calls && CountsOk(s.calls[d]) && Section(s, d, answer, newId).Some?
    ensures var e := Section(s, d, answer, newId).value;
            k in e.clients && e.clients[k].keysVerified ==>
              (k in s.clients && s.clients[k].keysVerified) || e.facts == [Announced(k)]
  {
    hide ObtainSection, HealSection, CountsOk;
    if Obtaining(s.calls[d].pc) {
      ObtainingIsQuiet(s, d, answer, newId);
    } else if s.calls[d].pc.ReadFlag? || s.calls[d].pc.Ask? {
      AskingFlags(s, d, answer, k);
    } else {
      HealingFlags(s, d, answer);
    }
  }

  lemma CountsKept(s: State, e: Event, t: State)
    requires Inv(s) && Next(s, e, t)
    ensures forall d :: d in t.calls ==> CountsOk(t.calls[d])
  {
    hide Section, HealOk, LogOk, VerifiedOk;
    if e.Step? {
      CountsStep(s, e.d, e.answer, e.newId);
    } else if e.Abandon? && s.calls[e.d].pc.Wipe? {
      CountsStep(s, e.d, Failed, 0);
    }
  }

  /** A call's section that logs nothing sets no flag and starts no heal. */
  lemma QuietSection(s: State, d: nat, answer: Answer, newId: nat, t: State)
    requires Inv(s) && d in s.calls && StepOf(s, d, answer, newId, t) && t.log == s.log
    ensures t.healed == s.healed && !Healing(t.calls[d].pc)
    ensures forall k :: k in t.clients && t.clients[k].keysVerified ==> k in s.clients && s.clients[k].keysVerified
  {
    hide Section, LogOk, EverWiped, InOrder, Before, CountsOk;
    SectionFacts(s, d, answer, newId);
    forall k | k in t.clients && t.clients[k].keysVerified ensures k in s.clients && s.clients[k].keysVerified {
      SectionFlags(s, d, answer, newId, k);
    }
  }

  /** A step that logs nothing. */
  lemma QuietStepKeepsInv(s: State, e: Event, t: State)
    requires Inv(s) && Next(s, e, t) && t.log == s.log
    ensures Inv(t)
  {
    hide Section, LogOk, EverWiped, InOrder, Before, CountsOk;
    CountsKept(s, e, t);
    if e.Step? {
      QuietSection(s, e.d, e.answer, e.newId, t);
    } else if e.Abandon? && s.calls[e.d].pc.Wipe? {
      QuietSection(s, e.d, Failed, 0, t);
    }
    forall d | d in t.calls && Healing(t.calls[d].pc) ensures HealOk(t, d, t.calls[d]) {
      assert d in s.calls && t.calls[d] == s.calls[d] && HealOk(s, d, s.calls[d]);
    }
  }

  /** A step that logs something. */
  lemma LoggingStepKeepsInv(s: State, d: nat, answer: Answer, newId: nat, t: State)
    requires Inv(s) && d in s.calls && StepOf(s, d, answer, newId, t) && t.log != s.log
    ensures Inv(t)
  {
    hide Section, LogOk, EverWiped, InOrder, Before, VerifiedOk, CountsOk;
    CountsKept(s, Step(d, answer, newId), t);
    SectionFacts(s, d, answer, newId);
    var c, effect := s.calls[d], Section(s, d, answer, newId).value;
    var f := effect.facts[0];
    assert effect.facts == [f];
    assert Healing(c.pc) ==> HealOk(s, d, c);
    LogGrows(s.healed, t.healed, s.log, f);
    forall k | k in t.clients && t.clients[k].keysVerified
      ensures (k in s.clients && s.clients[k].keysVerified) || f == Announced(k)
    {
      SectionFlags(s, d, answer, newId, k);
    }
    VerifiedOkGrows(s, t, f);
    forall e | e in t.calls && Healing(t.calls[e].pc) ensures HealOk(t, e, t.calls[e]) {
      if e == d {
        HealAdvances(s, d, answer, newId, t);
      } else {
        assert t.calls[e] == s.calls[e] && HealOk(s, e, s.calls[e]);
        if c.pc.Wipe? {
          HealersDiffer(s, d, e);
        }
        HealOkGrows(s, t, e, s.calls[e], f);
      }
    }
  }

  lemma AskingStartsNoHeal(s: State, d: nat, answer: Answer)
    requires d in s.calls && (s.calls[d].pc.ReadFlag? || s.calls[d].pc.Ask?) && VerifySection(s, d, answer).Some?
    ensures !Healing(VerifySection(s, d, answer).value.call.pc)
  {
    hide HealSection;
  }

  lemma HealGoesOn(s: State, d: nat, answer: Answer)
    requires d in s.calls && HealSection(s, d, answer).Some? && Healing(HealSection(s, d, answer).value.call.pc)
    ensures s.calls[d].pc.Claim? || s.calls[d].pc.CheckBackup? || s.calls[d].pc.Evict?
  {
  }

  /** Only a claim, a backup check and an eviction leave a call in its heal. */
  lemma HealingContinues(s: State, d: nat, answer: Answer, newId: nat)
    requires d in s.calls && CountsOk(s.calls[d])
    requires Section(s, d, answer, newId).Some? && Healing(Section(s, d, answer, newId).value.call.pc)
    ensures s.calls[d].pc.Claim? || s.calls[d].pc.CheckBackup? || s.calls[d].pc.Evict?
  {
    hide ObtainSection, HealSection, CountsOk, Healing;
    if Obtaining(s.calls[d].pc) {
      ObtainingIsQuiet(s, d, answer, newId);
    } else if s.calls[d].pc.ReadFlag? || s.calls[d].pc.Ask? {
      AskingStartsNoHeal(s, d, answer);
    } else {
      HealGoesOn(s, d, answer);
    }
  }

  lemma ClaimSection(s: State, d: nat, answer: Answer, newId: nat)
    requires d in s.calls && s.calls[d].pc.Claim? && Section(s, d, answer, newId).Some?
    ensures var c, e := s.calls[d], Section(s, d, answer, newId).value;
            Healing(e.call.pc) ==>
              e.call == c.(pc := CheckBackup(c.pc.client)) && e.facts == [Claimed(c.mxid, d)]
              && c.mxid !in s.healed && e.healed == s.healed + {c.mxid}
  {
    hide ObtainSection;
  }

  lemma BackupAndEvictSections(s: State, d: nat, answer: Answer, newId: nat)
    requires d in s.calls && Section(s, d, answer, newId).Some? && (s.calls[d].pc.CheckBackup? || s.calls[d].pc.Evict?)
    ensures var c, e := s.calls[d], Section(s, d, answer, newId).value;
            Healing(e.call.pc) ==>
              && e.call == c.(pc := if c.pc.Evict? then Wipe else Evict) && e.healed == s.healed
              && e.facts == [if c.pc.Evict? then Evicted(c.mxid, d) else BackupConfirmed(c.mxid, d)]
  {
    hide ObtainSection;
  }

  lemma HealAdvances(s: State, d: nat, answer: Answer, newId: nat, t: State)
    requires Inv(s) && d in s.calls && StepOf(s, d, answer, newId, t)
    requires d in t.calls && Healing(t.calls[d].pc)
    ensures HealOk(t, d, t.calls[d])
  {
    hide Section, EverWiped, InOrder, Before, VerifiedOk, CountsOk, LogOk;
    HealingContinues(s, d, answer, newId);
    var c := s.calls[d];
    if c.pc.Claim? {
      ClaimSection(s, d, answer, newId);
      NeverWipedUnclaimed(s, c.mxid, Claimed(c.mxid, d));
      BeforeSnoc(s.log, Claimed(c.mxid, d));
    } else if c.pc.CheckBackup? {
      BackupAndEvictSections(s, d, answer, newId);
      assert HealOk(s, d, c);
      HealOkGrows(s, t, d, c, BackupConfirmed(c.mxid, d));
      InOrderSnoc(s.log, Claimed(c.mxid, d), BackupConfirmed(c.mxid, d));
    } else {
      BackupAndEvictSections(s, d, answer, newId);
      assert HealOk(s, d, c);
      HealOkGrows(s, t, d, c, Evicted(c.mxid, d));
      InOrderIsBefore(s.log, Claimed(c.mxid, d), BackupConfirmed(c.mxid, d));
      InOrderSnoc(s.log, BackupConfirmed(c.mxid, d), Evicted(c.mxid, d));
    }
  }

  lemma InOrderIsBefore(log: seq<Fact>, f: Fact, g: Fact)
    requires InOrder(log, |log|, f, g)
    ensures Before(log, |log|, g)
  {
  }

  /** Whoever was wiped had claimed its heal. */
  lemma WipedIsHealed(healed: set<string>, log: seq<Fact>, k: nat)
    requires LogOk(healed, log) && k < |log| && log[k].Wiped?
    ensures log[k].mxid in healed
  {
    var i, j :| 0 <= i < j < k && log[i] == Claimed(log[k].mxid, log[k].call) && log[j] == BackupConfirmed(log[k].mxid, log[k].call);
  }

  lemma NeverWipedUnclaimed(s: State, mxid: string, claim: Fact)
    requires LogOk(s.healed, s.log) && mxid !in s.healed && claim.Claimed?
    ensures !EverWiped(s.log + [claim], mxid)
  {
    hide LogOk;
    var log := s.log + [claim];
    forall k | 0 <= k < |log| && log[k].Wiped? ensures log[k].mxid != mxid {
      WipedIsHealed(s.healed, s.log, k);
    }
  }

  /** Every step keeps the invariant. */
  lemma StepKeepsInv(s: State, e: Event, t: State)
    requires Inv(s) && Next(s, e, t)
    ensures Inv(t)
  {
    hide Inv, Section;
    if t.log == s.log {
      QuietStepKeepsInv(s, e, t);
    } else if e.Abandon? {
      LoggingStepKeepsInv(s, e.d, Failed, 0, t);
    } else {
      LoggingStepKeepsInv(s, e.d, e.answer, e.newId, t);
    }
  }

  // ---- Whole runs ---------------------------------------------------------------------

  ghost predicate Run(states: seq<State>, events: seq<Event>) {
    && |states| == |events| + 1
    && Init(states[0])
    && forall i :: 0 <= i < |events| ==> Next(states[i], events[i], states[i + 1])
  }

  lemma {:induction false} InvHoldsThroughout(states: seq<State>, events: seq<Event>, i: nat)
    requires Run(states, events) && i < |states|
    ensures Inv(states[i])
    decreases i
  {
    if i > 0 {
      hide Next, Inv;
      InvHoldsThroughout(states, events, i - 1);
      StepKeepsInv(states[i - 1], events[i - 1], states[i]);
    }
  }

  /** In every run each identity's store is wiped at most once, and only by a call that claimed the
      identity's heal, then heard that the key backup is recoverable, then evicted the client, in
      that order. */
  lemma StoreIsWipedAtMostOnceAndWithCause(states: seq<State>, events: seq<Event>, i: nat, k: nat)
    requires Run(states, events) && i < |states|
    requires k < |states[i].log| && states[i].log[k].Wiped?
    ensures var log, m, d := states[i].log, states[i].log[k].mxid, states[i].log[k].call;
            && (forall j :: 0 <= j < |log| && log[j].Wiped? && log[j].mxid == m ==> j == k)
            && exists a, b, c :: 0 <= a < b < c < k && log[a] == Claimed(m, d) && log[b] == BackupConfirmed(m, d) && log[c] == Evicted(m, d)
  {
    InvHoldsThroughout(states, events, i);
    var log, m, d := states[i].log, states[i].log[k].mxid, states[i].log[k].call;
    assert InOrder(log, k, Claimed(m, d), BackupConfirmed(m, d)) && InOrder(log, k, BackupConfirmed(m, d), Evicted(m, d));
    var a, b0 :| 0 <= a < b0 < k && log[a] == Claimed(m, d) && log[b0] == BackupConfirmed(m, d);
    var b, c :| 0 <= b < c < k && log[b] == BackupConfirmed(m, d) && log[c] == Evicted(m, d);
    ClaimComesFirst(states, events, i, m, d, a, b);
  }

  /** A backup is confirmed only after the claim: a confirmed heal has its own claim before it. */
  lemma ClaimComesFirst(states: seq<State>, events: seq<Event>, i: nat, m: string, d: nat, a: nat, b: nat)
    requires Run(states, events) && i < |states|
    requires a < |states[i].log| && b < |states[i].log|
    requires states[i].log[a] == Claimed(m, d) && states[i].log[b] == BackupConfirmed(m, d)
    ensures a < b
  {
    ConfirmationsFollowClaims(states, events, i, b);
    InvHoldsThroughout(states, events, i);
    var log := states[i].log;
    var a' :| 0 <= a' < b && log[a'] == Claimed(m, d);
    assert a == a' || a < a' || a' < a;
  }

  lemma {:induction false} ConfirmationsFollowClaims(states: seq<State>, events: seq<Event>, i: nat, b: nat)
    requires Run(states, events) && i < |states|
    requires b < |states[i].log| && states[i].log[b].BackupConfirmed?
    ensures Before(states[i].log, b, Claimed(states[i].log[b].mxid, states[i].log[b].call))
    decreases i
  {
    hide Section, Inv;
    if i > 0 {
      var s, t := states[i - 1], states[i];
      InvHoldsThroughout(states, events, i - 1);
      assert Next(s, events[i - 1], t);
      LogStep(s, events[i - 1], t);
      if b < |s.log| {
        ConfirmationsFollowClaims(states, events, i - 1, b);
        var a :| 0 <= a < b && s.log[a] == Claimed(s.log[b].mxid, s.log[b].call);
        assert t.log[a] == s.log[a];
      } else {
        var a :| 0 <= a < |s.log| && s.log[a] == Claimed(t.log[b].mxid, t.log[b].call);
        assert t.log[a] == s.log[a];
      }
    }
  }

  /** A step adds at most one fact, and a confirmation only behind its own claim. */
  lemma LogStep(s: State, e: Event, t: State)
    requires Inv(s) && Next(s, e, t)
    ensures s.log <= t.log && |t.log| <= |s.log| + 1
    ensures |t.log| > |s.log| && t.log[|s.log|].BackupConfirmed? ==>
              Before(s.log, |s.log|, Claimed(t.log[|s.log|].mxid, t.log[|s.log|].call))
  {
    hide ObtainSection, LogOk, VerifiedOk, InOrder, EverWiped, Before, CountsOk;
    if e.Step? {
      SectionFacts(s, e.d, e.answer, e.newId);
      assert s.calls[e.d].pc.CheckBackup? ==> HealOk(s, e.d, s.calls[e.d]);
    }
  }

  /** `keys_verified` is set only on a client the homeserver announced. */
  lemma VerifiedMeansAnnounced(states: seq<State>, events: seq<Event>, i: nat, client: nat)
    requires Run(states, events) && i < |states|
    requires client in states[i].clients && states[i].clients[client].keysVerified
    ensures Announced(client) in states[i].log
  {
    InvHoldsThroughout(states, events, i);
    var k :| 0 <= k < |states[i].log| && states[i].log[k] == Announced(client);
  }

  /** One call builds at most two clients and asks the homeserver at most twice before the
      publication wait; a call that has recursed never claims, evicts or wipes again. */
  lemma CallsAreBounded(states: seq<State>, events: seq<Event>, i: nat, d: nat)
    requires Run(states, events) && i < |states| && d in states[i].calls
    ensures var c := states[i].calls[d];
            && c.builds <= 2 && c.queries <= 2
            && (!c.retry ==> c.builds <= 1 && c.queries <= 1)
            && (c.retry ==> !c.pc.Claim? && !c.pc.CheckBackup? && !c.pc.Evict? && !c.pc.Wipe?)
  {
    InvHoldsThroughout(states, events, i);
    assert CountsOk(states[i].calls[d]);
  }

  // ---- Whose client a call returns ------------------------------------------------------

  /** The cell a call waits for or fills. */
  function CellOf(pc: Pc): Option<nat> {
    match pc
    case InCell(cell) => Some(cell)
    case Filling(cell) => Some(cell)
    case _ => None
  }

  /** The client a call works with or has returned. */
  function ClientOf(pc: Pc): Option<nat> {
    match pc
    case Refresh(client) => Some(client)
    case ReadFlag(client) => Some(client)
    case Ask(client) => Some(client)
    case Claim(client) => Some(client)
    case CheckBackup(client) => Some(client)
    case AwaitPublication(client) => Some(client)
    case Done(result) => result
    case _ => None
  }

  predicate IsOf(clients: map<nat, Client>, client: nat, mxid: string) {
    client in clients && clients[client].mxid == mxid
  }

  /** A call is at a cell of its identity, fills it alone, and works with a client of its identity. */
  ghost predicate CallOk(cells: map<nat, Cell>, clients: map<nat, Client>, owners: map<nat, string>, d: nat, c: Call) {
    && (CellOf(c.pc).Some? ==> CellOf(c.pc).value in owners && owners[CellOf(c.pc).value] == c.mxid)
    && (c.pc.Filling? ==> c.pc.cell in cells && cells[c.pc.cell] == Building(d))
    && (ClientOf(c.pc).Some? ==> IsOf(clients, ClientOf(c.pc).value, c.mxid))
  }

  ghost predicate CacheOk(cache: map<string, nat>, owners: map<nat, string>) {
    forall m :: m in cache ==> cache[m] in owners && owners[cache[m]] == m
  }

  ghost predicate CellsOk(cells: map<nat, Cell>, clients: map<nat, Client>, owners: map<nat, string>, calls: map<nat, Call>) {
    && owners.Keys == cells.Keys
    && (forall c :: c in cells && cells[c].Full? ==> IsOf(clients, cells[c].client, owners[c]))
    && (forall c :: c in cells && cells[c].Building? ==> cells[c].call in calls && calls[cells[c].call].pc == Filling(c))
  }

  /** A cell belongs to one identity, its cache entry and its calls; a full one holds a client of that
      identity; and one being filled is filled by a call that is at it. */
  ghost predicate ClientsOk(s: State) {
    && CacheOk(s.cache, s.owners)
    && CellsOk(s.cells, s.clients, s.owners, s.calls)
    && (forall d :: d in s.calls ==> CallOk(s.cells, s.clients, s.owners, d, s.calls[d]))
  }

  /** No client changes hands. */
  ghost predicate ClientsStay(before: map<nat, Client>, after: map<nat, Client>) {
    forall k, m :: IsOf(before, k, m) ==> IsOf(after, k, m)
  }

  /** A section that touches no cell keeps everyone's clients, if the call's own is in order. */
  lemma QuietSectionKeepsClients(s: State, d: nat, e: Effect)
    requires ClientsOk(s) && d in s.calls && !s.calls[d].pc.Filling?
    requires e.cells == s.cells && e.owners == s.owners && ClientsStay(s.clients, e.clients)
    requires forall m :: m in e.cache ==> m in s.cache && e.cache[m] == s.cache[m]
    requires CallOk(e.cells, e.clients, e.owners, d, e.call)
    ensures ClientsOk(Apply(s, d, e))
  {
    var t := Apply(s, d, e);
    forall c | c in t.cells && t.cells[c].Building? ensures t.cells[c].call in t.calls && t.calls[t.cells[c].call].pc == Filling(c) {
      assert s.cells[c].Building?;
    }
  }

  lemma NewCellLeavesCalls(s: State, k: nat, m: string, cell: nat)
    requires ClientsOk(s) && k in s.calls && cell !in s.cells
    ensures CallOk(s.cells[cell := Vacant], s.clients, s.owners[cell := m], k, s.calls[k])
  {
    assert CallOk(s.cells, s.clients, s.owners, k, s.calls[k]);
    assert cell !in s.owners;
  }

  lemma NewCellLeavesCells(s: State, d: nat, m: string, cell: nat, call: Call)
    requires ClientsOk(s) && d in s.calls && !s.calls[d].pc.Filling? && cell !in s.cells && m !in s.cache
    ensures CellsOk(s.cells[cell := Vacant], s.clients, s.owners[cell := m], s.calls[d := call])
    ensures CacheOk(s.cache[m := cell], s.owners[cell := m])
  {
    hide CallOk;
  }

  /** A new cell is nobody else's. */
  lemma NewCellKeepsClients(s: State, d: nat, m: string, cell: nat, e: Effect)
    requires ClientsOk(s) && d in s.calls && !s.calls[d].pc.Filling? && cell !in s.cells && m !in s.cache
    requires e.cells == s.cells[cell := Vacant] && e.owners == s.owners[cell := m] && e.clients == s.clients
    requires e.cache == s.cache[m := cell] && e.call.mxid == m && e.call.pc == InCell(cell)
    ensures ClientsOk(Apply(s, d, e))
  {
    hide CellsOk, CacheOk;
    NewCellLeavesCells(s, d, m, cell, e.call);
    assert CallOk(e.cells, e.clients, e.owners, d, e.call);
    OthersOk(s, d, e) by {
      forall k | k in s.calls ensures CallOk(e.cells, e.clients, e.owners, k, s.calls[k]) {
        NewCellLeavesCalls(s, k, m, cell);
      }
    }
  }

  /** A call changes nothing for the others. */
  lemma OthersOk(s: State, d: nat, e: Effect)
    requires d in s.calls && forall k :: k in s.calls && k != d ==> CallOk(e.cells, e.clients, e.owners, k, s.calls[k])
    requires CallOk(e.cells, e.clients, e.owners, d, e.call)
    ensures forall k :: k in Apply(s, d, e).calls ==> CallOk(e.cells, e.clients, e.owners, k, Apply(s, d, e).calls[k])
  {
    hide CallOk;
  }

  /** A build begins in a vacant cell, by the one call that then fills it. */
  lemma BuildBeginsKeepsClients(s: State, d: nat, cell: nat, e: Effect)
    requires ClientsOk(s) && d in s.calls && s.calls[d].pc == InCell(cell) && cell in s.cells && s.cells[cell] == Vacant
    requires e.cells == s.cells[cell := Building(d)] && e.owners == s.owners && e.clients == s.clients && e.cache == s.cache
    requires e.call.mxid == s.calls[d].mxid && e.call.pc == Filling(cell)
    ensures ClientsOk(Apply(s, d, e))
  {
    forall k | k in s.calls ensures k == d || CallOk(e.cells, e.clients, e.owners, k, s.calls[k]) {
      assert CallOk(s.cells, s.clients, s.owners, k, s.calls[k]);
    }
  }

  lemma BuildEndLeavesCalls(s: State, d: nat, cell: nat, k: nat, cells: map<nat, Cell>, clients: map<nat, Client>)
    requires ClientsOk(s) && d in s.calls && s.calls[d].pc == Filling(cell) && k in s.calls && k != d
    requires ClientsStay(s.clients, clients) && forall c :: c in s.cells && c != cell ==> c in cells && cells[c] == s.cells[c]
    ensures CallOk(cells, clients, s.owners, k, s.calls[k])
  {
    assert CallOk(s.cells, s.clients, s.owners, d, s.calls[d]);
    assert CallOk(s.cells, s.clients, s.owners, k, s.calls[k]);
  }

  lemma BuildEndLeavesCells(s: State, d: nat, cell: nat, e: Effect)
    requires ClientsOk(s) && d in s.calls && s.calls[d].pc == Filling(cell) && cell in s.cells
    requires e.owners == s.owners && e.cache == s.cache && ClientsStay(s.clients, e.clients) && e.call.mxid == s.calls[d].mxid
    requires e.cells == s.cells[cell := Vacant]
          || exists k :: e.cells == s.cells[cell := Full(k)] && IsOf(e.clients, k, e.call.mxid)
    requires CellOf(e.call.pc) == None && (ClientOf(e.call.pc).Some? ==> IsOf(e.clients, ClientOf(e.call.pc).value, e.call.mxid))
    ensures CellsOk(e.cells, e.clients, e.owners, s.calls[d := e.call])
  {
    CallIsOk(s, d);
    hide CallOk;
    forall c | c in e.cells && e.cells[c].Building?
      ensures e.cells[c].call in s.calls[d := e.call] && s.calls[d := e.call][e.cells[c].call].pc == Filling(c)
    {
      assert c != cell && s.cells[c].Building?;
    }
  }

  /** A build ends in the cell of its call, with a client of that call's identity or with none. */
  lemma BuildEndsKeepsClients(s: State, d: nat, cell: nat, e: Effect)
    requires ClientsOk(s) && d in s.calls && s.calls[d].pc == Filling(cell) && cell in s.cells
    requires e.owners == s.owners && e.cache == s.cache && ClientsStay(s.clients, e.clients) && e.call.mxid == s.calls[d].mxid
    requires e.cells == s.cells[cell := Vacant]
          || exists k :: e.cells == s.cells[cell := Full(k)] && IsOf(e.clients, k, e.call.mxid)
    requires CellOf(e.call.pc) == None && (ClientOf(e.call.pc).Some? ==> IsOf(e.clients, ClientOf(e.call.pc).value, e.call.mxid))
    ensures ClientsOk(Apply(s, d, e))
  {
    hide CellsOk, CacheOk;
    CallIsOk(s, d);
    BuildEndLeavesCells(s, d, cell, e);
    assert CallOk(e.cells, e.clients, e.owners, d, e.call);
    forall k | k in s.calls && k != d ensures CallOk(e.cells, e.clients, e.owners, k, s.calls[k]) {
      BuildEndLeavesCalls(s, d, cell, k, e.cells, e.clients);
    }
    OthersOk(s, d, e);
  }

  lemma LookingUpKeepsClients(s: State, d: nat, answer: Answer, newId: nat)
    requires ClientsOk(s) && d in s.calls && (s.calls[d].pc.Lookup? || s.calls[d].pc.StaleCheck?)
    ensures var e := ObtainSection(s, d, answer, newId);
            e.Some? && ClientsOk(Apply(s, d, e.value))
  {
    hide Live, ClientsOk, Apply;
    var e := ObtainSection(s, d, answer, newId).value;
    CachedIsOwn(s, s.calls[d].mxid);
    QuietSectionKeepsClients(s, d, e);
  }

  lemma CachedIsOwn(s: State, m: string)
    requires ClientsOk(s)
    ensures Cached(s, m).Some? ==> IsOf(s.clients, Cached(s, m).value, m)
    ensures m in s.cache ==> s.cache[m] in s.owners && s.owners[s.cache[m]] == m
  {
  }

  lemma GettingCellKeepsClients(s: State, d: nat, answer: Answer, newId: nat)
    requires ClientsOk(s) && d in s.calls && s.calls[d].pc.GetCell?
    ensures var e := ObtainSection(s, d, answer, newId);
            e.Some? ==> ClientsOk(Apply(s, d, e.value))
  {
    hide ClientsOk, Apply;
    var c, e := s.calls[d], ObtainSection(s, d, answer, newId);
    if c.mxid in s.cache {
      CachedIsOwn(s, c.mxid);
      QuietSectionKeepsClients(s, d, e.value);
    } else if newId !in s.cells {
      NewCellKeepsClients(s, d, c.mxid, newId, e.value);
    }
  }

  lemma CallIsOk(s: State, d: nat)
    requires ClientsOk(s) && d in s.calls
    ensures CallOk(s.cells, s.clients, s.owners, d, s.calls[d])
  {
  }

  lemma FullIsOwn(s: State, d: nat, cell: nat)
    requires ClientsOk(s) && d in s.calls && CellOf(s.calls[d].pc) == Some(cell) && cell in s.cells && s.cells[cell].Full?
    ensures IsOf(s.clients, s.cells[cell].client, s.calls[d].mxid)
  {
    CallIsOk(s, d);
  }

  lemma EnteringKeepsClients(s: State, d: nat, answer: Answer, newId: nat)
    requires ClientsOk(s) && d in s.calls && s.calls[d].pc.InCell?
    ensures var e := ObtainSection(s, d, answer, newId);
            e.Some? ==> ClientsOk(Apply(s, d, e.value))
  {
    hide ClientsOk, Apply;
    var cell, e := s.calls[d].pc.cell, ObtainSection(s, d, answer, newId);
    if cell in s.cells && s.cells[cell].Full? {
      FullIsOwn(s, d, cell);
      QuietSectionKeepsClients(s, d, e.value);
    } else if cell in s.cells && s.cells[cell].Vacant? {
      BuildBeginsKeepsClients(s, d, cell, e.value);
    }
  }

  lemma FillingKeepsClients(s: State, d: nat, answer: Answer, newId: nat)
    requires ClientsOk(s) && d in s.calls && s.calls[d].pc.Filling?
    ensures var e := ObtainSection(s, d, answer, newId);
            e.Some? ==> ClientsOk(Apply(s, d, e.value))
  {
    hide ClientsOk, Apply;
    CallIsOk(s, d);
    var cell, e := s.calls[d].pc.cell, ObtainSection(s, d, answer, newId);
    if e.Some? {
      assert answer == Yes ==> e.value.cells == s.cells[cell := Full(newId)];
      BuildEndsKeepsClients(s, d, cell, e.value);
    }
  }

  lemma RefreshingKeepsClients(s: State, d: nat, answer: Answer, newId: nat)
    requires ClientsOk(s) && d in s.calls && s.calls[d].pc.Refresh?
    ensures var e := ObtainSection(s, d, answer, newId);
            e.Some? ==> ClientsOk(Apply(s, d, e.value))
  {
    hide ClientsOk, Apply;
    CallIsOk(s, d);
    QuietSectionKeepsClients(s, d, ObtainSection(s, d, answer, newId).value);
  }

  lemma AskingKeepsItsClient(s: State, d: nat, answer: Answer)
    requires d in s.calls && (s.calls[d].pc.ReadFlag? || s.calls[d].pc.Ask?)
    ensures var c, e := s.calls[d], VerifySection(s, d, answer);
            e.Some? ==>
              && e.value.cells == s.cells && e.value.owners == s.owners && ClientsStay(s.clients, e.value.clients)
              && (e.value.cache == s.cache || e.value.cache == s.cache - {c.mxid})
              && e.value.call.mxid == c.mxid && CellOf(e.value.call.pc) == None
              && (ClientOf(e.value.call.pc).Some? ==> ClientOf(e.value.call.pc) == ClientOf(c.pc))
  {
    hide HealSection;
  }

  lemma ClaimKeepsItsClient(s: State, d: nat, answer: Answer)
    requires d in s.calls && HealSection(s, d, answer).Some? && (s.calls[d].pc.Claim?)
    ensures var c, e := s.calls[d], HealSection(s, d, answer).value;
            && e.cells == s.cells && e.owners == s.owners && e.clients == s.clients
            && (e.cache == s.cache || e.cache == s.cache - {c.mxid})
            && e.call.mxid == c.mxid && CellOf(e.call.pc) == None
            && (ClientOf(e.call.pc).Some? ==> ClientOf(e.call.pc) == ClientOf(c.pc))
  {
  }

  lemma BackupKeepsItsClient(s: State, d: nat, answer: Answer)
    requires d in s.calls && HealSection(s, d, answer).Some? && (s.calls[d].pc.CheckBackup?)
    ensures var c, e := s.calls[d], HealSection(s, d, answer).value;
            && e.cells == s.cells && e.owners == s.owners && e.clients == s.clients
            && (e.cache == s.cache || e.cache == s.cache - {c.mxid})
            && e.call.mxid == c.mxid && CellOf(e.call.pc) == None
            && (ClientOf(e.call.pc).Some? ==> ClientOf(e.call.pc) == ClientOf(c.pc))
  {
  }

  lemma EvictKeepsItsClient(s: State, d: nat, answer: Answer)
    requires d in s.calls && HealSection(s, d, answer).Some? && (s.calls[d].pc.Evict? || s.calls[d].pc.AwaitPublication?)
    ensures var c, e := s.calls[d], HealSection(s, d, answer).value;
            && e.cells == s.cells && e.owners == s.owners && e.clients == s.clients
            && (e.cache == s.cache || e.cache == s.cache - {c.mxid})
            && e.call.mxid == c.mxid && CellOf(e.call.pc) == None
            && (ClientOf(e.call.pc).Some? ==> ClientOf(e.call.pc) == ClientOf(c.pc))
  {
  }

  lemma WipeKeepsItsClient(s: State, d: nat, answer: Answer)
    requires d in s.calls && HealSection(s, d, answer).Some? && (s.calls[d].pc.Wipe?)
    ensures var c, e := s.calls[d], HealSection(s, d, answer).value;
            && e.cells == s.cells && e.owners == s.owners && e.clients == s.clients
            && (e.cache == s.cache || e.cache == s.cache - {c.mxid})
            && e.call.mxid == c.mxid && CellOf(e.call.pc) == None
            && (ClientOf(e.call.pc).Some? ==> ClientOf(e.call.pc) == ClientOf(c.pc))
  {
  }

  lemma HealsFrom(s: State, d: nat, answer: Answer)
    requires d in s.calls && HealSection(s, d, answer).Some?
    ensures var pc := s.calls[d].pc;
            pc.Claim? || pc.CheckBackup? || pc.Evict? || pc.Wipe? || pc.AwaitPublication?
  {
  }

  lemma HealingKeepsItsClient(s: State, d: nat, answer: Answer)
    requires d in s.calls && HealSection(s, d, answer).Some?
    ensures var c, e := s.calls[d], HealSection(s, d, answer).value;
            && e.cells == s.cells && e.owners == s.owners && ClientsStay(s.clients, e.clients)
            && (e.cache == s.cache || e.cache == s.cache - {c.mxid})
            && e.call.mxid == c.mxid && CellOf(e.call.pc) == None
            && (ClientOf(e.call.pc).Some? ==> ClientOf(e.call.pc) == ClientOf(c.pc))
  {
    hide ClientsStay, HealSection, CellOf, ClientOf;
    SameClientsStay(s.clients);
    HealsFrom(s, d, answer);
    var pc := s.calls[d].pc;
    if pc.Claim? {
      ClaimKeepsItsClient(s, d, answer);
    } else if pc.CheckBackup? {
      BackupKeepsItsClient(s, d, answer);
    } else if pc.Wipe? {
      WipeKeepsItsClient(s, d, answer);
    } else {
      EvictKeepsItsClient(s, d, answer);
    }
  }

  lemma SameClientsStay(clients: map<nat, Client>)
    ensures ClientsStay(clients, clients)
  {
  }

  /** Verifying and healing keep the call at its client. */
  lemma VerifyingKeepsItsClient(s: State, d: nat, answer: Answer)
    requires d in s.calls && !Obtaining(s.calls[d].pc)
    ensures var c, e := s.calls[d], VerifySection(s, d, answer);
            e.Some? ==>
              && e.value.cells == s.cells && e.value.owners == s.owners && ClientsStay(s.clients, e.value.clients)
              && (e.value.cache == s.cache || e.value.cache == s.cache - {c.mxid})
              && e.value.call.mxid == c.mxid && CellOf(e.value.call.pc) == None
              && (ClientOf(e.value.call.pc).Some? ==> ClientOf(e.value.call.pc) == ClientOf(c.pc))
  {
    hide HealSection, ClientsStay, CellOf, ClientOf;
    if s.calls[d].pc.ReadFlag? || s.calls[d].pc.Ask? {
      AskingKeepsItsClient(s, d, answer);
    } else if HealSection(s, d, answer).Some? {
      HealingKeepsItsClient(s, d, answer);
    }
  }

  lemma VerifyingKeepsClients(s: State, d: nat, answer: Answer)
    requires ClientsOk(s) && d in s.calls && !Obtaining(s.calls[d].pc)
    ensures var e := VerifySection(s, d, answer);
            e.Some? ==> ClientsOk(Apply(s, d, e.value))
  {
    hide ClientsOk, Apply, VerifySection;
    CallIsOk(s, d);
    VerifyingKeepsItsClient(s, d, answer);
    if VerifySection(s, d, answer).Some? {
      QuietSectionKeepsClients(s, d, VerifySection(s, d, answer).value);
    }
  }

  lemma SectionKeepsClients(s: State, d: nat, answer: Answer, newId: nat, t: State)
    requires ClientsOk(s) && d in s.calls && StepOf(s, d, answer, newId, t)
    ensures ClientsOk(t)
  {
    hide ClientsOk, ObtainSection, VerifySection, Apply;
    var pc := s.calls[d].pc;
    if pc.Lookup? || pc.StaleCheck? {
      LookingUpKeepsClients(s, d, answer, newId);
    } else if pc.GetCell? {
      GettingCellKeepsClients(s, d, answer, newId);
    } else if pc.InCell? {
      EnteringKeepsClients(s, d, answer, newId);
    } else if pc.Filling? {
      FillingKeepsClients(s, d, answer, newId);
    } else if pc.Refresh? {
      RefreshingKeepsClients(s, d, answer, newId);
    } else {
      VerifyingKeepsClients(s, d, answer);
    }
  }

  lemma AbandoningKeepsClients(s: State, d: nat)
    requires ClientsOk(s) && d in s.calls
    ensures ClientsOk(Abandoned(s, d))
  {
    hide ClientsOk;
    CallIsOk(s, d);
    var c := s.calls[d];
    var e := Goto(s, c, Done(None)).(cells := Abandoned(s, d).cells);
    if c.pc.Filling? {
      BuildEndsKeepsClients(s, d, c.pc.cell, e);
    } else {
      QuietSectionKeepsClients(s, d, e);
    }
    assert s.log + [] == s.log;
  }

  lemma OutsideKeepsClients(s: State, e: Event, t: State)
    requires ClientsOk(s) && Next(s, e, t) && (e.Begin? || e.SyncEnds? || e.EvictFromOutside?)
    ensures ClientsOk(t)
  {
  }

  lemma StepKeepsClients(s: State, e: Event, t: State)
    requires ClientsOk(s) && Next(s, e, t)
    ensures ClientsOk(t)
  {
    hide Section, StepOf, ClientsOk, Abandoned;
    if e.Step? {
      SectionKeepsClients(s, e.d, e.answer, e.newId, t);
    } else if e.Abandon? && s.calls[e.d].pc.Wipe? {
      SectionKeepsClients(s, e.d, Failed, 0, t);
    } else if e.Abandon? {
      AbandoningKeepsClients(s, e.d);
    } else {
      OutsideKeepsClients(s, e, t);
    }
  }

  lemma {:induction false} ClientsOkThroughout(states: seq<State>, events: seq<Event>, i: nat)
    requires Run(states, events) && i < |states|
    ensures ClientsOk(states[i])
    decreases i
  {
    if i > 0 {
      hide Next, ClientsOk;
      ClientsOkThroughout(states, events, i - 1);
      StepKeepsClients(states[i - 1], events[i - 1], states[i]);
    } else {
      NoClientsYet(states[0]);
    }
  }

  lemma NoClientsYet(s: State)
    requires Init(s)
    ensures ClientsOk(s)
  {
  }

  /** In every run a call returns a client of its own identity, whatever other identities' calls do
      beside it. */
  lemma CallsReturnTheirOwnClient(states: seq<State>, events: seq<Event>, i: nat, d: nat, client: nat)
    requires Run(states, events) && i < |states| && d in states[i].calls && states[i].calls[d].pc == Done(Some(client))
    ensures client in states[i].clients && states[i].clients[client].mxid == states[i].calls[d].mxid
  {
    ClientsOkThroughout(states, events, i);
    assert CallOk(states[i].cells, states[i].clients, states[i].owners, d, states[i].calls[d]);
  }

  /** In every run concurrent first callers share one build: no two calls fill one cell, and a cell
      that others wait for has a call that is filling it. */
  lemma OneBuildPerCell(states: seq<State>, events: seq<Event>, i: nat, d: nat, e: nat, cell: nat)
    requires Run(states, events) && i < |states|
    ensures d in states[i].calls && e in states[i].calls && states[i].calls[d].pc == Filling(cell) == states[i].calls[e].pc ==> d == e
    ensures cell in states[i].cells && states[i].cells[cell].Building? ==>
              var builder := states[i].cells[cell].call;
              builder in states[i].calls && states[i].calls[builder].pc == Filling(cell)
  {
    ClientsOkThroughout(states, events, i);
    assert d in states[i].calls ==> CallOk(states[i].cells, states[i].clients, states[i].owners, d, states[i].calls[d]);
    assert e in states[i].calls ==> CallOk(states[i].cells, states[i].clients, states[i].owners, e, states[i].calls[e]);
  }

  // ---- How calls end and heal -----------------------------------------------------------

  lemma LookingUpIsNotTheEnd(s: State, d: nat, answer: Answer, newId: nat)
    requires d in s.calls && BeforeBuild(s.calls[d].pc) && ObtainSection(s, d, answer, newId).Some?
    ensures !ObtainSection(s, d, answer, newId).value.call.pc.Done?
  {
    hide Cached, Live;
  }

  /** Obtaining a client is never the end, unless it fails. */
  lemma ObtainingEndsOnlyInFailure(s: State, d: nat, answer: Answer, newId: nat)
    requires d in s.calls && Obtaining(s.calls[d].pc) && ObtainSection(s, d, answer, newId).Some?
    ensures var c, pc := s.calls[d], ObtainSection(s, d, answer, newId).value.call.pc;
            pc.Done? ==> pc == Done(None) && answer != Yes && (c.pc.Filling? || c.pc.Refresh?)
  {
    hide Cached, Live;
    if BeforeBuild(s.calls[d].pc) {
      LookingUpIsNotTheEnd(s, d, answer, newId);
    }
  }

  lemma AskingEndsWithCause(s: State, d: nat, answer: Answer)
    requires d in s.calls && (s.calls[d].pc.ReadFlag? || s.calls[d].pc.Ask?) && VerifySection(s, d, answer).Some?
    ensures var c, pc := s.calls[d], VerifySection(s, d, answer).value.call.pc;
            && (pc == Done(None) ==> c.pc.Wipe? && answer != Yes)
            && (forall k :: pc == Done(Some(k)) ==>
                  || c.pc == AwaitPublication(k)
                  || (!c.retry &&
                      (|| (c.pc == ReadFlag(k) && k in s.clients && s.clients[k].keysVerified)
                       || (c.pc == Ask(k) && (answer == Yes || answer == Failed))
                       || (c.pc == Claim(k) && c.mxid in s.healed)
                       || (c.pc == CheckBackup(k) && answer != Yes))))
  {
    hide HealSection;
  }

  lemma HealingEndsWithCause(s: State, d: nat, answer: Answer)
    requires d in s.calls && HealSection(s, d, answer).Some?
    ensures var c, pc := s.calls[d], HealSection(s, d, answer).value.call.pc;
            && (pc == Done(None) ==> c.pc.Wipe? && answer != Yes)
            && (forall k :: pc == Done(Some(k)) ==>
                  || c.pc == AwaitPublication(k)
                  || (!c.retry &&
                      (|| (c.pc == ReadFlag(k) && k in s.clients && s.clients[k].keysVerified)
                       || (c.pc == Ask(k) && (answer == Yes || answer == Failed))
                       || (c.pc == Claim(k) && c.mxid in s.healed)
                       || (c.pc == CheckBackup(k) && answer != Yes))))
  {
  }

  /** How a verification ends. */
  lemma VerifyingEndsWithCause(s: State, d: nat, answer: Answer)
    requires d in s.calls && !Obtaining(s.calls[d].pc) && VerifySection(s, d, answer).Some?
    ensures var c, pc := s.calls[d], VerifySection(s, d, answer).value.call.pc;
            && (pc == Done(None) ==> c.pc.Wipe? && answer != Yes)
            && (forall k :: pc == Done(Some(k)) ==>
                  || c.pc == AwaitPublication(k)
                  || (!c.retry &&
                      (|| (c.pc == ReadFlag(k) && k in s.clients && s.clients[k].keysVerified)
                       || (c.pc == Ask(k) && (answer == Yes || answer == Failed))
                       || (c.pc == Claim(k) && c.mxid in s.healed)
                       || (c.pc == CheckBackup(k) && answer != Yes))))
  {
    hide HealSection;
    if s.calls[d].pc.ReadFlag? || s.calls[d].pc.Ask? {
      AskingEndsWithCause(s, d, answer);
    } else {
      HealingEndsWithCause(s, d, answer);
    }
  }

  /** Only the step or the abandonment of a call moves it. */
  lemma OnlyItsOwnStepMovesACall(s: State, e: Event, t: State, d: nat)
    requires Next(s, e, t) && d in s.calls && d in t.calls && t.calls[d] != s.calls[d]
    ensures (e.Step? || e.Abandon?) && e.d == d
    ensures e.Step? ==> Section(s, d, e.answer, e.newId).Some? && t.calls[d] == Section(s, d, e.answer, e.newId).value.call
    ensures e.Abandon? ==> t.calls[d].pc == Done(None)
  {
    hide ObtainSection, Section, VerifySection;
    if e.Abandon? && e.d == d && s.calls[d].pc.Wipe? {
      WipeFailsOutright(s, d);
    }
  }

  lemma WipeFailsOutright(s: State, d: nat)
    requires d in s.calls && s.calls[d].pc.Wipe?
    ensures Section(s, d, Failed, 0).Some? && Section(s, d, Failed, 0).value.call.pc == Done(None)
  {
    hide ObtainSection;
  }

  /** In every run a call ends with a client by its own step. On the first pass that is because the
      client was verified, the homeserver said yes or could not be asked, this identity was healed
      before, or its backup was not confirmed; after a heal, because the wait for publication is over. */
  lemma CallsEndWithCause(states: seq<State>, events: seq<Event>, i: nat, d: nat, client: nat)
    requires Run(states, events) && i < |events| && d in states[i].calls && d in states[i + 1].calls
    requires states[i + 1].calls[d].pc == Done(Some(client)) && states[i].calls[d].pc != Done(Some(client))
    ensures events[i].Step? && events[i].d == d
    ensures var s, c, answer := states[i], states[i].calls[d], events[i].answer;
            if c.retry then c.pc == AwaitPublication(client)
            else
              || (c.pc == ReadFlag(client) && client in s.clients && s.clients[client].keysVerified)
              || (c.pc == Ask(client) && (answer == Yes || answer == Failed))
              || (c.pc == Claim(client) && c.mxid in s.healed)
              || (c.pc == CheckBackup(client) && answer != Yes)
  {
    hide Next, Inv, ObtainSection, VerifySection;
    InvHoldsThroughout(states, events, i);
    CountsAreOk(states[i], d);
    var s, e, t := states[i], events[i], states[i + 1];
    OnlyItsOwnStepMovesACall(s, e, t, d);
    if Obtaining(s.calls[d].pc) {
      ObtainingEndsOnlyInFailure(s, d, e.answer, e.newId);
    } else {
      VerifyingEndsWithCause(s, d, e.answer);
    }
  }

  lemma CountsAreOk(s: State, d: nat)
    requires Inv(s) && d in s.calls
    ensures CountsOk(s.calls[d])
  {
  }

  /** A call that fails outright was abandoned, could not build or refresh its client, or could not
      remove the store. */
  lemma CallsFailWithCause(s: State, e: Event, t: State, d: nat)
    requires Next(s, e, t) && d in s.calls && d in t.calls
    requires t.calls[d].pc == Done(None) && s.calls[d].pc != Done(None)
    ensures e.Step? || e.Abandon?
    ensures e.d == d && (e.Step? ==> e.answer != Yes && (s.calls[d].pc.Filling? || s.calls[d].pc.Refresh? || s.calls[d].pc.Wipe?))
  {
    hide Next, ObtainSection, VerifySection;
    OnlyItsOwnStepMovesACall(s, e, t, d);
    if e.Step? && Obtaining(s.calls[d].pc) {
      ObtainingEndsOnlyInFailure(s, d, e.answer, e.newId);
    } else if e.Step? {
      VerifyingEndsWithCause(s, d, e.answer);
    }
  }

  /** And conversely: a build, a refresh or a removal that fails ends its call, without a client, and
      the failed build leaves its cell vacant for the next caller. */
  lemma FailingStepsEndTheirCall(s: State, d: nat, answer: Answer, newId: nat, t: State)
    requires d in s.calls && (s.calls[d].pc.Filling? || s.calls[d].pc.Refresh? || s.calls[d].pc.Wipe?) && answer != Yes
    requires Next(s, Step(d, answer, newId), t)
    ensures t.calls[d].pc == Done(None) && t.clients == s.clients && t.cache == s.cache
    ensures t.cells == match s.calls[d].pc
                       case Filling(cell) => s.cells[cell := Vacant]
                       case _ => s.cells
  {
    hide Cached, Live;
  }

  lemma HearingNo(s: State, d: nat, client: nat, t: State)
    requires d in s.calls && s.calls[d].pc == Ask(client) && !s.calls[d].retry && client in s.clients && Next(s, Step(d, No, 0), t)
    ensures d in t.calls && t.calls[d] == s.calls[d].(pc := Claim(client), queries := s.calls[d].queries + 1)
    ensures t.log == s.log && t.healed == s.healed
  {
    hide ObtainSection, HealSection;
  }

  lemma Claiming(s: State, d: nat, client: nat, t: State)
    requires d in s.calls && s.calls[d].pc == Claim(client) && s.calls[d].mxid !in s.healed && Next(s, Step(d, Yes, 0), t)
    ensures d in t.calls && t.calls[d] == s.calls[d].(pc := CheckBackup(client))
    ensures t.log == s.log + [Claimed(s.calls[d].mxid, d)] && t.healed == s.healed + {s.calls[d].mxid}
  {
    hide ObtainSection;
  }

  lemma Confirming(s: State, d: nat, client: nat, t: State)
    requires d in s.calls && s.calls[d].pc == CheckBackup(client) && Next(s, Step(d, Yes, 0), t)
    ensures d in t.calls && t.calls[d] == s.calls[d].(pc := Evict) && t.log == s.log + [BackupConfirmed(s.calls[d].mxid, d)] && t.healed == s.healed
  {
    hide ObtainSection;
  }

  lemma Evicting(s: State, d: nat, t: State)
    requires d in s.calls && s.calls[d].pc == Evict && Next(s, Step(d, Yes, 0), t)
    ensures d in t.calls && t.calls[d] == s.calls[d].(pc := Wipe) && t.log == s.log + [Evicted(s.calls[d].mxid, d)] && t.healed == s.healed
    ensures t.cache == s.cache - {s.calls[d].mxid}
  {
    hide ObtainSection;
  }

  lemma Wiping(s: State, d: nat, t: State)
    requires d in s.calls && s.calls[d].pc == Wipe && Next(s, Step(d, Yes, 0), t)
    ensures d in t.calls && t.calls[d] == s.calls[d].(pc := Lookup, retry := true) && t.log == s.log + [Wiped(s.calls[d].mxid, d)]
    ensures t.healed == s.healed && t.cache == s.cache
  {
    hide ObtainSection;
  }

  /** A call of the first pass that hears no, finds its identity unhealed and its backup recoverable,
      heals: it claims, confirms, evicts and wipes, and starts over without a cached client. */
  lemma HealRunsThrough(s0: State, s1: State, s2: State, s3: State, s4: State, s5: State, d: nat, client: nat)
    requires d in s0.calls && s0.calls[d].pc == Ask(client) && !s0.calls[d].retry && client in s0.clients
    requires s0.calls[d].mxid !in s0.healed
    requires Next(s0, Step(d, No, 0), s1) && Next(s1, Step(d, Yes, 0), s2) && Next(s2, Step(d, Yes, 0), s3)
    requires Next(s3, Step(d, Yes, 0), s4) && Next(s4, Step(d, Yes, 0), s5)
    ensures var m := s0.calls[d].mxid;
            && s5.log == s0.log + [Claimed(m, d), BackupConfirmed(m, d), Evicted(m, d), Wiped(m, d)]
            && s5.healed == s0.healed + {m} && m !in s5.cache && Cached(s5, m) == None
            && d in s5.calls && s5.calls[d].retry && s5.calls[d].pc == Lookup && s5.calls[d].mxid == m
  {
    hide Next, Cached;
    HearingNo(s0, d, client, s1);
    Claiming(s1, d, client, s2);
    Confirming(s2, d, client, s3);
    Evicting(s3, d, s4);
    Wiping(s4, d, s5);
    NotCached(s5, s0.calls[d].mxid);
  }

  lemma NotCached(s: State, m: string)
    ensures m !in s.cache ==> Cached(s, m) == None
  {
  }

  /** The stale check drops exactly a client whose sync has ended: a running one, a cell still empty or
      being filled, and every other identity's entry stay. */
  lemma StaleClientsAreDropped(s: State, d: nat, answer: Answer, newId: nat, t: State)
    requires d in s.calls && s.calls[d].pc == StaleCheck && Next(s, Step(d, answer, newId), t)
    ensures var m := s.calls[d].mxid;
            && t.calls[d].pc == GetCell
            && (forall k :: Cached(t, m) == Some(k) <==> Cached(s, m) == Some(k) && k in s.clients && !s.clients[k].syncFinished)
            && (Cached(s, m) == None ==> t.cache == s.cache)
            && (forall n :: n != m ==> Cached(t, n) == Cached(s, n))
  {
  }

  // ---- The verified flag and the cached client ------------------------------------------

  /** Everything announced is a client, and verified. */
  ghost predicate AnnouncedOk(s: State) {
    forall k :: Announced(k) in s.log ==> k in s.clients && s.clients[k].keysVerified
  }

  /** No client goes and none loses its flag. */
  ghost predicate FlagsStay(before: map<nat, Client>, after: map<nat, Client>) {
    forall k :: k in before ==> k in after && (before[k].keysVerified ==> after[k].keysVerified)
  }

  lemma ObtainingKeepsFlags(s: State, d: nat, answer: Answer, newId: nat)
    requires d in s.calls && Obtaining(s.calls[d].pc) && ObtainSection(s, d, answer, newId).Some?
    ensures FlagsStay(s.clients, ObtainSection(s, d, answer, newId).value.clients)
  {
    hide Cached, Live;
  }

  lemma AskingKeepsFlags(s: State, d: nat, answer: Answer)
    requires d in s.calls && (s.calls[d].pc.ReadFlag? || s.calls[d].pc.Ask?) && VerifySection(s, d, answer).Some?
    ensures var e := VerifySection(s, d, answer).value;
            && FlagsStay(s.clients, e.clients)
            && (forall k :: Announced(k) in e.facts ==> k in e.clients && e.clients[k].keysVerified)
  {
    hide HealSection;
  }

  lemma HealingAnnouncesNothing(s: State, d: nat, answer: Answer)
    requires d in s.calls && HealSection(s, d, answer).Some?
    ensures forall k :: Announced(k) !in HealSection(s, d, answer).value.facts
  {
  }

  lemma SectionKeepsFlags(s: State, d: nat, answer: Answer, newId: nat)
    requires d in s.calls && Section(s, d, answer, newId).Some?
    ensures var e := Section(s, d, answer, newId).value;
            && FlagsStay(s.clients, e.clients)
            && (forall k :: Announced(k) in e.facts ==> k in e.clients && e.clients[k].keysVerified)
  {
    hide ObtainSection, HealSection, FlagsStay;
    if Obtaining(s.calls[d].pc) {
      ObtainingKeepsFlags(s, d, answer, newId);
      ObtainingLogsNothing(s, d, answer, newId);
    } else if s.calls[d].pc.ReadFlag? || s.calls[d].pc.Ask? {
      AskingKeepsFlags(s, d, answer);
    } else {
      HealingFlags(s, d, answer);
      HealingAnnouncesNothing(s, d, answer);
      assert FlagsStay(s.clients, s.clients) by { SameFlagsStay(s.clients); }
    }
  }

  lemma SameFlagsStay(clients: map<nat, Client>)
    ensures FlagsStay(clients, clients)
  {
  }

  lemma StepKeepsAnnounced(s: State, e: Event, t: State)
    requires AnnouncedOk(s) && Next(s, e, t)
    ensures AnnouncedOk(t)
  {
    hide Section;
    if e.Step? {
      SectionKeepsFlags(s, e.d, e.answer, e.newId);
    } else if e.Abandon? && s.calls[e.d].pc.Wipe? {
      SectionKeepsFlags(s, e.d, Failed, 0);
    }
  }

  lemma {:induction false} AnnouncedOkThroughout(states: seq<State>, events: seq<Event>, i: nat)
    requires Run(states, events) && i < |states|
    ensures AnnouncedOk(states[i])
    decreases i
  {
    if i > 0 {
      hide Next, AnnouncedOk;
      AnnouncedOkThroughout(states, events, i - 1);
      StepKeepsAnnounced(states[i - 1], events[i - 1], states[i]);
    }
  }

  lemma LookingUpLogsNothing(s: State, d: nat, answer: Answer, newId: nat)
    requires d in s.calls && (s.calls[d].pc.Lookup? || s.calls[d].pc.StaleCheck? || s.calls[d].pc.GetCell?)
    ensures var e := ObtainSection(s, d, answer, newId);
            e.Some? ==> e.value.facts == [] && !e.value.call.pc.Claim? && !e.value.call.pc.Ask?
  {
    hide Cached, Live;
  }

  lemma BuildingLogsNothing(s: State, d: nat, answer: Answer, newId: nat)
    requires d in s.calls && (s.calls[d].pc.InCell? || s.calls[d].pc.Filling? || s.calls[d].pc.Refresh?)
    ensures var e := ObtainSection(s, d, answer, newId);
            e.Some? ==> e.value.facts == [] && !e.value.call.pc.Claim? && !e.value.call.pc.Ask?
  {
    hide Cached, Live;
  }

  lemma ObtainingLogsNothing(s: State, d: nat, answer: Answer, newId: nat)
    requires d in s.calls && Obtaining(s.calls[d].pc) && ObtainSection(s, d, answer, newId).Some?
    ensures var e := ObtainSection(s, d, answer, newId).value;
            e.facts == [] && !e.call.pc.Claim? && !e.call.pc.Ask?
  {
    hide ObtainSection;
    if s.calls[d].pc.Lookup? || s.calls[d].pc.StaleCheck? || s.calls[d].pc.GetCell? {
      LookingUpLogsNothing(s, d, answer, newId);
    } else {
      BuildingLogsNothing(s, d, answer, newId);
    }
  }

  lemma AskingLogs(s: State, d: nat, answer: Answer)
    requires d in s.calls && (s.calls[d].pc.ReadFlag? || s.calls[d].pc.Ask?) && VerifySection(s, d, answer).Some?
    ensures var c, e := s.calls[d], VerifySection(s, d, answer).value;
            && (e.facts == [] || (c.pc.Ask? && answer == Yes && e.facts == [Announced(c.pc.client)]))
            && (e.call.pc.Claim? ==> c.pc.Ask? && answer == No && !c.retry)
  {
    hide HealSection;
  }

  lemma HealingLogs(s: State, d: nat, answer: Answer)
    requires d in s.calls && HealSection(s, d, answer).Some?
    ensures var c, e := s.calls[d], HealSection(s, d, answer).value;
            && |e.facts| <= 1 && !e.call.pc.Claim?
            && forall f :: f in e.facts ==>
                 && !f.Announced?
                 && (f.Claimed? ==> c.pc.Claim? && f.call == d)
                 && (f.BackupConfirmed? ==> c.pc.CheckBackup? && answer == Yes && f.call == d)
  {
  }

  /** What the outside answered at the step that logged a fact. */
  ghost predicate Answered(s: State, e: Event, f: Fact) {
    && (f.Announced? ==> HeardYes(s, e, f.client))
    && (f.Claimed? ==> e.Step? && e.d == f.call && e.d in s.calls && s.calls[e.d].pc.Claim?)
    && (f.BackupConfirmed? ==> e.Step? && e.d == f.call && e.answer == Yes && e.d in s.calls && s.calls[e.d].pc.CheckBackup?)
  }

  /** A step at which a call asks the homeserver about `client` and hears yes. */
  ghost predicate HeardYes(s: State, e: Event, client: nat) {
    e.Step? && e.answer == Yes && e.d in s.calls && s.calls[e.d].pc == Ask(client)
  }

  /** A step at which a call of the first pass asks and hears no. */
  ghost predicate HeardNo(s: State, e: Event, d: nat) {
    e.Step? && e.d == d && e.answer == No && d in s.calls && s.calls[d].pc.Ask? && !s.calls[d].retry
  }

  lemma SectionAnswers(s: State, d: nat, answer: Answer, newId: nat)
    requires d in s.calls && Section(s, d, answer, newId).Some?
    ensures var e := Section(s, d, answer, newId).value;
            && |e.facts| <= 1
            && (forall f :: f in e.facts ==> Answered(s, Step(d, answer, newId), f))
            && (e.call.pc.Claim? ==> HeardNo(s, Step(d, answer, newId), d))
  {
    hide ObtainSection, VerifySection, HealSection;
    if Obtaining(s.calls[d].pc) {
      ObtainingLogsNothing(s, d, answer, newId);
    } else if s.calls[d].pc.ReadFlag? || s.calls[d].pc.Ask? {
      AskingLogs(s, d, answer);
    } else {
      RestIsHealing(s, d, answer);
      HealingLogs(s, d, answer);
    }
  }

  lemma RestIsHealing(s: State, d: nat, answer: Answer)
    requires d in s.calls && !Obtaining(s.calls[d].pc) && !s.calls[d].pc.ReadFlag? && !s.calls[d].pc.Ask?
    ensures VerifySection(s, d, answer) == HealSection(s, d, answer)
  {
    hide HealSection;
  }

  /** A step keeps the log and adds at most one fact, whose answer it heard. */
  lemma StepAnswers(s: State, e: Event, t: State)
    requires Next(s, e, t)
    ensures s.log <= t.log && |t.log| <= |s.log| + 1
    ensures |t.log| > |s.log| ==> Answered(s, e, t.log[|s.log|])
    ensures forall d :: d in t.calls && t.calls[d].pc.Claim? && !(d in s.calls && s.calls[d].pc.Claim?) ==> HeardNo(s, e, d)
  {
    hide Section, Answered, HeardNo;
    if e.Step? {
      SectionAnswers(s, e.d, e.answer, e.newId);
    } else if e.Abandon? && s.calls[e.d].pc.Wipe? {
      WipeFailsOutright(s, e.d);
      AbandonedWipeAnswers(s, e.d);
    }
  }

  lemma AbandonedWipeAnswers(s: State, d: nat)
    requires d in s.calls && s.calls[d].pc.Wipe?
    ensures Section(s, d, Failed, 0).Some? && Section(s, d, Failed, 0).value.facts == [Wiped(s.calls[d].mxid, d)]
    ensures Answered(s, Abandon(d), Wiped(s.calls[d].mxid, d))
  {
    hide ObtainSection;
  }

  lemma {:induction false} LogStays(states: seq<State>, events: seq<Event>, i: nat, j: nat)
    requires Run(states, events) && i <= j < |states|
    ensures states[i].log <= states[j].log
    decreases j
  {
    if i < j {
      hide Next, Answered, HeardNo;
      LogStays(states, events, i, j - 1);
      StepAnswers(states[j - 1], events[j - 1], states[j]);
    }
  }

  /** The step of a run that logged its `k`-th fact. */
  lemma {:induction false} FactHasItsStep(states: seq<State>, events: seq<Event>, i: nat, k: nat) returns (j: nat)
    requires Run(states, events) && i < |states| && k < |states[i].log|
    ensures j < i && |states[j].log| == k && Answered(states[j], events[j], states[i].log[k])
    decreases i
  {
    hide Answered, HeardNo;
    assert i > 0;
    assert Next(states[i - 1], events[i - 1], states[i]);
    hide Next;
    StepAnswers(states[i - 1], events[i - 1], states[i]);
    if k < |states[i - 1].log| {
      j := FactHasItsStep(states, events, i - 1, k);
    } else {
      j := i - 1;
    }
  }

  lemma {:induction false} ClaimsHeardNo(states: seq<State>, events: seq<Event>, i: nat, d: nat) returns (n: nat)
    requires Run(states, events) && i < |states| && d in states[i].calls && states[i].calls[d].pc.Claim?
    ensures n < i && HeardNo(states[n], events[n], d)
    decreases i
  {
    hide Answered, HeardNo;
    assert i > 0;
    assert Next(states[i - 1], events[i - 1], states[i]);
    hide Next;
    StepAnswers(states[i - 1], events[i - 1], states[i]);
    if d in states[i - 1].calls && states[i - 1].calls[d].pc.Claim? {
      n := ClaimsHeardNo(states, events, i - 1, d);
    } else {
      n := i - 1;
    }
  }

  /** In every run a store is wiped only by a call that, on its first pass, asked the homeserver and
      heard no, and later asked for the backup and heard yes: a failed query never leads to a wipe. */
  lemma WipesFollowANoAndAYes(states: seq<State>, events: seq<Event>, i: nat, k: nat) returns (n: nat, b: nat)
    requires Run(states, events) && i < |states| && k < |states[i].log| && states[i].log[k].Wiped?
    ensures n < b < i
    ensures HeardNo(states[n], events[n], states[i].log[k].call)
    ensures var d := states[i].log[k].call;
            && events[b].Step? && events[b].d == d && events[b].answer == Yes
            && d in states[b].calls && states[b].calls[d].pc.CheckBackup?
  {
    assert |states| == |events| + 1;
    hide Run, HeardNo;
    StoreIsWipedAtMostOnceAndWithCause(states, events, i, k);
    var log, m, d := states[i].log, states[i].log[k].mxid, states[i].log[k].call;
    var x, y, z :| 0 <= x < y < z < k && log[x] == Claimed(m, d) && log[y] == BackupConfirmed(m, d) && log[z] == Evicted(m, d);
    var claim := FactHasItsStep(states, events, i, x);
    b := FactHasItsStep(states, events, i, y);
    n := ClaimsHeardNo(states, events, claim, d);
    if b <= claim {
      LogStays(states, events, b, claim);
      assert false;
    }
  }

  /** In every run a client is verified exactly when some call has asked the homeserver about it and
      heard yes. */
  lemma VerifiedExactlyWhenHeardYes(states: seq<State>, events: seq<Event>, i: nat, client: nat)
    requires Run(states, events) && i < |states|
    ensures (client in states[i].clients && states[i].clients[client].keysVerified)
       <==> exists j :: 0 <= j < i && HeardYes(states[j], events[j], client)
  {
    hide Inv, Next, HeardYes, AnnouncedOk;
    if client in states[i].clients && states[i].clients[client].keysVerified {
      VerifiedMeansAnnounced(states, events, i, client);
      var k :| 0 <= k < |states[i].log| && states[i].log[k] == Announced(client);
      var j := FactHasItsStep(states, events, i, k);
      assert HeardYes(states[j], events[j], client);
    }
    if j :| 0 <= j < i && HeardYes(states[j], events[j], client) {
      HeardIsVerified(states, events, j, i, client);
    }
  }

  lemma HeardIsVerified(states: seq<State>, events: seq<Event>, j: nat, i: nat, client: nat)
    requires Run(states, events) && j < i < |states| && HeardYes(states[j], events[j], client)
    ensures client in states[i].clients && states[i].clients[client].keysVerified
  {
    hide Next;
    var e := events[j];
    YesIsAnnounced(states[j], e.d, client, e.newId, states[j + 1]);
    LogStays(states, events, j + 1, i);
    AnnouncedOkThroughout(states, events, i);
    var k :| 0 <= k < |states[j + 1].log| && states[j + 1].log[k] == Announced(client);
    assert states[i].log[k] == Announced(client);
  }

  lemma YesIsAnnounced(s: State, d: nat, client: nat, newId: nat, t: State)
    requires d in s.calls && s.calls[d].pc == Ask(client) && Next(s, Step(d, Yes, newId), t)
    ensures Announced(client) in t.log
  {
    hide ObtainSection, HealSection;
    assert t.log[|s.log|] == Announced(client);
  }

  /** Only an unverified client is asked about. */
  lemma AskedAreUnverified(s: State, e: Event, t: State, d: nat, client: nat)
    requires Next(s, e, t) && d in s.calls && d in t.calls && s.calls[d].pc != Ask(client) && t.calls[d].pc == Ask(client)
    ensures s.calls[d].pc == ReadFlag(client) && !(client in s.clients && s.clients[client].keysVerified)
  {
    hide Next, ObtainSection, VerifySection;
    OnlyItsOwnStepMovesACall(s, e, t, d);
    if Obtaining(s.calls[d].pc) {
      ObtainingLogsNothing(s, d, e.answer, e.newId);
    } else {
      VerifyingAsks(s, d, e.answer, client);
    }
  }

  lemma VerifyingAsks(s: State, d: nat, answer: Answer, client: nat)
    requires d in s.calls && !Obtaining(s.calls[d].pc) && VerifySection(s, d, answer).Some?
    requires VerifySection(s, d, answer).value.call.pc == Ask(client)
    ensures s.calls[d].pc == ReadFlag(client) && !(client in s.clients && s.clients[client].keysVerified)
  {
  }

  /** In every run one yes is enough: once a call has heard it of a client, no call begins to ask
      about that client again. */
  lemma OneYesIsEnough(states: seq<State>, events: seq<Event>, i: nat, j: nat, e: nat, client: nat)
    requires Run(states, events) && i < j < |events| && HeardYes(states[i], events[i], client)
    requires e in states[j].calls && e in states[j + 1].calls && states[j].calls[e].pc != Ask(client)
    ensures states[j + 1].calls[e].pc != Ask(client)
  {
    hide Next, HeardYes;
    HeardIsVerified(states, events, i, j, client);
    if states[j + 1].calls[e].pc == Ask(client) {
      AskedAreUnverified(states[j], events[j], states[j + 1], e, client);
    }
  }

  /** The cached client is used again exactly when its sync task still runs, and then nothing is
      built, dropped or inserted. */
  lemma CachedClientIsReusedExactlyWhen(s: State, d: nat, answer: Answer, newId: nat, t: State, client: nat)
    requires d in s.calls && s.calls[d].pc == Lookup && Next(s, Step(d, answer, newId), t)
    ensures t.calls[d].pc == Refresh(client) <==>
              var m := s.calls[d].mxid;
              && m in s.cache && s.cache[m] in s.cells && s.cells[s.cache[m]] == Full(client)
              && client in s.clients && !s.clients[client].syncFinished
    ensures t == s.(calls := t.calls) && t.calls == s.calls[d := t.calls[d]]
  {
    assert s.log + [] == s.log;
  }

  // ---- The publication wait -----------------------------------------------------------

  datatype PublishWait = Published | Expired | CheckFailed

  /** `wait_for_publish`: `check(n)` is the n-th answer and `elapsed(n)` the time since the start
      when it arrived; each sleep lasts at least the interval. A late yes is still a yes, running out
      of patience is its own outcome, and at least one check is made. */
  method WaitForPublish(check: nat -> Answer, elapsed: nat -> int, ceiling: int, interval: int)
      returns (outcome: PublishWait, polls: nat)
    requires interval > 0 && elapsed(0) >= 0
    requires forall n: nat :: elapsed(n + 1) >= elapsed(n) + interval
    ensures polls >= 1
    ensures forall n: nat :: n < polls - 1 ==> check(n) == No && elapsed(n) < ceiling
    ensures outcome == Published <==> check(polls - 1) == Yes
    ensures outcome == CheckFailed <==> check(polls - 1) == Failed
    ensures outcome == Expired <==> check(polls - 1) == No
    ensures outcome == Expired ==> elapsed(polls - 1) >= ceiling
    ensures polls >= 2 ==> (polls - 2) * interval < ceiling
  {
    polls := 0;
    while true
      invariant forall n: nat :: n < polls ==> check(n) == No && elapsed(n) < ceiling
      invariant elapsed(polls) >= polls * interval
      invariant polls >= 1 ==> (polls - 1) * interval < ceiling
      decreases ceiling - elapsed(polls)
    {
      var answer := check(polls);
      polls := polls + 1;
      if answer == Yes {
        return Published, polls;
      }
      if answer == Failed {
        return CheckFailed, polls;
      }
      if elapsed(polls - 1) >= ceiling {
        return Expired, polls;
      }
      assert elapsed((polls - 1) + 1) >= elapsed(polls - 1) + interval;
      assert polls * interval == (polls - 1) * interval + interval;
    }
  }
}
