/** The last-used tracker of src/last_used.rs: a bounded map with scan-for-oldest eviction, and
    the unbounded map whose most recent part it holds. */
module LastUsed {
  import opened Options
  import opened Sets

  const MAX_ENTRIES: nat := 1024

  datatype LastUsedRecord = LastUsedRecord(at: int, ip: Option<string>)

  /** One call of `record`. */
  datatype Use = Use(hash: string, at: int, ip: Option<string>)

  type Table = map<string, LastUsedRecord>

  // ---- Specification over traces ------------------------------------------------------

  /** Every hash ever recorded, with its latest record. */
  function Unbounded(trace: seq<Use>): Table {
    if trace == [] then map[]
    else
      var u := trace[|trace| - 1];
      Unbounded(trace[..|trace| - 1])[u.hash := LastUsedRecord(u.at, u.ip)]
  }

  /** `m` is the most recent part of `all`: as many entries as the cap allows, each as in `all`, and
      each more recent than any entry left out. */
  ghost predicate MostRecentOf(m: Table, all: Table) {
    && (forall h :: h in m ==> h in all && m[h] == all[h])
    && |m| == (if |all| <= MAX_ENTRIES then |all| else MAX_ENTRIES)
    && (forall x, y :: x in all && x !in m && y in m ==> all[x].at < m[y].at)
  }

  ghost predicate Increasing(trace: seq<Use>) {
    forall i, j :: 0 <= i < j < |trace| ==> trace[i].at < trace[j].at
  }

  /** Distinct hashes were last recorded at distinct times. */
  ghost predicate Separated(all: Table) {
    forall x, y :: x in all && y in all && x != y ==> all[x].at != all[y].at
  }

  /** Use `i` records `h`, and no later use does. */
  ghost predicate IsLastUse(trace: seq<Use>, h: string, i: int) {
    0 <= i < |trace| && trace[i].hash == h && forall j :: i < j < |trace| ==> trace[j].hash != h
  }

  /** The hashes recorded after use `i`. */
  function HashesAfter(trace: seq<Use>, i: int): set<string> {
    set j: nat | i < j < |trace| :: trace[j].hash
  }

  // ---- The code -----------------------------------------------------------------------

  class LastUsedTracker {
    var entries: Table
    /** Every call of `record` so far. */
    ghost var trace: seq<Use>

    /** What holds whatever the clock does. */
    ghost predicate Valid()
      reads this
    {
      && |entries| <= MAX_ENTRIES
      && (forall h :: h in entries ==> h in Unbounded(trace) && entries[h] == Unbounded(trace)[h])
    }

    /** What holds while the clock only moves forward. */
    ghost predicate HoldsMostRecent()
      reads this
    {
      Increasing(trace) && MostRecentOf(entries, Unbounded(trace))
    }

    constructor ()
      ensures Valid() && HoldsMostRecent() && trace == []
    {
      entries, trace := map[], [];
    }

    /** An entry with the least time stamp. */
    method Oldest() returns (oldest: string)
      requires entries != map[]
      ensures oldest in entries && forall h :: h in entries ==> entries[oldest].at <= entries[h].at
    {
      var left := entries.Keys;
      oldest :| oldest in left;
      left := left - {oldest};
      while left != {}
        invariant left <= entries.Keys && oldest in entries
        invariant forall h :: h in entries && h !in left ==> entries[oldest].at <= entries[h].at
        decreases left
      {
        var h :| h in left;
        if entries[h].at < entries[oldest].at {
          oldest := h;
        }
        left := left - {h};
      }
    }

    /** `record`: evict the oldest entry when a new hash meets a full map, then insert. */
    method Record(hash: string, now: int, ip: Option<string>)
      requires Valid()
      modifies this
      ensures Valid() && trace == old(trace) + [Use(hash, now, ip)]
      ensures hash in entries && entries[hash] == LastUsedRecord(now, ip)
      ensures forall h :: h in entries && h != hash ==> h in old(entries) && entries[h] == old(entries)[h]
      ensures old(HoldsMostRecent()) && Increasing(trace) ==> HoldsMostRecent()
    {
      hide MostRecentOf, Increasing, Unbounded;
      ghost var before := entries;
      if |entries| >= MAX_ENTRIES && hash !in entries {
        var oldest := Oldest();
        entries := entries - {oldest};
      }
      RecordStep(before, entries, trace, Use(hash, now, ip));
      entries := entries[hash := LastUsedRecord(now, ip)];
      trace := trace + [Use(hash, now, ip)];
    }

    /** `get`. */
    method Get(hash: string) returns (record: Option<LastUsedRecord>)
      requires Valid()
      ensures record.Some? <==> hash in entries
      ensures record.Some? ==> hash in Unbounded(trace) && record.value == Unbounded(trace)[hash]
      ensures HoldsMostRecent() ==>
                forall i :: IsLastUse(trace, hash, i) ==> (record.Some? <==> |HashesAfter(trace, i)| < 1024)
    {
      if HoldsMostRecent() {
        forall i | IsLastUse(trace, hash, i) ensures hash in entries <==> |HashesAfter(trace, i)| < MAX_ENTRIES {
          HeldIffFewRecordedSince(entries, trace, hash, i);
        }
      }
      record := if hash in entries then Some(entries[hash]) else None;
    }
  }

  // ---- Proofs -------------------------------------------------------------------------

  /** Under a forward clock every entry is older than the next use, and no two share a time. */
  lemma {:induction false} EarlierUsesAreEarlier(trace: seq<Use>, u: Use)
    requires Increasing(trace + [u])
    ensures Increasing(trace)
    ensures forall h :: h in Unbounded(trace) ==> Unbounded(trace)[h].at < u.at
    ensures Separated(Unbounded(trace))
  {
    assert forall i :: 0 <= i < |trace| ==> (trace + [u])[i] == trace[i];
    assert (trace + [u])[|trace|] == u;
    if trace != [] {
      var n := |trace| - 1;
      var front, last := trace[..n], trace[n];
      assert front + [last] == trace;
      EarlierUsesAreEarlier(front, last);
      assert last.at < u.at;
    }
  }

  /** `kept` is `before` with room for `hash`: its oldest entry is gone if it was full. */
  ghost predicate MadeRoom(before: Table, kept: Table, hash: string) {
    if |before| >= MAX_ENTRIES && hash !in before
    then exists o :: o in before && kept == before - {o} && forall h :: h in before ==> before[o].at <= before[h].at
    else kept == before
  }

  /** A hash already held keeps its place among the held ones. */
  lemma RefreshKeepsMostRecent(m: Table, all: Table, hash: string, r: LastUsedRecord)
    requires MostRecentOf(m, all) && hash in m && forall h :: h in all ==> all[h].at < r.at
    ensures MostRecentOf(m[hash := r], all[hash := r])
  {
    UpdateSize(m, hash, r);
    UpdateSize(all, hash, r);
  }

  lemma UpdateSize(m: Table, hash: string, r: LastUsedRecord)
    ensures |m[hash := r]| == if hash in m then |m| else |m| + 1
  {
    assert m[hash := r].Keys == m.Keys + {hash};
    assert |m[hash := r]| == |m[hash := r].Keys| && |m| == |m.Keys|;
  }

  /** A map that is not full holds every hash, so a new one simply joins. */
  lemma AddKeepsMostRecent(m: Table, all: Table, hash: string, r: LastUsedRecord)
    requires MostRecentOf(m, all) && hash !in m && |m| < MAX_ENTRIES
    ensures MostRecentOf(m[hash := r], all[hash := r])
  {
    SubsetSize(m.Keys, all.Keys);
    assert |m| == |m.Keys| && |all| == |all.Keys|;
    assert m.Keys == all.Keys;
    UpdateSize(m, hash, r);
    UpdateSize(all, hash, r);
  }

  /** What is kept of a full map beside its oldest entry is younger than that. */
  lemma OldestIsOlder(m: Table, all: Table, o: string)
    requires MostRecentOf(m, all) && Separated(all) && o in m && forall h :: h in m ==> m[o].at <= m[h].at
    ensures forall y :: y in m && y != o ==> m[o].at < m[y].at
  {
    forall y | y in m && y != o ensures m[o].at < m[y].at {
      assert all[o].at != all[y].at;
    }
  }

  lemma ReplaceSizes(m: Table, o: string, hash: string, r: LastUsedRecord)
    requires o in m && hash !in m
    ensures |(m - {o})[hash := r]| == |m|
  {
    assert (m - {o})[hash := r].Keys == m.Keys - {o} + {hash};
    assert |(m - {o})[hash := r]| == |(m - {o})[hash := r].Keys| && |m| == |m.Keys|;
  }

  lemma HeldAreRecorded(m: Table, all: Table)
    requires MostRecentOf(m, all)
    ensures m.Keys <= all.Keys && |m| <= |all|
  {
    SubsetSize(m.Keys, all.Keys);
    assert |m| == |m.Keys| && |all| == |all.Keys|;
  }

  /** A full map gives up its oldest entry, which the new one is now more recent than. */
  lemma ReplaceKeepsMostRecent(m: Table, all: Table, o: string, hash: string, r: LastUsedRecord)
    requires MostRecentOf(m, all) && Separated(all) && hash !in m && |m| == MAX_ENTRIES
    requires o in m && forall h :: h in m ==> m[o].at <= m[h].at
    requires forall h :: h in all ==> all[h].at < r.at
    ensures MostRecentOf((m - {o})[hash := r], all[hash := r])
  {
    hide Separated;
    OldestIsOlder(m, all, o);
    ReplaceSizes(m, o, hash, r);
    HeldAreRecorded(m, all);
    UpdateSize(all, hash, r);
  }

  /** One call of `record`: dropping the oldest of a full map and inserting the newest keeps it the
      most recent part. */
  lemma RecordKeepsMostRecent(before: Table, kept: Table, all: Table, hash: string, r: LastUsedRecord)
    requires MostRecentOf(before, all) && Separated(all) && |before| <= MAX_ENTRIES && MadeRoom(before, kept, hash)
    requires forall h :: h in all ==> all[h].at < r.at
    ensures MostRecentOf(kept[hash := r], all[hash := r])
  {
    hide MostRecentOf, Separated;
    if hash in before {
      RefreshKeepsMostRecent(before, all, hash, r);
    } else if |before| < MAX_ENTRIES {
      AddKeepsMostRecent(before, all, hash, r);
    } else {
      var o :| o in before && kept == before - {o} && forall h :: h in before ==> before[o].at <= before[h].at;
      ReplaceKeepsMostRecent(before, all, o, hash, r);
    }
  }

  /** All that `record` promises, about the maps and the trace it works on. */
  lemma RecordStep(before: Table, kept: Table, trace: seq<Use>, u: Use)
    requires |before| <= MAX_ENTRIES && MadeRoom(before, kept, u.hash)
    requires forall h :: h in before ==> h in Unbounded(trace) && before[h] == Unbounded(trace)[h]
    ensures var after, all := kept[u.hash := LastUsedRecord(u.at, u.ip)], Unbounded(trace + [u]);
            && |after| <= MAX_ENTRIES
            && (forall h :: h in after ==> h in all && after[h] == all[h])
            && (forall h :: h in after && h != u.hash ==> h in before && after[h] == before[h])
            && (Increasing(trace + [u]) && MostRecentOf(before, Unbounded(trace)) ==> MostRecentOf(after, all))
  {
    hide MostRecentOf, Increasing, MadeRoom, Unbounded;
    UnboundedOneMore(trace, u);
    UpdateSize(kept, u.hash, LastUsedRecord(u.at, u.ip));
    RoomSize(before, kept, u.hash);
    if Increasing(trace + [u]) && MostRecentOf(before, Unbounded(trace)) {
      EarlierUsesAreEarlier(trace, u);
      RecordKeepsMostRecent(before, kept, Unbounded(trace), u.hash, LastUsedRecord(u.at, u.ip));
    }
  }

  lemma UnboundedOneMore(trace: seq<Use>, u: Use)
    ensures Unbounded(trace + [u]) == Unbounded(trace)[u.hash := LastUsedRecord(u.at, u.ip)]
  {
    assert (trace + [u])[..|trace|] == trace;
  }

  lemma RoomSize(before: Table, kept: Table, hash: string)
    requires |before| <= MAX_ENTRIES && MadeRoom(before, kept, hash)
    ensures hash in kept || |kept| < MAX_ENTRIES
    ensures |kept| <= MAX_ENTRIES && forall h :: h in kept ==> h in before && kept[h] == before[h]
  {
    if |before| >= MAX_ENTRIES && hash !in before {
      var o :| o in before && kept == before - {o};
      assert kept.Keys == before.Keys - {o};
      assert |kept| == |kept.Keys| && |before| == |before.Keys|;
    }
  }

  /** The hashes last recorded after `h` was. */
  function Later(all: Table, h: string): set<string>
    requires h in all
  {
    set x | x in all && all[x].at > all[h].at
  }

  /** A hash is among the most recent exactly when few were last recorded later. */
  lemma HeldIffFewLater(m: Table, all: Table, h: string)
    requires MostRecentOf(m, all) && Separated(all) && h in all
    ensures h in m <==> |Later(all, h)| < MAX_ENTRIES
  {
    assert |m| == |m.Keys| && |all| == |all.Keys|;
    if h in m {
      assert Later(all, h) <= m.Keys - {h};
      SubsetSize(Later(all, h), m.Keys - {h});
      assert |m.Keys - {h}| == |m| - 1;
    } else {
      SubsetSize(m.Keys, all.Keys);
      assert m.Keys <= Later(all, h);
      SubsetSize(m.Keys, Later(all, h));
    }
  }

  /** The unbounded map is the trace's: a hash is in it exactly when it was recorded, with the last
      of its records. */
  lemma {:induction false} UnboundedIsLatest(trace: seq<Use>, h: string)
    ensures h in Unbounded(trace) <==> exists i :: IsLastUse(trace, h, i)
    ensures forall i :: IsLastUse(trace, h, i) ==> Unbounded(trace)[h] == LastUsedRecord(trace[i].at, trace[i].ip)
  {
    if trace != [] {
      var n := |trace| - 1;
      var front := trace[..n];
      UnboundedIsLatest(front, h);
      if trace[n].hash == h {
        assert IsLastUse(trace, h, n);
      } else {
        forall i ensures IsLastUse(trace, h, i) <==> IsLastUse(front, h, i) {
          assert forall j :: 0 <= j < n ==> front[j] == trace[j];
        }
      }
    }
  }

  /** Every recorded hash has a last use. */
  lemma {:induction false} LastUseOf(trace: seq<Use>, j: nat) returns (k: nat)
    requires j < |trace|
    ensures j <= k && IsLastUse(trace, trace[j].hash, k)
    decreases |trace| - j
  {
    if next :| j < next < |trace| && trace[next].hash == trace[j].hash {
      k := LastUseOf(trace, next);
    } else {
      k := j;
    }
  }

  /** Under a forward clock, later in the map is later in the trace. */
  lemma LaterIsRecordedAfter(trace: seq<Use>, h: string, i: int)
    requires Increasing(trace) && IsLastUse(trace, h, i)
    ensures h in Unbounded(trace) && Later(Unbounded(trace), h) == HashesAfter(trace, i)
  {
    hide Unbounded;
    var all := Unbounded(trace);
    UnboundedIsLatest(trace, h);
    forall x | x in Later(all, h) ensures x in HashesAfter(trace, i) {
      UnboundedIsLatest(trace, x);
      var k :| IsLastUse(trace, x, k);
      assert i < k;
    }
    forall j | i < j < |trace| ensures trace[j].hash in Later(all, h) {
      UnboundedIsLatest(trace, trace[j].hash);
      var k := LastUseOf(trace, j);
      assert all[trace[j].hash].at == trace[k].at;
    }
  }

  lemma UsesAreSeparated(trace: seq<Use>)
    requires Increasing(trace)
    ensures Separated(Unbounded(trace))
  {
    hide Unbounded;
    forall x, y | x in Unbounded(trace) && y in Unbounded(trace) && x != y
      ensures Unbounded(trace)[x].at != Unbounded(trace)[y].at
    {
      UnboundedIsLatest(trace, x);
      UnboundedIsLatest(trace, y);
      var i :| IsLastUse(trace, x, i);
      var j :| IsLastUse(trace, y, j);
      assert i < j || j < i;
    }
  }

  /** The tracker is an LRU over its whole trace: a hash last recorded by use `i` is held exactly when
      fewer than the cap's number of distinct hashes were recorded after it. */
  lemma HeldIffFewRecordedSince(entries: Table, trace: seq<Use>, h: string, i: int)
    requires Increasing(trace) && MostRecentOf(entries, Unbounded(trace)) && IsLastUse(trace, h, i)
    ensures h in entries <==> |HashesAfter(trace, i)| < 1024
  {
    hide Increasing, MostRecentOf, Separated, Unbounded;
    LaterIsRecordedAfter(trace, h, i);
    UsesAreSeparated(trace);
    HeldIffFewLater(entries, Unbounded(trace), h);
  }
}
