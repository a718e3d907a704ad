/** `supersede_edits` of src/channel.rs: a batch keeps the newest edit of each event and drops
    what that edit supersedes. */
module Supersession {
  import opened Options
  import opened ReadEvents
  import opened Subsequences

  datatype Candidate = Candidate(event: ReadEvent, carried: Carried)

  function Id(c: Candidate): Option<string> { c.event.eventId }
  function Target(c: Candidate): Option<string> { ReplacesOf(c.event) }
  function Ts(c: Candidate): nat { c.event.originServerTs.GetOr(0) }

  /** An edit of `target` that carries an id of its own. */
  predicate EditOf(c: Candidate, target: string) {
    Target(c) == Some(target) && Id(c).Some?
  }

  // ---- Specification ------------------------------------------------------------------

  /** Time stamp and id of the newest identified edit of `target`; a later position wins a tie. */
  function Newest(b: seq<Candidate>, target: string): Option<(nat, string)> {
    if b == [] then None
    else
      var c, best := b[|b| - 1], Newest(b[..|b| - 1], target);
      if EditOf(c, target) && (best.None? || Ts(c) >= best.value.0) then Some((Ts(c), Id(c).value)) else best
  }

  /** The id of the newest edit of some event. */
  ghost predicate Wins(b: seq<Candidate>, id: string) {
    exists target :: Newest(b, target).Some? && Newest(b, target).value.1 == id
  }

  ghost predicate Superseded(b: seq<Candidate>, id: string) {
    Newest(b, id).Some?
  }

  /** The judgement on one candidate. Without an id it stays; an edit stays when it wins; anything
      else stays unless an edit of it is in the batch. */
  ghost predicate Keeps(b: seq<Candidate>, c: Candidate) {
    if Id(c).None? then true
    else if Target(c).Some? then Wins(b, Id(c).value)
    else !Superseded(b, Id(c).value)
  }

  /** The members of `part` that the batch `b` keeps, in order. */
  ghost function KeptOf(b: seq<Candidate>, part: seq<Candidate>): seq<Candidate> {
    if part == [] then []
    else
      var c := part[|part| - 1];
      KeptOf(b, part[..|part| - 1]) + (if Keeps(b, c) then [c] else [])
  }

  ghost function Survivors(b: seq<Candidate>): seq<Candidate> {
    KeptOf(b, b)
  }

  // ---- The code -----------------------------------------------------------------------

  /** `supersede_edits`: one walk to find the newest edits, one to filter. */
  method SupersedeEdits(candidates: seq<Candidate>) returns (out: seq<Candidate>)
    ensures out == Survivors(candidates)
  {
    var newest: map<string, (nat, string)> := map[];
    for i := 0 to |candidates|
      invariant forall t :: (t in newest <==> Newest(candidates[..i], t).Some?)
      invariant forall t :: t in newest ==> Newest(candidates[..i], t) == Some(newest[t])
    {
      var c := candidates[i];
      assert candidates[..i + 1][..i] == candidates[..i];
      if Target(c).Some? && Id(c).Some? {
        var target := Target(c).value;
        if target !in newest || Ts(c) >= newest[target].0 {
          newest := newest[target := (Ts(c), Id(c).value)];
        }
      }
    }
    assert candidates[..|candidates|] == candidates;
    if newest == map[] {
      NothingSuperseded(candidates, candidates);
      return candidates;
    }
    var winners := set t | t in newest :: newest[t].1;
    assert forall id :: id in winners <==> Wins(candidates, id);
    out := [];
    for i := 0 to |candidates|
      invariant out == KeptOf(candidates, candidates[..i])
    {
      var c := candidates[i];
      assert candidates[..i + 1][..i] == candidates[..i];
      var keep;
      if Id(c).None? {
        keep := true;
      } else if Target(c).Some? {
        keep := Id(c).value in winners;
      } else {
        keep := Id(c).value !in newest;
      }
      if keep {
        out := out + [c];
      }
    }
    assert candidates[..|candidates|] == candidates;
  }

  lemma {:induction false} NothingSuperseded(b: seq<Candidate>, part: seq<Candidate>)
    requires forall t :: Newest(b, t).None?
    requires forall c :: c in part ==> c in b
    ensures KeptOf(b, part) == part
  {
    if part != [] {
      var c := part[|part| - 1];
      NothingSuperseded(b, part[..|part| - 1]);
      if Id(c).Some? && Target(c).Some? {
        var i := NewestIsMax(b, Target(c).value);
        assert c in part && EditOf(c, Target(c).value);
      }
    }
  }

  // ---- The newest edit ----------------------------------------------------------------

  /** `i` is the identified edit of `target` greatest by time stamp, then by position. */
  ghost predicate IsNewestEdit(b: seq<Candidate>, target: string, i: int) {
    && 0 <= i < |b| && EditOf(b[i], target)
    && forall j :: 0 <= j < |b| && EditOf(b[j], target) ==> Ts(b[j]) < Ts(b[i]) || (Ts(b[j]) == Ts(b[i]) && j <= i)
  }

  /** `Newest` finds the greatest identified edit of a target, and finds one when there is one. */
  lemma {:induction false} NewestIsMax(b: seq<Candidate>, target: string) returns (i: int)
    ensures Newest(b, target).None? ==> forall j :: 0 <= j < |b| ==> !EditOf(b[j], target)
    ensures Newest(b, target).Some? ==>
              IsNewestEdit(b, target, i) && Newest(b, target).value == (Ts(b[i]), Id(b[i]).value)
  {
    i := -1;
    if b != [] {
      var n := |b| - 1;
      i := NewestIsMax(b[..n], target);
      assert forall j :: 0 <= j < n ==> b[..n][j] == b[j];
      if EditOf(b[n], target) && (Newest(b[..n], target).None? || Ts(b[n]) >= Newest(b[..n], target).value.0) {
        i := n;
      }
    }
  }

  lemma NewestIsUnique(b: seq<Candidate>, target: string, i: int, j: int)
    requires IsNewestEdit(b, target, i) && IsNewestEdit(b, target, j)
    ensures i == j
  {
  }

  lemma NewestOfSnoc(front: seq<Candidate>, c: Candidate, target: string)
    ensures var best := Newest(front, target);
            Newest(front + [c], target)
            == if EditOf(c, target) && (best.None? || Ts(c) >= best.value.0) then Some((Ts(c), Id(c).value)) else best
  {
    assert (front + [c])[..|front|] == front;
  }

  lemma KeptOfSnoc(b: seq<Candidate>, front: seq<Candidate>, c: Candidate)
    ensures KeptOf(b, front + [c]) == if Keeps(b, c) then KeptOf(b, front) + [c] else KeptOf(b, front)
  {
    assert (front + [c])[..|front|] == front;
  }

  lemma KeptOfNothing(b: seq<Candidate>)
    ensures KeptOf(b, []) == []
  {
  }

  // ---- Theorems -----------------------------------------------------------------------

  /** The survivors are a subsequence of the batch: exactly the positions it keeps. */
  lemma {:induction false} KeptIsSubsequence(b: seq<Candidate>, part: seq<Candidate>) returns (at: seq<nat>)
    ensures Embeds(KeptOf(b, part), part, at)
    ensures forall k :: 0 <= k < |part| ==> (k in at <==> Keeps(b, part[k]))
  {
    hide Keeps, KeptOf, Embeds;
    at := [];
    if part == [] {
      KeptOfNothing(b);
      assert Embeds(KeptOf(b, part), part, at) by { NothingEmbeds(part); }
    } else {
      var n := |part| - 1;
      var c, front := part[n], part[..n];
      assert part == front + [c];
      at := KeptIsSubsequence(b, front);
      KeptOfSnoc(b, front, c);
      EmbedsSkip(KeptOf(b, front), front, at, c);
      EmbedsTake(KeptOf(b, front), front, at, c);
      EmbeddedPositionsAreInside(KeptOf(b, front), front, at);
      at := if Keeps(b, c) then at + [n] else at;
    }
  }

  lemma NothingEmbeds(b: seq<Candidate>)
    ensures Embeds([], b, [])
  {
  }

  lemma EmbeddedPositionsAreInside(a: seq<Candidate>, b: seq<Candidate>, at: seq<nat>)
    requires Embeds(a, b, at)
    ensures forall k :: k in at ==> k < |b|
  {
  }

  /** Nothing is lost: every event dropped is covered by a surviving edit of it, or of the event it
      edits itself. Self-naming edits and edits that name each other are no exception. */
  lemma DroppedEventsAreCovered(b: seq<Candidate>, k: int) returns (w: int)
    requires 0 <= k < |b| && !Keeps(b, b[k])
    ensures 0 <= w < |b| && Keeps(b, b[w])
    ensures EditOf(b[w], if Target(b[k]).Some? then Target(b[k]).value else Id(b[k]).value)
  {
    var t := if Target(b[k]).Some? then Target(b[k]).value else Id(b[k]).value;
    w := NewestIsMax(b, t);
  }

  /** With distinct ids, an edit survives exactly when it is its target's greatest by time stamp
      and then by position: so exactly one edit per target. */
  lemma ExactlyTheNewestEditSurvives(b: seq<Candidate>, target: string, k: int)
    requires forall i, j :: 0 <= i < j < |b| && Id(b[i]).Some? ==> Id(b[i]) != Id(b[j])
    requires 0 <= k < |b| && EditOf(b[k], target)
    ensures Keeps(b, b[k]) <==> IsNewestEdit(b, target, k)
  {
    var w := NewestIsMax(b, target);
    if Keeps(b, b[k]) {
      var other :| Newest(b, other).Some? && Newest(b, other).value.1 == Id(b[k]).value;
      var v := NewestIsMax(b, other);
      assert v == k;
    }
    if IsNewestEdit(b, target, k) {
      NewestIsUnique(b, target, k, w);
    }
  }

  /** A plain event survives exactly when no identified edit in the batch targets it. */
  lemma PlainEventSurvivesUnlessEdited(b: seq<Candidate>, k: int)
    requires 0 <= k < |b| && Target(b[k]).None? && Id(b[k]).Some?
    ensures Keeps(b, b[k]) <==> forall j :: 0 <= j < |b| ==> !EditOf(b[j], Id(b[k]).value)
  {
    var w := NewestIsMax(b, Id(b[k]).value);
  }

  /** Dropping candidates the batch does not keep leaves every target's newest edit as it was. */
  lemma {:induction false} NewestSurvivesFilter(b: seq<Candidate>, part: seq<Candidate>, target: string)
    requires Newest(part, target).Some? ==> Wins(b, Newest(part, target).value.1)
    ensures Newest(KeptOf(b, part), target) == Newest(part, target)
  {
    hide KeptOf, Id, Target, Ts, Wins;
    if part == [] {
      assert KeptOf(b, part) == [] by { KeptOfNothing(b); }
    } else {
      var c, front := part[|part| - 1], part[..|part| - 1];
      assert part == front + [c];
      KeptOfSnoc(b, front, c);
      NewestOfSnoc(front, c, target);
      NewestOfSnoc(KeptOf(b, front), c, target);
      NewestOfKeptIsNoNewer(b, front, target);
      var best := Newest(front, target);
      if EditOf(c, target) && (best.None? || Ts(c) >= best.value.0) {
        assert Keeps(b, c);
      } else {
        NewestSurvivesFilter(b, front, target);
      }
    }
  }

  /** A filtered batch has no newer edit than the batch itself. */
  lemma {:induction false} NewestOfKeptIsNoNewer(b: seq<Candidate>, part: seq<Candidate>, target: string)
    ensures Newest(KeptOf(b, part), target).Some? ==>
              Newest(part, target).Some? && Newest(KeptOf(b, part), target).value.0 <= Newest(part, target).value.0
  {
    hide KeptOf, Id, Target, Ts, Keeps;
    if part == [] {
      KeptOfNothing(b);
    } else {
      var c, front := part[|part| - 1], part[..|part| - 1];
      assert part == front + [c];
      KeptOfSnoc(b, front, c);
      NewestOfSnoc(front, c, target);
      NewestOfSnoc(KeptOf(b, front), c, target);
      NewestOfKeptIsNoNewer(b, front, target);
    }
  }

  lemma {:induction false} AllKept(b: seq<Candidate>, part: seq<Candidate>)
    requires forall c :: c in part ==> Keeps(b, c)
    ensures KeptOf(b, part) == part
  {
    if part != [] {
      AllKept(b, part[..|part| - 1]);
    }
  }

  /** Superseding twice is superseding once. */
  lemma SupersessionIsIdempotent(b: seq<Candidate>)
    ensures Survivors(Survivors(b)) == Survivors(b)
  {
    var s := Survivors(b);
    forall t ensures Newest(s, t) == Newest(b, t) {
      NewestSurvivesFilter(b, b, t);
    }
    var at := KeptIsSubsequence(b, b);
    forall c | c in s ensures Keeps(s, c) {
      var i :| 0 <= i < |s| && s[i] == c;
      assert at[i] in at && b[at[i]] == c;
      assert Keeps(b, c);
      if Id(c).Some? && Target(c).Some? {
        var t :| Newest(b, t).Some? && Newest(b, t).value.1 == Id(c).value;
        assert Newest(s, t) == Newest(b, t);
      }
    }
    AllKept(s, s);
  }

  // ---- A later pass over the newer part ------------------------------------------------

  lemma SuffixAt(pre: seq<Candidate>, suf: seq<Candidate>, k: int)
    requires 0 <= k < |pre + suf|
    ensures (pre + suf)[k] == if k < |pre| then pre[k] else suf[k - |pre|]
  {
  }

  /** A winner that stands in the newer part wins there too. */
  lemma WinnerWinsInSuffix(pre: seq<Candidate>, suf: seq<Candidate>, id: string)
    requires Wins(pre + suf, id)
    requires forall j :: 0 <= j < |pre| ==> Id(pre[j]) != Some(id)
    ensures Wins(suf, id)
  {
    var b := pre + suf;
    var target :| Newest(b, target).Some? && Newest(b, target).value.1 == id;
    var i := NewestIsMax(b, target);
    var w := NewestIsMax(suf, target);
    SuffixAt(pre, suf, i);
    forall j | 0 <= j < |suf| ensures b[|pre| + j] == suf[j] {
      SuffixAt(pre, suf, |pre| + j);
    }
    assert IsNewestEdit(suf, target, i - |pre|);
    NewestIsUnique(suf, target, i - |pre|, w);
  }

  /** What a batch keeps, its newer part alone keeps, unless it is an edit whose id an older event
      shares. */
  lemma SuffixKeeps(pre: seq<Candidate>, suf: seq<Candidate>, c: Candidate)
    requires Keeps(pre + suf, c)
    requires Target(c).Some? ==> forall j :: 0 <= j < |pre| ==> Id(pre[j]) != Id(c)
    ensures Keeps(suf, c)
  {
    hide Wins, Newest;
    if Id(c).Some? {
      if Target(c).Some? {
        WinnerWinsInSuffix(pre, suf, Id(c).value);
      } else {
        var b := pre + suf;
        var i := NewestIsMax(b, Id(c).value);
        var w := NewestIsMax(suf, Id(c).value);
        assert forall j :: 0 <= j < |suf| ==> b[|pre| + j] == suf[j];
      }
    }
  }

  /** What the newer part alone keeps, the whole batch keeps exactly when no older edit of the same
      event has a later time stamp, and, of a plain event, there is no older edit at all: so a pass
      over the newer part resurrects nothing exactly when the time stamps of each event's edits do
      not decrease along the timeline and its edits follow it. */
  lemma NewerPartAgreesExactlyWhen(pre: seq<Candidate>, suf: seq<Candidate>, k: int)
    requires forall i, j :: 0 <= i < j < |pre + suf| && Id((pre + suf)[i]).Some? ==> Id((pre + suf)[i]) != Id((pre + suf)[j])
    requires 0 <= k < |suf| && Id(suf[k]).Some? && Keeps(suf, suf[k])
    ensures Keeps(pre + suf, suf[k]) <==>
              forall j :: 0 <= j < |pre| ==>
                if Target(suf[k]).Some? then EditOf(pre[j], Target(suf[k]).value) ==> Ts(pre[j]) <= Ts(suf[k])
                else !EditOf(pre[j], Id(suf[k]).value)
  {
    hide Keeps;
    var b := pre + suf;
    forall j ensures 0 <= j < |pre| ==> b[j] == pre[j] {}
    forall j ensures 0 <= j < |suf| ==> b[|pre| + j] == suf[j] {}
    if Target(suf[k]).Some? {
      var target := Target(suf[k]).value;
      ExactlyTheNewestEditSurvives(suf, target, k);
      ExactlyTheNewestEditSurvives(b, target, |pre| + k);
      if IsNewestEdit(b, target, |pre| + k) {
        forall j | 0 <= j < |pre| && EditOf(pre[j], target) ensures Ts(pre[j]) <= Ts(suf[k]) {
          assert EditOf(b[j], target);
        }
      }
    } else {
      var id := Id(suf[k]).value;
      PlainEventSurvivesUnlessEdited(suf, k);
      PlainEventSurvivesUnlessEdited(b, |pre| + k);
      if forall j :: 0 <= j < |b| ==> !EditOf(b[j], id) {
        forall j | 0 <= j < |pre| ensures !EditOf(pre[j], id) {
          assert !EditOf(b[j], id);
        }
      }
    }
  }
}
