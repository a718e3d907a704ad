/** Substrings and leftmost, non-overlapping replacement, as `str::contains` and
    `str::replace` define them. Texts are sequences of Unicode scalar values. */
module Text {

  /** `pat` stands in `s` at position `i`. */
  predicate MatchesAt(s: string, i: int, pat: string) {
    0 <= i <= |s| && pat <= s[i..]
  }

  predicate Contains(s: string, pat: string) {
    pat <= s || (s != "" && Contains(s[1..], pat))
  }

  /** Replace every leftmost, non-overlapping occurrence of `pat`. */
  function ReplaceAll(s: string, pat: string, rep: string): string
    requires pat != ""
  {
    if s == "" then ""
    else if pat <= s then rep + ReplaceAll(s[|pat|..], pat, rep)
    else [s[0]] + ReplaceAll(s[1..], pat, rep)
  }

  lemma {:induction false} ContainsIffMatches(s: string, pat: string)
    ensures Contains(s, pat) <==> exists i :: MatchesAt(s, i, pat)
  {
    if pat <= s {
      assert MatchesAt(s, 0, pat);
    } else if s != "" {
      ContainsIffMatches(s[1..], pat);
      if i :| MatchesAt(s[1..], i, pat) {
        assert s[1..][i..] == s[i + 1..];
        assert MatchesAt(s, i + 1, pat);
      }
      if i :| MatchesAt(s, i, pat) {
        assert s[1..][i - 1..] == s[i..];
        assert MatchesAt(s[1..], i - 1, pat);
      }
    }
  }

  lemma ConcatAssociates(a: string, b: string, c: string)
    ensures a + b + c == a + (b + c)
  {
  }

  /** A pass changes nothing in a text that does not contain its pattern. */
  lemma {:induction false} ReplaceAbsent(s: string, pat: string, rep: string)
    requires pat != "" && !Contains(s, pat)
    ensures ReplaceAll(s, pat, rep) == s
  {
    if s != "" {
      ReplaceAbsent(s[1..], pat, rep);
    }
  }

  /** Whatever a pass leaves at the front of its output, if free of the character that
      starts every replacement, already stood at the front of its input. */
  lemma {:induction false} PrefixComesFromInput(s: string, pat: string, rep: string, q: string)
    requires pat != "" && rep != "" && rep[0] !in q
    requires q <= ReplaceAll(s, pat, rep)
    ensures q <= s
  {
    if q != "" {
      assert ReplaceAll(s, pat, rep)[0] == q[0];
      assert q[1..] <= ReplaceAll(s[1..], pat, rep);
      PrefixComesFromInput(s[1..], pat, rep, q[1..]);
      assert s == [s[0]] + s[1..] && q == [q[0]] + q[1..];
    }
  }

  /** A pass neither creates an occurrence of `q` nor leaves one of its own pattern. */
  lemma {:induction false} PassCreatesNothing(s: string, pat: string, rep: string, q: string)
    requires pat != "" && rep != "" && q != ""
    requires rep[0] !in q && q[0] !in rep
    requires Contains(ReplaceAll(s, pat, rep), q)
    ensures Contains(s, q) && q != pat
  {
    var out := ReplaceAll(s, pat, rep);
    if s == "" {
    } else if pat <= s {
      SkipPrefix(rep, ReplaceAll(s[|pat|..], pat, rep), q);
      PassCreatesNothing(s[|pat|..], pat, rep, q);
      ContainsInTail(s, |pat|, q);
    } else if q <= out {
      PrefixComesFromInput(s, pat, rep, q);
    } else {
      assert out[1..] == ReplaceAll(s[1..], pat, rep);
      PassCreatesNothing(s[1..], pat, rep, q);
    }
  }

  /** An occurrence of `q` in `a + b` lies in `b` when `a` lacks the first character of `q`. */
  lemma {:induction false} SkipPrefix(a: string, b: string, q: string)
    requires q != "" && q[0] !in a
    requires Contains(a + b, q)
    ensures Contains(b, q)
  {
    if a == "" {
      assert a + b == b;
    } else {
      assert (a + b)[1..] == a[1..] + b;
      assert (a + b)[0] == a[0];
      SkipPrefix(a[1..], b, q);
    }
  }

  lemma {:induction false} ContainsInTail(s: string, n: nat, q: string)
    requires n <= |s| && Contains(s[n..], q)
    ensures Contains(s, q)
  {
    if n == 0 {
      assert s[0..] == s;
    } else {
      assert s[1..][n - 1..] == s[n..];
      ContainsInTail(s[1..], n - 1, q);
    }
  }

  /** A prefix without the first character of the pattern is carried over by the pass. */
  lemma {:induction false} PassKeepsPrefix(w: string, s: string, pat: string, rep: string)
    requires pat != "" && pat[0] !in w
    ensures ReplaceAll(w + s, pat, rep) == w + ReplaceAll(s, pat, rep)
  {
    if w == "" {
      assert w + s == s;
    } else {
      assert (w + s)[1..] == w[1..] + s && (w + s)[0] == w[0];
      PassKeepsPrefix(w[1..], s, pat, rep);
    }
  }

  /** A pass whose pattern is a single character works on each character alone. */
  lemma {:induction false} PassOfOneCharacter(a: string, b: string, c: char, rep: string)
    ensures ReplaceAll(a + b, [c], rep) == ReplaceAll(a, [c], rep) + ReplaceAll(b, [c], rep)
  {
    if a == "" {
      assert a + b == b;
    } else {
      assert (a + b)[1..] == a[1..] + b && (a + b)[0] == a[0];
      PassOfOneCharacter(a[1..], b, c, rep);
      assert ([c] <= a) <==> a[0] == c;
      assert ([c] <= a + b) <==> a[0] == c;
    }
  }

  /** A pattern without the separator never straddles it. */
  lemma SeparatorSplitsMatches(a: string, sep: char, b: string, pat: string, i: int)
    requires pat != "" && sep !in pat
    ensures MatchesAt(a + [sep] + b, i, pat) <==> MatchesAt(a, i, pat) || MatchesAt(b, i - |a| - 1, pat)
  {
    var s := a + [sep] + b;
    assert s[|a|] == sep;
    if 0 <= i <= |a| {
      assert s[i..] == a[i..] + [sep] + b;
      assert s[i..][|a| - i] == sep;
    } else if |a| < i <= |s| {
      assert s[i..] == b[i - |a| - 1..];
    }
  }
}
