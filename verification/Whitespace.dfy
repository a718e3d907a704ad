/** Unicode White_Space, the trimming of `str::trim`, and blank-separated fields. */
module Whitespace {

  /** The 25 characters with the Unicode property White_Space. */
  predicate IsSpace(c: char) {
    var n := c as int;
    9 <= n <= 13 || n == 0x20 || n == 0x85 || n == 0xA0 || n == 0x1680 || 0x2000 <= n <= 0x200A
    || n == 0x2028 || n == 0x2029 || n == 0x202F || n == 0x205F || n == 0x3000
  }

  predicate Blank(s: string) {
    forall i :: 0 <= i < |s| ==> IsSpace(s[i])
  }

  function TrimmedStart(s: string): string {
    if s != "" && IsSpace(s[0]) then TrimmedStart(s[1..]) else s
  }

  function TrimmedEnd(s: string): string {
    if s != "" && IsSpace(s[|s| - 1]) then TrimmedEnd(s[..|s| - 1]) else s
  }

  /** `str::trim`. */
  function Trimmed(s: string): string {
    TrimmedEnd(TrimmedStart(s))
  }

  /** The characters before the first blank. */
  function FirstField(s: string): (f: string)
    ensures |f| <= |s| && f == s[..|f|]
  {
    if s == "" || IsSpace(s[0]) then "" else [s[0]] + FirstField(s[1..])
  }

  lemma {:induction false} TrimmedStartSkips(blank: string, s: string)
    requires Blank(blank) && (s == "" || !IsSpace(s[0]))
    ensures TrimmedStart(blank + s) == s
  {
    if blank == "" {
      assert blank + s == s;
    } else {
      assert (blank + s)[1..] == blank[1..] + s && (blank + s)[0] == blank[0];
      TrimmedStartSkips(blank[1..], s);
    }
  }

  /** Trimming the start removes a blank prefix and nothing else. */
  lemma {:induction false} TrimmedStartSplits(s: string) returns (blank: string)
    ensures Blank(blank) && s == blank + TrimmedStart(s)
    ensures TrimmedStart(s) == "" || !IsSpace(TrimmedStart(s)[0])
  {
    if s != "" && IsSpace(s[0]) {
      var rest := TrimmedStartSplits(s[1..]);
      blank := [s[0]] + rest;
      assert s == [s[0]] + s[1..];
    } else {
      blank := "";
    }
  }

  lemma {:induction false} FirstFieldIs(f: string, rest: string)
    requires forall i :: 0 <= i < |f| ==> !IsSpace(f[i])
    requires rest == "" || IsSpace(rest[0])
    ensures FirstField(f + rest) == f
  {
    if f == "" {
      assert f + rest == rest;
    } else {
      assert (f + rest)[1..] == f[1..] + rest && (f + rest)[0] == f[0];
      FirstFieldIs(f[1..], rest);
    }
  }

  lemma {:induction false} FirstFieldSplits(s: string)
    ensures s == FirstField(s) + s[|FirstField(s)|..]
    ensures s[|FirstField(s)|..] == "" || IsSpace(s[|FirstField(s)|..][0])
  {
    if s != "" && !IsSpace(s[0]) {
      FirstFieldSplits(s[1..]);
      assert s[1..][|FirstField(s[1..])|..] == s[|FirstField(s)|..];
    }
  }

  // ---- Fields ---------------------------------------------------------------------------

  /** `split_whitespace`. */
  function Fields(s: string): seq<string>
    decreases |s|
  {
    TrimmedStartShortens(s);
    var t := TrimmedStart(s);
    if t == "" then [] else [FirstField(t)] + Fields(t[|FirstField(t)|..])
  }

  lemma {:induction false} TrimmedStartShortens(s: string)
    ensures |TrimmedStart(s)| <= |s|
    ensures TrimmedStart(s) == "" || !IsSpace(TrimmedStart(s)[0])
  {
    if s != "" && IsSpace(s[0]) {
      TrimmedStartShortens(s[1..]);
    }
  }

  /** A field may begin behind `a`. */
  predicate EndsBlank(a: string) {
    a == "" || IsSpace(a[|a| - 1])
  }

  /** A field may end before `b`. */
  predicate BeginsBlank(b: string) {
    b == "" || IsSpace(b[0])
  }

  predicate IsField(f: string) {
    f != "" && forall i :: 0 <= i < |f| ==> !IsSpace(f[i])
  }

  lemma FieldsBehindBlank(blank: string, f: string, b: string)
    requires Blank(blank) && IsField(f) && BeginsBlank(b)
    ensures Fields(blank + f + b) == [f] + Fields(b)
  {
    assert blank + f + b == blank + (f + b);
    TrimmedStartSkips(blank, f + b);
    FirstFieldIs(f, b);
    assert (f + b)[|f|..] == b;
  }

  lemma BlankHasNoFields(s: string)
    requires Blank(s)
    ensures Fields(s) == [] && EndsBlank(s)
  {
    TrimmedStartSkips(s, "");
    assert s + "" == s;
  }

  lemma StartIsNotBlank(s: string, blank: string)
    requires s == blank + TrimmedStart(s) && Blank(blank) && !Blank(s)
    ensures TrimmedStart(s) != ""
  {
    assert blank + "" == blank;
  }

  /** A text that is not blank is blanks, its first field, and the rest. */
  lemma FirstFieldOf(s: string) returns (blank: string, ff: string, rest: string)
    requires !Blank(s)
    ensures s == blank + ff + rest && Blank(blank) && IsField(ff) && BeginsBlank(rest)
  {
    hide Blank, IsField, TrimmedStart, FirstField, IsSpace;
    blank := TrimmedStartSplits(s);
    StartIsNotBlank(s, blank);
    var t := TrimmedStart(s);
    ff := FirstField(t);
    FirstFieldIsField(t);
    FirstFieldSplits(t);
    rest := t[|ff|..];
    assert s == blank + (ff + rest);
  }

  /** A text of printable ASCII characters is a field. */
  lemma PrintableIsField(f: string)
    requires f != "" && forall i :: 0 <= i < |f| ==> '!' <= f[i] <= '~'
    ensures IsField(f)
  {
  }

  lemma FieldsJoin(p: string, f: string)
    requires IsField(p) && forall i :: 0 <= i < |f| ==> !IsSpace(f[i])
    ensures IsField(p + f)
  {
  }

  /** A field stands in a text where blanks or the ends of the text bound it. */
  lemma {:induction false} FieldStands(a: string, f: string, b: string)
    requires EndsBlank(a) && IsField(f) && BeginsBlank(b)
    ensures Fields(a + f + b) == Fields(a) + [f] + Fields(b)
    decreases |a|
  {
    hide Fields, Blank;
    if Blank(a) {
      FieldsBehindBlank(a, f, b);
      BlankHasNoFields(a);
      assert [] + [f] + Fields(b) == [f] + Fields(b);
    } else {
      var blank, ff, rest := FirstFieldOf(a);
      RestEndsBlank(blank, ff, rest);
      FieldsBehindBlank(blank, ff, rest);
      RestBeginsBlank(rest, f, b);
      FieldsBehindBlank(blank, ff, rest + f + b);
      FieldStands(rest, f, b);
      FiveParts(blank, ff, rest, f, b);
      assert [ff] + (Fields(rest) + [f] + Fields(b)) == [ff] + Fields(rest) + [f] + Fields(b);
    }
  }

  lemma FiveParts(blank: string, ff: string, rest: string, f: string, b: string)
    ensures blank + ff + rest + f + b == blank + ff + (rest + f + b)
  {
  }

  lemma RestEndsBlank(blank: string, ff: string, rest: string)
    requires IsField(ff) && EndsBlank(blank + ff + rest)
    ensures rest != "" && EndsBlank(rest)
  {
    LastOf(blank + ff, rest);
    LastOf(blank, ff);
  }

  lemma LastOf(a: string, b: string)
    requires a + b != ""
    ensures (a + b)[|a + b| - 1] == if b == "" then a[|a| - 1] else b[|b| - 1]
  {
  }

  lemma FirstOf(a: string, f: string, b: string)
    requires f != ""
    ensures a + f + b != "" && (a + f + b)[0] == (if a == "" then f else a)[0]
  {
  }

  lemma RestBeginsBlank(rest: string, f: string, b: string)
    requires rest != "" && BeginsBlank(rest) && f != ""
    ensures BeginsBlank(rest + f + b)
  {
    FirstOf(rest, f, b);
  }

  lemma {:induction false} FirstFieldIsField(t: string)
    requires t != "" && !IsSpace(t[0])
    ensures IsField(FirstField(t))
  {
    if |t| > 1 && !IsSpace(t[1]) {
      FirstFieldIsField(t[1..]);
    }
  }

  /** Every field of a text stands in it so bounded. */
  lemma {:induction false} FieldAt(s: string, k: nat) returns (a: string, b: string)
    requires k < |Fields(s)|
    ensures EndsBlank(a) && IsField(Fields(s)[k]) && BeginsBlank(b) && s == a + Fields(s)[k] + b
    ensures |Fields(a)| == k && Fields(b) == Fields(s)[k + 1..]
    decreases |s|
  {
    hide Fields, Blank;
    BlankOrNot(s);
    var blank, ff, rest := FirstFieldOf(s);
    FieldsBehindBlank(blank, ff, rest);
    if k == 0 {
      a, b := blank, rest;
      BlankHasNoFields(blank);
    } else {
      var a', b' := FieldAt(rest, k - 1);
      a, b := blank + ff + a', b';
      BoundedPrefix(blank, ff, rest, a', Fields(s)[k], b');
    }
  }

  lemma BlankOrNot(s: string)
    ensures Blank(s) ==> Fields(s) == []
  {
    if Blank(s) {
      BlankHasNoFields(s);
    }
  }

  lemma BoundedPrefix(blank: string, ff: string, rest: string, a: string, f: string, b: string)
    requires Blank(blank) && IsField(ff) && BeginsBlank(rest) && rest == a + f + b && EndsBlank(a) && IsField(f)
    ensures EndsBlank(blank + ff + a) && Fields(blank + ff + a) == [ff] + Fields(a)
    ensures blank + ff + rest == blank + ff + a + f + b
  {
    hide Fields;
    FirstOf(a, f, b);
    FieldsBehindBlank(blank, ff, a);
    LastOf(blank + ff, a);
    FiveParts(blank, ff, a, f, b);
  }
}
