/** Attribute escaping (src/content_sandbox.rs) and its decoder. */
module AttrEscape {
  import opened Options
  import opened Text

  /** The five specials of an attribute value; any other character stands for itself. */
  function AttrEntity(c: char): string {
    match c
    case '&' => "&amp;"
    case '"' => "&quot;"
    case '\'' => "&#39;"
    case '<' => "&lt;"
    case '>' => "&gt;"
    case _ => [c]
  }

  predicate Special(c: char) {
    c == '&' || c == '"' || c == '\'' || c == '<' || c == '>'
  }

  function AttrEscaped(s: string): string {
    if s == "" then "" else AttrEntity(s[0]) + AttrEscaped(s[1..])
  }

  /** `attr_escape`: one walk over the characters, pushing into a buffer. */
  method AttrEscape(s: string) returns (out: string)
    ensures out == AttrEscaped(s)
  {
    out := "";
    for i := 0 to |s|
      invariant out + AttrEscaped(s[i..]) == AttrEscaped(s)
    {
      ConcatAssociates(out, AttrEntity(s[i]), AttrEscaped(s[i + 1..]));
      assert s[i..][1..] == s[i + 1..];
      out := out + AttrEntity(s[i]);
    }
    assert s[|s|..] == "" && out + "" == out;
  }

  function AttrEntityAt(s: string): Option<char> {
    if AttrEntity('&') <= s then Some('&')
    else if AttrEntity('"') <= s then Some('"')
    else if AttrEntity('\'') <= s then Some('\'')
    else if AttrEntity('<') <= s then Some('<')
    else if AttrEntity('>') <= s then Some('>')
    else None
  }

  /** Decode the five entities in one left-to-right scan. */
  function AttrDecoded(s: string): string {
    if s == "" then ""
    else match AttrEntityAt(s)
      case Some(c) => [c] + AttrDecoded(s[|AttrEntity(c)|..])
      case None => [s[0]] + AttrDecoded(s[1..])
  }

  lemma EntitiesAreDistinguishable(c: char, x: string)
    requires Special(c)
    ensures AttrEntityAt(AttrEntity(c) + x) == Some(c)
  {
    var s := AttrEntity(c) + x;
    assert AttrEntity(c) <= s && s[1] == AttrEntity(c)[1];
    assert AttrEntity('&') <= s ==> s[1] == 'a';
    assert AttrEntity('"') <= s ==> s[1] == 'q';
    assert AttrEntity('\'') <= s ==> s[1] == '#';
    assert AttrEntity('<') <= s ==> s[1] == 'l';
    assert AttrEntity('>') <= s ==> s[1] == 'g';
  }

  lemma DecodeOneEntity(c: char, x: string)
    ensures AttrDecoded(AttrEntity(c) + x) == [c] + AttrDecoded(x)
  {
    var s := AttrEntity(c) + x;
    if Special(c) {
      EntitiesAreDistinguishable(c, x);
      assert s[|AttrEntity(c)|..] == x;
    } else {
      assert s[0] == c && s[1..] == x;
      assert AttrEntityAt(s) == None;
    }
  }

  /** Decoding inverts attribute escaping on every string. */
  lemma {:induction false} AttrRoundTrip(s: string)
    ensures AttrDecoded(AttrEscaped(s)) == s
  {
    if s != "" {
      AttrRoundTrip(s[1..]);
      DecodeOneEntity(s[0], AttrEscaped(s[1..]));
      assert s == [s[0]] + s[1..];
    }
  }

  /** An escaped value holds no quote and no angle, so it can neither close its attribute nor
      its tag. */
  lemma {:induction false} AttrEscapedIsInert(s: string)
    ensures '"' !in AttrEscaped(s) && '\'' !in AttrEscaped(s)
    ensures '<' !in AttrEscaped(s) && '>' !in AttrEscaped(s)
  {
    if s != "" {
      AttrEscapedIsInert(s[1..]);
      var e := AttrEntity(s[0]);
      assert forall i :: 0 <= i < |e| ==> e[i] != '"' && e[i] != '\'' && e[i] != '<' && e[i] != '>';
    }
  }
}
