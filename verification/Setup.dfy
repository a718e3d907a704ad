/** HTML escaping and percent-encoding of the setup pages (src/setup.rs). */
module Setup {
  import opened AttrEscape
  import opened Options
  import opened Text
  import opened Utf8

  /** `html_escape`: five replace-all passes, the ampersand first. */
  function HtmlEscaped(s: string): string {
    var amp := ReplaceAll(s, "&", "&amp;");
    var lt := ReplaceAll(amp, "<", "&lt;");
    var gt := ReplaceAll(lt, ">", "&gt;");
    var quot := ReplaceAll(gt, "\"", "&quot;");
    ReplaceAll(quot, "'", "&#39;")
  }

  lemma PassSkips(w: string, c: char, rep: string)
    requires c !in w
    ensures ReplaceAll(w, [c], rep) == w
  {
    PassKeepsPrefix(w, "", [c], rep);
    assert w + "" == w;
  }

  lemma PassOnSingleton(c: char, rep: string)
    ensures ReplaceAll([c], [c], rep) == rep
  {
    assert [c][1..] == "";
    assert rep + "" == rep;
  }

  lemma HtmlEscapedConcat(a: string, b: string)
    ensures HtmlEscaped(a + b) == HtmlEscaped(a) + HtmlEscaped(b)
  {
    PassOfOneCharacter(a, b, '&', "&amp;");
    var a1, b1 := ReplaceAll(a, "&", "&amp;"), ReplaceAll(b, "&", "&amp;");
    PassOfOneCharacter(a1, b1, '<', "&lt;");
    var a2, b2 := ReplaceAll(a1, "<", "&lt;"), ReplaceAll(b1, "<", "&lt;");
    PassOfOneCharacter(a2, b2, '>', "&gt;");
    var a3, b3 := ReplaceAll(a2, ">", "&gt;"), ReplaceAll(b2, ">", "&gt;");
    PassOfOneCharacter(a3, b3, '"', "&quot;");
    PassOfOneCharacter(ReplaceAll(a3, "\"", "&quot;"), ReplaceAll(b3, "\"", "&quot;"), '\'', "&#39;");
  }

  lemma HtmlEscapedCharacter(c: char)
    ensures HtmlEscaped([c]) == AttrEntity(c)
  {
    var e := AttrEntity(c);
    assert forall i :: 0 <= i < |e| ==> e[i] != '"' && e[i] != '\'' && e[i] != '<' && e[i] != '>';
    if c == '&' {
      PassOnSingleton(c, e);
      PassSkips(e, '<', "&lt;");
      PassSkips(e, '>', "&gt;");
      PassSkips(e, '"', "&quot;");
      PassSkips(e, '\'', "&#39;");
    } else if c == '<' {
      PassSkips([c], '&', "&amp;");
      PassOnSingleton(c, e);
      PassSkips(e, '>', "&gt;");
      PassSkips(e, '"', "&quot;");
      PassSkips(e, '\'', "&#39;");
    } else if c == '>' {
      PassSkips([c], '&', "&amp;");
      PassSkips([c], '<', "&lt;");
      PassOnSingleton(c, e);
      PassSkips(e, '"', "&quot;");
      PassSkips(e, '\'', "&#39;");
    } else if c == '"' {
      PassSkips([c], '&', "&amp;");
      PassSkips([c], '<', "&lt;");
      PassSkips([c], '>', "&gt;");
      PassOnSingleton(c, e);
      PassSkips(e, '\'', "&#39;");
    } else {
      PassSkips([c], '&', "&amp;");
      PassSkips([c], '<', "&lt;");
      PassSkips([c], '>', "&gt;");
      PassSkips([c], '"', "&quot;");
      if c == '\'' { PassOnSingleton(c, e); } else { PassSkips([c], '\'', "&#39;"); }
    }
  }

  /** The five sequential passes are the one-pass attribute escaper, so their decoder is the
      same. */
  lemma {:induction false} HtmlEscapeIsAttrEscape(s: string)
    ensures HtmlEscaped(s) == AttrEscaped(s)
  {
    if s != "" {
      assert s == [s[0]] + s[1..];
      HtmlEscapedConcat([s[0]], s[1..]);
      HtmlEscapedCharacter(s[0]);
      HtmlEscapeIsAttrEscape(s[1..]);
    }
  }

  // ---- Percent-encoding ---------------------------------------------------------------

  /** The unreserved characters of section 2.3 of RFC 3986. */
  predicate Unreserved(b: byte) {
    'A' as int <= b as int <= 'Z' as int || 'a' as int <= b as int <= 'z' as int
    || '0' as int <= b as int <= '9' as int
    || b as int == '-' as int || b as int == '_' as int || b as int == '.' as int || b as int == '~' as int
  }

  function HexDigit(d: int): char
    requires 0 <= d < 16
  {
    "0123456789ABCDEF"[d]
  }

  function HexValue(c: char): Option<int> {
    if '0' <= c <= '9' then Some(c as int - '0' as int)
    else if 'A' <= c <= 'F' then Some(c as int - 'A' as int + 10)
    else if 'a' <= c <= 'f' then Some(c as int - 'a' as int + 10)
    else None
  }

  function EncodedByte(b: byte): string {
    if Unreserved(b) then [b as int as char]
    else ['%', HexDigit(b as int / 16), HexDigit(b as int % 16)]
  }

  function UrlEncoded(bytes: seq<byte>): string {
    if bytes == [] then "" else EncodedByte(bytes[0]) + UrlEncoded(bytes[1..])
  }

  /** `url_encode`: one walk over the bytes, pushing into a buffer. */
  method UrlEncode(bytes: seq<byte>) returns (out: string)
    ensures out == UrlEncoded(bytes)
  {
    out := "";
    for i := 0 to |bytes|
      invariant out + UrlEncoded(bytes[i..]) == UrlEncoded(bytes)
    {
      ConcatAssociates(out, EncodedByte(bytes[i]), UrlEncoded(bytes[i + 1..]));
      assert bytes[i..][1..] == bytes[i + 1..];
      if Unreserved(bytes[i]) {
        out := out + [bytes[i] as int as char];
      } else {
        out := out + ['%', HexDigit(bytes[i] as int / 16), HexDigit(bytes[i] as int % 16)];
      }
    }
    assert bytes[|bytes|..] == [] && out + "" == out;
  }

  /** Percent-decoding (section 2.1 of RFC 3986): a triplet is its octet, any other single-octet
      character is itself, and a broken triplet or a wider character is refused. */
  function UrlDecoded(s: string): Option<seq<byte>> {
    if s == "" then Some([])
    else if s[0] == '%' then
      if |s| < 3 || HexValue(s[1]) == None || HexValue(s[2]) == None then None
      else
        match UrlDecoded(s[3..])
        case Some(rest) => Some([(HexValue(s[1]).value * 16 + HexValue(s[2]).value) as byte] + rest)
        case None => None
    else if s[0] as int >= 256 then None
    else
      match UrlDecoded(s[1..])
      case Some(rest) => Some([s[0] as int as byte] + rest)
      case None => None
  }

  lemma HexDigitsReadBack(d: int)
    requires 0 <= d < 16
    ensures HexValue(HexDigit(d)) == Some(d)
  {
  }

  lemma DecodeOneByte(b: byte, rest: string, tail: seq<byte>)
    requires UrlDecoded(rest) == Some(tail)
    ensures UrlDecoded(EncodedByte(b) + rest) == Some([b] + tail)
  {
    var out := EncodedByte(b) + rest;
    if Unreserved(b) {
      assert out[0] == b as int as char && out[1..] == rest;
    } else {
      HexDigitsReadBack(b as int / 16);
      HexDigitsReadBack(b as int % 16);
      assert out[0] == '%' && out[1] == HexDigit(b as int / 16) && out[2] == HexDigit(b as int % 16);
      assert out[3..] == rest;
    }
  }

  /** Percent-decoding inverts percent-encoding on every byte string. */
  lemma {:induction false} UrlRoundTrip(bytes: seq<byte>)
    ensures UrlDecoded(UrlEncoded(bytes)) == Some(bytes)
  {
    if bytes != [] {
      UrlRoundTrip(bytes[1..]);
      DecodeOneByte(bytes[0], UrlEncoded(bytes[1..]), bytes[1..]);
      assert bytes == [bytes[0]] + bytes[1..];
    }
  }

  /** A character the encoder may write. */
  predicate SafeInQuery(c: char) {
    c == '%' || (c as int < 128 && Unreserved(c as int as byte))
  }

  lemma EncodedByteIsSafe(b: byte)
    ensures |EncodedByte(b)| > 0 && forall i :: 0 <= i < |EncodedByte(b)| ==> SafeInQuery(EncodedByte(b)[i])
  {
    var hi, lo := b as int / 16, b as int % 16;
    assert SafeInQuery(HexDigit(hi)) && SafeInQuery(HexDigit(lo));
  }

  /** The output is safe inside a query: only unreserved characters and triplets of upper-case
      hexadecimal digits. */
  lemma {:induction false} UrlEncodedIsUnreservedOrTriplets(bytes: seq<byte>, i: int)
    requires 0 <= i < |UrlEncoded(bytes)|
    ensures SafeInQuery(UrlEncoded(bytes)[i])
  {
    hide SafeInQuery, EncodedByte;
    var head := EncodedByte(bytes[0]);
    EncodedByteIsSafe(bytes[0]);
    if i >= |head| {
      UrlEncodedIsUnreservedOrTriplets(bytes[1..], i - |head|);
    } else {
      assert UrlEncoded(bytes)[i] == head[i];
    }
  }
}
