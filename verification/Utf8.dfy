/** UTF-8 as section 3 of RFC 3629 defines it: the byte form of a text, and which byte
    positions are character boundaries. */
module Utf8 {

  newtype byte = b: int | 0 <= b < 256

  /** The one to four octets of a character. */
  function EncodedChar(c: char): (bytes: seq<byte>)
    ensures 1 <= |bytes| <= 4
    ensures !Continuation(bytes[0]) && forall i :: 1 <= i < |bytes| ==> Continuation(bytes[i])
  {
    var n := c as int;
    if n < 0x80 then [n as byte]
    else if n < 0x800 then [(0xC0 + n / 64) as byte, (0x80 + n % 64) as byte]
    else if n < 0x1_0000 then
      [(0xE0 + n / 4096) as byte, (0x80 + n / 64 % 64) as byte, (0x80 + n % 64) as byte]
    else
      [(0xF0 + n / 262144) as byte, (0x80 + n / 4096 % 64) as byte,
       (0x80 + n / 64 % 64) as byte, (0x80 + n % 64) as byte]
  }

  /** The tail octets of the table, `10xxxxxx`. */
  predicate Continuation(b: byte) {
    0x80 <= b < 0xC0
  }

  function Encoded(s: string): seq<byte> {
    if s == "" then [] else EncodedChar(s[0]) + Encoded(s[1..])
  }

  /** The byte length of a text. */
  function Size(s: string): nat {
    |Encoded(s)|
  }

  /** `str::is_char_boundary`: the end, or any octet that is not a continuation. */
  predicate IsBoundary(bytes: seq<byte>, i: nat)
    requires i <= |bytes|
  {
    i == |bytes| || !Continuation(bytes[i])
  }

  lemma {:induction false} EncodedConcat(a: string, b: string)
    ensures Encoded(a + b) == Encoded(a) + Encoded(b)
  {
    if a == "" {
      assert a + b == b;
    } else {
      assert (a + b)[0] == a[0] && (a + b)[1..] == a[1..] + b;
      EncodedConcat(a[1..], b);
    }
  }

  /** A boundary of the encoded text is the end of a whole number of its characters. */
  lemma {:induction false} BoundaryIsPrefix(s: string, i: nat) returns (k: nat)
    requires i <= Size(s) && IsBoundary(Encoded(s), i)
    ensures k <= |s| && Encoded(s[..k]) == Encoded(s)[..i]
  {
    if i == 0 {
      k := 0;
    } else {
      var head := EncodedChar(s[0]);
      assert i >= |head|;
      if i < Size(s) {
        assert Encoded(s)[i] == Encoded(s[1..])[i - |head|];
      }
      var tail := BoundaryIsPrefix(s[1..], i - |head|);
      k := tail + 1;
      assert s[..k][1..] == s[1..][..tail] && s[..k][0] == s[0];
    }
  }

  /** The end of every whole-character prefix is a boundary. */
  lemma {:induction false} PrefixIsBoundary(s: string, k: nat)
    requires k <= |s|
    ensures Size(s[..k]) <= Size(s) && Encoded(s)[..Size(s[..k])] == Encoded(s[..k])
    ensures IsBoundary(Encoded(s), Size(s[..k]))
  {
    assert s == s[..k] + s[k..];
    EncodedConcat(s[..k], s[k..]);
    if k < |s| {
      assert Encoded(s)[Size(s[..k])] == EncodedChar(s[k])[0];
    }
  }

  /** Among any four consecutive positions inside the text there is a boundary. */
  lemma {:induction false} BoundaryWithinThree(s: string, i: nat) returns (j: nat)
    requires i <= Size(s)
    ensures i - 3 <= j <= i && IsBoundary(Encoded(s), j)
  {
    if i == 0 || i < |EncodedChar(s[0])| {
      j := 0;
    } else {
      var head := EncodedChar(s[0]);
      var tail := BoundaryWithinThree(s[1..], i - |head|);
      j := tail + |head|;
      if j < Size(s) {
        assert Encoded(s)[j] == Encoded(s[1..])[tail];
      }
    }
  }
}
