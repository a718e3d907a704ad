/** Truncation on a character boundary: `clip`, `cap_body` and `cap_wrapped` of
    src/channel.rs. */
module Truncation {
  import opened Utf8

  const MAX_PUSH_BYTES: nat := 4096
  const TRUNCATED_NOTE := "\n[truncated by matrix-mcp]"
  const WRAPPER_END := "\n</matrix:message>"

  /** The bytes are some text's UTF-8 form, as every `&str` is. */
  ghost predicate WellFormed(bytes: seq<byte>) {
    exists s :: Encoded(s) == bytes
  }

  /** How many whole characters fit in `max` bytes. */
  function FitLength(s: string, max: nat): nat {
    if s == "" || |EncodedChar(s[0])| > max then 0
    else 1 + FitLength(s[1..], max - |EncodedChar(s[0])|)
  }

  /** The prefix kept is the longest whole-character prefix within the limit. */
  lemma {:induction false} FitIsLongest(s: string, max: nat, k: nat)
    requires k <= |s|
    ensures FitLength(s, max) <= |s|
    ensures Size(s[..k]) <= max <==> k <= FitLength(s, max)
  {
    if s == "" {
      assert s[..k] == "";
    } else if k > 0 {
      assert s[..k][0] == s[0] && s[..k][1..] == s[1..][..k - 1];
      if |EncodedChar(s[0])| <= max {
        FitIsLongest(s[1..], max - |EncodedChar(s[0])|, k - 1);
      }
    } else {
      if |EncodedChar(s[0])| <= max {
        FitIsLongest(s[1..], max - |EncodedChar(s[0])|, 0);
      }
    }
  }

  /** Unchanged when it fits; otherwise the longest prefix that does, then the marker. */
  function Cut(s: string, max: nat, marker: string): (r: string)
    ensures Size(s) <= max ==> r == s
    ensures Size(s) > max ==> exists k :: 0 <= k < |s| && r == s[..k] + marker && Size(s[..k]) <= max
  {
    FitIsLongest(s, max, |s|);
    FitIsLongest(s, max, FitLength(s, max));
    assert s[..|s|] == s;
    if Size(s) <= max then s else s[..FitLength(s, max)] + marker
  }

  function Clipped(s: string, max: nat): string { Cut(s, max, "\U{2026}") }

  function CappedBody(s: string): string { Cut(s, MAX_PUSH_BYTES, TRUNCATED_NOTE) }

  function CappedWrapped(s: string): string { Cut(s, MAX_PUSH_BYTES, TRUNCATED_NOTE + WRAPPER_END) }

  /** The loop all three share: step back from the limit to a character boundary. At most three
      steps, and never past a boundary. */
  method StepBack(bytes: seq<byte>, max: nat) returns (end: nat)
    requires WellFormed(bytes) && max < |bytes|
    ensures max - 3 <= end <= max
    ensures IsBoundary(bytes, end) && forall j :: end < j <= max ==> !IsBoundary(bytes, j)
    ensures forall s :: Encoded(s) == bytes ==> FitLength(s, max) <= |s| && bytes[..end] == Encoded(s[..FitLength(s, max)])
  {
    ghost var w :| Encoded(w) == bytes;
    ghost var b := BoundaryWithinThree(w, max);
    end := max;
    while !IsBoundary(bytes, end)
      invariant b <= end <= max
      invariant forall j :: end < j <= max ==> !IsBoundary(bytes, j)
      decreases end
    {
      end := end - 1;
    }
    forall s | Encoded(s) == bytes
      ensures FitLength(s, max) <= |s| && bytes[..end] == Encoded(s[..FitLength(s, max)])
    {
      LastBoundaryIsFit(s, max, end);
    }
  }

  /** The last boundary at or before the limit ends the longest fitting prefix. */
  lemma LastBoundaryIsFit(s: string, max: nat, end: nat)
    requires end <= max < Size(s) && IsBoundary(Encoded(s), end)
    requires forall j :: end < j <= max ==> !IsBoundary(Encoded(s), j)
    ensures FitLength(s, max) <= |s| && Encoded(s)[..end] == Encoded(s[..FitLength(s, max)])
  {
    var n := FitLength(s, max);
    FitIsLongest(s, max, 0);
    FitIsLongest(s, max, n);
    PrefixIsBoundary(s, n);
    assert Size(s[..n]) <= end;
    var k := BoundaryIsPrefix(s, end);
    assert Size(s[..k]) == end;
    FitIsLongest(s, max, k);
    assert s[..n] == s[..k] + s[k..n];
    EncodedConcat(s[..k], s[k..n]);
  }

  /** The common shape of the three truncations. */
  method CutBytes(bytes: seq<byte>, max: nat, marker: string) returns (out: seq<byte>)
    requires WellFormed(bytes)
    ensures WellFormed(out)
    ensures |bytes| <= max ==> out == bytes
    ensures |out| <= if |bytes| <= max then |bytes| else max + Size(marker)
    ensures forall s :: Encoded(s) == bytes ==> out == Encoded(Cut(s, max, marker))
  {
    if |bytes| <= max {
      return bytes;
    }
    var end := StepBack(bytes, max);
    out := bytes[..end] + Encoded(marker);
    forall s | Encoded(s) == bytes ensures out == Encoded(Cut(s, max, marker)) {
      EncodedConcat(s[..FitLength(s, max)], marker);
    }
    ghost var w :| Encoded(w) == bytes;
    assert out == Encoded(Cut(w, max, marker));
  }

  method Clip(bytes: seq<byte>, max: nat) returns (out: seq<byte>)
    requires WellFormed(bytes)
    ensures WellFormed(out)
    ensures |bytes| <= max ==> out == bytes
    ensures |out| <= if |bytes| <= max then max else max + 3
    ensures forall s :: Encoded(s) == bytes ==> out == Encoded(Clipped(s, max))
  {
    out := CutBytes(bytes, max, "\U{2026}");
    assert Encoded("\U{2026}") == EncodedChar('\U{2026}') + Encoded("");
  }

  method CapBody(bytes: seq<byte>) returns (out: seq<byte>)
    requires WellFormed(bytes)
    ensures WellFormed(out)
    ensures |bytes| <= 4096 ==> out == bytes
    ensures forall s :: Encoded(s) == bytes ==> out == Encoded(CappedBody(s))
  {
    out := CutBytes(bytes, MAX_PUSH_BYTES, TRUNCATED_NOTE);
  }

  method CapWrapped(bytes: seq<byte>) returns (out: seq<byte>)
    requires WellFormed(bytes)
    ensures WellFormed(out)
    ensures |bytes| <= 4096 ==> out == bytes
    ensures forall s :: Encoded(s) == bytes ==> out == Encoded(CappedWrapped(s))
  {
    out := CutBytes(bytes, MAX_PUSH_BYTES, TRUNCATED_NOTE + WRAPPER_END);
  }
}
