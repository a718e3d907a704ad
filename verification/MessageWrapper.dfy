/** The `<matrix:message>` delimiter: `wrap_body` (src/content_sandbox.rs), and what is left of
    it after `cap_wrapped` (src/channel.rs). */
module MessageWrapper {
  import opened AttrEscape
  import opened ContentSandbox
  import opened EscapeRoundTrip
  import opened Options
  import opened Text
  import opened Truncation
  import opened Utf8

  const ROOM := " room=\""
  const SENDER := " sender=\""
  const ID := " id=\""
  const TRUST := " trust=\"external\">"

  /** The envelope, as the attributes of the opening tag. */
  function Attrs(room: string, sender: string, id: string): string {
    ROOM + AttrEscaped(room) + "\"" + (SENDER + AttrEscaped(sender) + "\""
    + (ID + AttrEscaped(id) + "\"" + TRUST))
  }

  /** Content between an opening and a closing tag, each on its own line. */
  function Framed(tag: string, attrs: string, content: string): string {
    "<" + tag + attrs + "\n" + (content + "\n" + ("</" + tag + ">"))
  }

  function Opener(t: Tables): string { "<" + t.outer }
  function Closer(t: Tables): string { "</" + t.outer }
  function FullCloser(t: Tables): string { Closer(t) + ">" }

  /** `wrap_body`: absent envelope fields are written as empty attributes. */
  function WrapBody(t: Tables, room: Option<string>, sender: Option<string>, id: Option<string>, body: string): string {
    Framed(t.outer, Attrs(room.GetOr(""), sender.GetOr(""), id.GetOr("")), Escaped(t, body))
  }

  // ---- The delimiters stand only at the ends ------------------------------------------

  lemma NoMatchWithoutFirst(s: string, i: int, pat: string)
    requires pat != "" && pat[0] !in s
    ensures !MatchesAt(s, i, pat)
  {
    if 0 <= i < |s| {
      assert s[i..][0] != pat[0];
    }
  }

  /** A text that starts with `<` followed by `rest` without `<` can match only at its start. */
  lemma MatchOnlyAtStart(rest: string, i: int, pat: string)
    requires pat != "" && pat[0] == '<' && '<' !in rest
    ensures MatchesAt("<" + rest, i, pat) <==> i == 0 && pat[1..] <= rest
  {
    var s := "<" + rest;
    if i > 0 {
      NoMatchWithoutFirst(rest, i - 1, pat);
      assert i <= |s| ==> s[i..] == rest[i - 1..];
    } else if i == 0 {
      assert s[0..] == s && s[1..] == rest;
      assert pat == [pat[0]] + pat[1..];
    }
  }

  lemma ConstantsHoldNoAngle()
    ensures '<' !in ROOM && '<' !in SENDER && '<' !in ID && '<' !in TRUST
  {
    assert forall i :: 0 <= i < |ROOM| ==> ROOM[i] != '<';
    assert forall i :: 0 <= i < |SENDER| ==> SENDER[i] != '<';
    assert forall i :: 0 <= i < |ID| ==> ID[i] != '<';
    assert forall i :: 0 <= i < |TRUST| ==> TRUST[i] != '<';
  }

  lemma AttrsHoldNoAngle(room: string, sender: string, id: string)
    ensures '<' !in Attrs(room, sender, id)
  {
    ConstantsHoldNoAngle();
    AttrEscapedIsInert(room);
    AttrEscapedIsInert(sender);
    AttrEscapedIsInert(id);
  }

  /** In a wrapped body the opening delimiter stands at the start and nowhere else, and the
      closing one before the last `>` and nowhere else. */
  lemma DelimitersStandOnlyAtTheEnds(t: Tables, room: Option<string>, sender: Option<string>, id: Option<string>, body: string, i: int)
    ensures var w := WrapBody(t, room, sender, id, body);
            && (MatchesAt(w, i, Opener(t)) <==> i == 0)
            && (MatchesAt(w, i, Closer(t)) <==> i == |w| - |FullCloser(t)|)
            && |w| >= |FullCloser(t)| && FullCloser(t) == w[|w| - |FullCloser(t)|..]
  {
    hide Escaped;
    AttrsHoldNoAngle(room.GetOr(""), sender.GetOr(""), id.GetOr(""));
    assert Protected(t)[0] == Closer(t) && Protected(t)[1] == Opener(t);
    forall j ensures !MatchesAt(Escaped(t, body), j, Opener(t)) && !MatchesAt(Escaped(t, body), j, Closer(t)) {
      NoProtectedTextSurvives(t, body, Opener(t), j);
      NoProtectedTextSurvives(t, body, Closer(t), j);
    }
    DelimitersOfFramed(t.outer, Attrs(room.GetOr(""), sender.GetOr(""), id.GetOr("")), Escaped(t, body), i);
  }

  lemma DelimitersOfFramed(tag: string, attrs: string, e: string, i: int)
    requires TagName(tag) && '<' !in attrs
    requires forall j :: !MatchesAt(e, j, "<" + tag) && !MatchesAt(e, j, "</" + tag)
    ensures var closer := "</" + tag + ">";
            var w := Framed(tag, attrs, e);
            && (MatchesAt(w, i, "<" + tag) <==> i == 0)
            && (MatchesAt(w, i, "</" + tag) <==> i == |w| - |closer|)
            && |w| >= |closer| && closer == w[|w| - |closer|..]
  {
    var rest, last := tag + attrs, "/" + tag + ">";
    assert "<" + tag + attrs == "<" + rest;
    assert "</" + tag + ">" == "<" + last;
    var open, close := "<" + tag, "</" + tag;
    assert open[1..] == tag && close[1..] == "/" + tag;
    MatchesInThreeParts(rest, e, last, open, i);
    MatchesInThreeParts(rest, e, last, close, i);
    assert last[0] == '/' && rest[0] == tag[0];
  }

  lemma MatchesInThreeParts(rest: string, e: string, last: string, pat: string, i: int)
    requires pat != "" && pat[0] == '<' && '\n' !in pat && '<' !in rest && '<' !in last
    requires !MatchesAt(e, i - |rest| - 2, pat)
    ensures MatchesAt("<" + rest + "\n" + (e + "\n" + ("<" + last)), i, pat)
       <==> (i == 0 && pat[1..] <= rest) || (i == |rest| + |e| + 3 && pat[1..] <= last)
  {
    SeparatorSplitsMatches("<" + rest, '\n', e + "\n" + ("<" + last), pat, i);
    SeparatorSplitsMatches(e, '\n', "<" + last, pat, i - |rest| - 2);
    MatchOnlyAtStart(rest, i, pat);
    MatchOnlyAtStart(last, i - |rest| - |e| - 3, pat);
  }

  // ---- The attributes read back -------------------------------------------------------

  function IndexOf(s: string, c: char): (i: nat)
    ensures i <= |s| && c !in s[..i] && (i < |s| ==> s[i] == c)
  {
    if s == "" || s[0] == c then 0
    else
      var n := IndexOf(s[1..], c);
      assert s[..n + 1] == [s[0]] + s[1..][..n];
      n + 1
  }

  /** Read one double-quoted attribute after `lead`, decoding its entities. */
  function ReadAttr(s: string, lead: string): Option<(string, string)> {
    if !(lead <= s) then None
    else
      var t := s[|lead|..];
      var n := IndexOf(t, '"');
      if n == |t| then None else Some((AttrDecoded(t[..n]), t[n + 1..]))
  }

  /** Read three attributes off an opening tag, and what follows them. */
  function ReadAttrs(t: Tables, w: string): Option<((string, string, string), string)> {
    match ReadAttr(w, Opener(t) + ROOM)
    case None => None
    case Some((room, afterRoom)) =>
      match ReadAttr(afterRoom, SENDER)
      case None => None
      case Some((sender, afterSender)) =>
        match ReadAttr(afterSender, ID)
        case None => None
        case Some((id, rest)) => Some(((room, sender, id), rest))
  }

  /** Read the envelope off a whole opening tag: room, sender and event id. */
  function ReadEnvelope(t: Tables, w: string): Option<(string, string, string)> {
    match ReadAttrs(t, w)
    case None => None
    case Some((envelope, rest)) => if TRUST <= rest then Some(envelope) else None
  }

  lemma {:induction false} FirstQuote(v: string, rest: string)
    requires '"' !in v
    ensures IndexOf(v + "\"" + rest, '"') == |v|
  {
    var t := v + "\"" + rest;
    if v == "" {
      assert t[0] == '"';
    } else {
      assert t[0] == v[0] && t[1..] == v[1..] + "\"" + rest;
      FirstQuote(v[1..], rest);
    }
  }

  lemma ReadAttrBack(lead: string, v: string, rest: string)
    ensures ReadAttr(lead + AttrEscaped(v) + "\"" + rest, lead) == Some((v, rest))
  {
    hide IndexOf, AttrEscaped, AttrDecoded;
    var e := AttrEscaped(v);
    AttrEscapedIsInert(v);
    AttrRoundTrip(v);
    FirstQuote(e, rest);
    var t := e + "\"" + rest;
    assert (lead + e + "\"" + rest)[|lead|..] == t;
    assert t[..|e|] == e && t[|e| + 1..] == rest;
  }

  /** The envelope of a wrapped body reads back exactly, whatever the identifiers hold. */
  lemma EnvelopeReadsBack(t: Tables, room: Option<string>, sender: Option<string>, id: Option<string>, body: string)
    ensures ReadEnvelope(t, WrapBody(t, room, sender, id, body)) == Some((room.GetOr(""), sender.GetOr(""), id.GetOr("")))
  {
    hide Escaped;
    var attrs := Attrs(room.GetOr(""), sender.GetOr(""), id.GetOr(""));
    var end := Escaped(t, body) + "\n" + ("</" + t.outer + ">");
    EnvelopeReadsBackFrom(t, room.GetOr(""), sender.GetOr(""), id.GetOr(""), "\n" + end);
    ConcatAssociates(Opener(t) + attrs, "\n", end);
  }

  lemma EnvelopeReadsBackFrom(t: Tables, room: string, sender: string, id: string, tail: string)
    ensures ReadEnvelope(t, Opener(t) + Attrs(room, sender, id) + tail) == Some((room, sender, id))
  {
    AttrsReadBack(t, room, sender, id, TRUST + tail);
    HeadThenTrust(t, room, sender, id, tail);
  }

  /** The opening tag up to the quote that closes its last read attribute. */
  function Head(t: Tables, room: string, sender: string, id: string): string {
    Opener(t) + ROOM + AttrEscaped(room) + "\"" + (SENDER + AttrEscaped(sender) + "\"" + (ID + AttrEscaped(id) + "\""))
  }

  lemma AttrsReadBack(t: Tables, room: string, sender: string, id: string, tail: string)
    ensures ReadAttrs(t, Head(t, room, sender, id) + tail) == Some(((room, sender, id), tail))
  {
    var afterSender := ID + AttrEscaped(id) + "\"" + tail;
    var afterRoom := SENDER + AttrEscaped(sender) + "\"" + afterSender;
    ReadAttrBack(Opener(t) + ROOM, room, afterRoom);
    ReadAttrBack(SENDER, sender, afterSender);
    ReadAttrBack(ID, id, tail);
    HeaderThenTail(Opener(t) + ROOM, AttrEscaped(room), SENDER, AttrEscaped(sender), ID, AttrEscaped(id), tail);
  }

  lemma HeaderThenTail(a: string, x: string, b: string, y: string, c: string, z: string, tail: string)
    ensures a + x + "\"" + (b + y + "\"" + (c + z + "\"")) + tail
         == a + x + "\"" + (b + y + "\"" + (c + z + "\"" + tail))
  {
  }

  lemma HeadThenTrust(t: Tables, room: string, sender: string, id: string, tail: string)
    ensures Opener(t) + Attrs(room, sender, id) + tail == Head(t, room, sender, id) + (TRUST + tail)
  {
    HeadAndTrust(Opener(t), ROOM, AttrEscaped(room), SENDER, AttrEscaped(sender), ID, AttrEscaped(id), TRUST, tail);
  }

  lemma HeadAndTrust(o: string, a: string, x: string, b: string, y: string, c: string, z: string, d: string, tail: string)
    ensures o + (a + x + "\"" + (b + y + "\"" + (c + z + "\"" + d))) + tail
         == o + a + x + "\"" + (b + y + "\"" + (c + z + "\"")) + (d + tail)
  {
  }

  // ---- The body reads back ------------------------------------------------------------

  /** Read the body off a wrapped text: what stands between the opening tag's line and the closing
      tag's. */
  function ReadBody(t: Tables, w: string): Option<string> {
    match ReadAttrs(t, w)
    case None => None
    case Some((_, rest)) =>
      var open, close := TRUST + "\n", "\n" + FullCloser(t);
      if open <= rest && |rest| >= |open| + |close| && rest[|rest| - |close|..] == close
      then Some(rest[|open|..|rest| - |close|]) else None
  }

  lemma BetweenReadsBack(open: string, e: string, close: string)
    ensures var rest := open + e + close;
            && open <= rest && |rest| == |open| + |e| + |close|
            && rest[|rest| - |close|..] == close && rest[|open|..|rest| - |close|] == e
  {
    assert open + e + close == open + (e + close);
  }

  lemma TailAssociates(d: string, e: string, close: string)
    ensures d + ("\n" + (e + "\n" + close)) == (d + "\n") + e + ("\n" + close)
  {
  }

  /** Between the tags of a wrapped body stands the escaped body, whole and alone; and decoding it gives
      the body back exactly when the body holds none of the four entity texts. */
  lemma BodyReadsBack(t: Tables, room: Option<string>, sender: Option<string>, id: Option<string>, body: string)
    ensures ReadBody(t, WrapBody(t, room, sender, id, body)) == Some(Escaped(t, body))
    ensures Unescaped(ReadBody(t, WrapBody(t, room, sender, id, body)).value) == Unescaped(body)
    ensures Unescaped(ReadBody(t, WrapBody(t, room, sender, id, body)).value) == body <==> EntityFree(body)
  {
    hide Escaped, Unescaped, EntityFree, ReadAttrs, Head, Attrs;
    var (r, s, n) := (room.GetOr(""), sender.GetOr(""), id.GetOr(""));
    var e, close := Escaped(t, body), "</" + t.outer + ">";
    var tail := "\n" + (e + "\n" + close);
    WrapIsTagThenTail(t.outer, Attrs(r, s, n), e);
    HeadThenTrust(t, r, s, n, tail);
    AttrsReadBack(t, r, s, n, TRUST + tail);
    TailAssociates(TRUST, e, close);
    BetweenReadsBack(TRUST + "\n", e, "\n" + close);
    EscapeIsLosslessExactlyWhenEntityFree(t, body);
  }

  // ---- After the cap ------------------------------------------------------------------

  /** However long the body or the identifiers, the pushed text ends with the full closing tag,
      holds it nowhere else, and stays within a fixed size. */
  lemma CappedWrapperStaysClosed(t: Tables, room: Option<string>, sender: Option<string>, id: Option<string>, body: string, i: int)
    requires WRAPPER_END == "\n" + FullCloser(t)
    ensures var p := CappedWrapped(WrapBody(t, room, sender, id, body));
            && (MatchesAt(p, i, FullCloser(t)) <==> i == |p| - |FullCloser(t)|)
            && Size(p) <= 4096 + Size(TRUNCATED_NOTE + WRAPPER_END)
  {
    hide Escaped, Attrs, Framed;
    var w := WrapBody(t, room, sender, id, body);
    forall j ensures MatchesAt(w, j, FullCloser(t)) <==> j == |w| - |FullCloser(t)| {
      DelimitersStandOnlyAtTheEnds(t, room, sender, id, body, j);
      LongerMatchIsShorterMatch(w, j, Closer(t), ">");
    }
    NoteHoldsNoAngle();
    CutKeepsOneCloser(w, MAX_PUSH_BYTES, TRUNCATED_NOTE, FullCloser(t), i);
  }

  /** The line `cap_wrapped` appends is the closing tag of the code's own framing. */
  lemma CodeClosesItsOwnTag(t: Tables)
    requires t.outer == MESSAGE
    ensures WRAPPER_END == "\n" + FullCloser(t)
  {
  }

  lemma LongerMatchIsShorterMatch(s: string, i: int, a: string, b: string)
    ensures MatchesAt(s, i, a + b) ==> MatchesAt(s, i, a)
  {
    assert a <= a + b;
  }

  lemma NoteHoldsNoAngle()
    ensures '<' !in TRUNCATED_NOTE && TRUNCATED_NOTE[0] == '\n'
  {
    assert forall n :: 0 <= n < |TRUNCATED_NOTE| ==> TRUNCATED_NOTE[n] != '<';
  }

  /** Cutting a text whose only `closer` is its end, and closing it again, leaves one `closer`. */
  lemma CutKeepsOneCloser(w: string, max: nat, note: string, closer: string, i: int)
    requires note != "" && note[0] == '\n' && closer != "" && '\n' !in closer && closer[0] !in note
    requires forall j :: MatchesAt(w, j, closer) <==> j == |w| - |closer|
    ensures var p := Cut(w, max, note + ("\n" + closer));
            && (MatchesAt(p, i, closer) <==> i == |p| - |closer|)
            && Size(p) <= max + Size(note + ("\n" + closer))
  {
    var end := note + ("\n" + closer);
    if Size(w) > max {
      var k :| 0 <= k < |w| && Cut(w, max, end) == w[..k] + end && Size(w[..k]) <= max;
      EncodedConcat(w[..k], end);
      PrefixHasNoCloser(w, k, closer, i);
      OneCloserAfterNote(w[..k], note[1..], closer, i);
      assert note == "\n" + note[1..];
    }
  }

  lemma PrefixHasNoCloser(w: string, k: nat, closer: string, i: int)
    requires k < |w| && forall j :: MatchesAt(w, j, closer) <==> j == |w| - |closer|
    ensures !MatchesAt(w[..k], i, closer)
  {
    if MatchesAt(w[..k], i, closer) {
      assert w[i..] == w[..k][i..] + w[k..];
      assert MatchesAt(w, i, closer);
    }
  }

  lemma OneCloserAfterNote(head: string, note: string, closer: string, i: int)
    requires closer != "" && '\n' !in closer && closer[0] !in note
    requires !MatchesAt(head, i, closer)
    ensures MatchesAt(head + ("\n" + note + ("\n" + closer)), i, closer) <==> i == |head| + |note| + 2
  {
    var last := note + "\n" + closer;
    assert head + ("\n" + note + ("\n" + closer)) == head + "\n" + last;
    SeparatorSplitsMatches(head, '\n', last, closer, i);
    SeparatorSplitsMatches(note, '\n', closer, closer, i - |head| - 1);
    NoMatchWithoutFirst(note, i - |head| - 1, closer);
    WholeMatch(closer, i - |head| - |note| - 2);
  }

  lemma WholeMatch(s: string, i: int)
    requires s != ""
    ensures MatchesAt(s, i, s) <==> i == 0
  {
    assert s[0..] == s;
  }

  // ---- The envelope after the cap -------------------------------------------------------

  function Quotes(s: string): nat {
    if s == "" then 0 else (if s[0] == '"' then 1 else 0) + Quotes(s[1..])
  }

  lemma {:induction false} QuotesConcat(a: string, b: string)
    ensures Quotes(a + b) == Quotes(a) + Quotes(b)
  {
    if a == "" {
      assert a + b == b;
    } else {
      assert (a + b)[0] == a[0] && (a + b)[1..] == a[1..] + b;
      QuotesConcat(a[1..], b);
    }
  }

  lemma {:induction false} NoQuotes(s: string)
    requires '"' !in s
    ensures Quotes(s) == 0
  {
    if s != "" {
      NoQuotes(s[1..]);
    }
  }

  /** An attribute that reads takes up its lead's quotes and one more. */
  lemma ReadAttrTakesQuotes(s: string, lead: string)
    requires ReadAttr(s, lead).Some?
    ensures Quotes(s) >= Quotes(lead) + 1 + Quotes(ReadAttr(s, lead).value.1)
  {
    hide Quotes, AttrDecoded, IndexOf;
    var t := s[|lead|..];
    var n := IndexOf(t, '"');
    assert s == lead + t;
    QuotesConcat(lead, t);
    QuoteSplits(t, n);
  }

  lemma QuoteSplits(t: string, n: nat)
    requires n < |t| && t[n] == '"'
    ensures Quotes(t) == Quotes(t[..n]) + 1 + Quotes(t[n + 1..])
  {
    assert t == t[..n] + t[n..];
    QuotesConcat(t[..n], t[n..]);
    assert t[n..][0] == '"' && t[n..][1..] == t[n + 1..];
  }

  lemma LeadQuotes(t: Tables)
    ensures Quotes(Opener(t) + ROOM) == 1 && Quotes(SENDER) == 1 && Quotes(ID) == 1
  {
    hide Quotes;
    OpenerHasNoQuotes(t);
    QuotesConcat(Opener(t), ROOM);
    LeadQuote(ROOM);
    LeadQuote(SENDER);
    LeadQuote(ID);
  }

  lemma OpenerHasNoQuotes(t: Tables)
    ensures Quotes(Opener(t)) == 0
  {
    var o := Opener(t);
    assert forall i :: 0 < i < |o| ==> o[i] == t.outer[i - 1];
    NoQuotes(o);
  }

  lemma LeadQuote(lead: string)
    requires lead != "" && lead[|lead| - 1] == '"' && forall i :: 0 <= i < |lead| - 1 ==> lead[i] != '"'
    ensures Quotes(lead) == 1
  {
    var n := |lead| - 1;
    assert lead == lead[..n] + ['"'];
    NoQuotes(lead[..n]);
    QuotesConcat(lead[..n], ['"']);
    assert ['"'][1..] == "";
  }

  lemma ReadingTakesSixQuotes(t: Tables, s: string)
    requires ReadAttrs(t, s).Some?
    ensures Quotes(s) >= 6
  {
    hide Quotes, ReadAttr;
    LeadQuotes(t);
    ReadAttrTakesQuotes(s, Opener(t) + ROOM);
    var afterRoom := ReadAttr(s, Opener(t) + ROOM).value.1;
    ReadAttrTakesQuotes(afterRoom, SENDER);
    ReadAttrTakesQuotes(ReadAttr(afterRoom, SENDER).value.1, ID);
  }

  lemma HeadHasSixQuotes(t: Tables, room: string, sender: string, id: string)
    ensures Quotes(Head(t, room, sender, id)) == 6
    ensures var h := Head(t, room, sender, id); h != "" && h[|h| - 1] == '"'
  {
    hide Quotes, AttrEscaped;
    LeadQuotes(t);
    AttrEscapedIsInert(room);
    AttrEscapedIsInert(sender);
    AttrEscapedIsInert(id);
    OneAttrQuotes(ID, id);
    OneAttrQuotes(SENDER, sender);
    OneAttrQuotes(Opener(t) + ROOM, room);
    var c := ID + AttrEscaped(id) + "\"";
    var b := SENDER + AttrEscaped(sender) + "\"";
    QuotesConcat(b, c);
    QuotesConcat(Opener(t) + ROOM + AttrEscaped(room) + "\"", b + c);
  }

  lemma OneAttrQuotes(lead: string, v: string)
    requires Quotes(lead) == 1
    ensures Quotes(lead + AttrEscaped(v) + "\"") == 2
  {
    AttrEscapedIsInert(v);
    NoQuotes(AttrEscaped(v));
    QuotesConcat(lead, AttrEscaped(v));
    QuotesConcat(lead + AttrEscaped(v), "\"");
    LeadQuote("\"");
  }

  /** A cut before the end of the head, closed by a text without quotes, cannot be read. */
  lemma CutHeadIsUnreadable(t: Tables, room: string, sender: string, id: string, k: nat, end: string)
    requires k < |Head(t, room, sender, id)| && '"' !in end
    ensures ReadAttrs(t, Head(t, room, sender, id)[..k] + end) == None
  {
    hide Quotes, ReadAttrs, Head;
    var h := Head(t, room, sender, id);
    HeadHasSixQuotes(t, room, sender, id);
    var cut, rest := h[..k], h[k..];
    assert h == cut + rest && rest == rest[..|rest| - 1] + ['"'];
    QuotesConcat(cut, rest);
    QuotesConcat(rest[..|rest| - 1], ['"']);
    LeadQuote(['"']);
    NoQuotes(end);
    QuotesConcat(cut, end);
    if ReadAttrs(t, cut + end).Some? {
      ReadingTakesSixQuotes(t, cut + end);
    }
  }

  /** A text cut and ended by something that starts with a character foreign to `d` begins with `d`
      exactly when the cut lies behind `d`. */
  lemma CutBehind(d: string, tail: string, k: nat, end: string)
    requires k <= |d + tail| && end != "" && end[0] !in d
    ensures d <= (d + tail)[..k] + end <==> k >= |d|
  {
    var rest := (d + tail)[..k] + end;
    if k < |d| {
      assert rest[k] == end[0] && d[k] in d;
    } else {
      assert (d + tail)[..k] == d + tail[..k - |d|];
      assert rest == d + (tail[..k - |d|] + end);
    }
  }

  lemma TrustHasNoNewline()
    ensures '\n' !in TRUST
  {
    assert forall n :: 0 <= n < |TRUST| ==> TRUST[n] != '\n';
  }

  /** Cut behind the head, the envelope reads exactly when the rest of the opening tag is there. */
  lemma CutBehindHead(t: Tables, room: string, sender: string, id: string, tail: string, k: nat, end: string)
    requires k <= |TRUST + tail| && end != "" && end[0] == '\n'
    ensures ReadEnvelope(t, Head(t, room, sender, id) + ((TRUST + tail)[..k] + end))
         == if k >= |TRUST| then Some((room, sender, id)) else None
  {
    hide Head, ReadAttrs;
    TrustHasNoNewline();
    CutBehind(TRUST, tail, k, end);
    AttrsReadBack(t, room, sender, id, (TRUST + tail)[..k] + end);
  }

  /** The whole opening tag. */
  function OpeningTag(t: Tables, room: string, sender: string, id: string): string {
    Opener(t) + Attrs(room, sender, id)
  }

  /** The envelope still reads back from the capped text exactly when the opening tag fits the limit;
      otherwise it does not read at all. */
  lemma CappedEnvelopeReadsBackExactlyWhen(t: Tables, room: Option<string>, sender: Option<string>, id: Option<string>, body: string)
    requires WRAPPER_END == "\n" + FullCloser(t)
    ensures var tag := OpeningTag(t, room.GetOr(""), sender.GetOr(""), id.GetOr(""));
            ReadEnvelope(t, CappedWrapped(WrapBody(t, room, sender, id, body)))
            == if Size(tag) <= 4096 then Some((room.GetOr(""), sender.GetOr(""), id.GetOr(""))) else None
  {
    hide Escaped, Attrs, Head, ReadEnvelope, ReadAttrs, Size, Cut;
    var (r, s, n) := (room.GetOr(""), sender.GetOr(""), id.GetOr(""));
    var tag, end := OpeningTag(t, r, s, n), TRUNCATED_NOTE + WRAPPER_END;
    var w := WrapBody(t, room, sender, id, body);
    var tail := "\n" + (Escaped(t, body) + "\n" + ("</" + t.outer + ">"));
    WrapIsTagThenTail(t.outer, Attrs(r, s, n), Escaped(t, body));
    assert w == tag + tail;
    PrefixSize(tag, tail);
    if Size(w) <= MAX_PUSH_BYTES {
      EnvelopeReadsBack(t, room, sender, id, body);
      CutKeepsShort(w, MAX_PUSH_BYTES, end);
    } else {
      var k := CutCutsAt(tag, tail, MAX_PUSH_BYTES, end);
      EndHasNoQuotes(t);
      HeadThenTrust(t, r, s, n, tail);
      HeadThenTrust(t, r, s, n, "");
      CutEnvelope(t, r, s, n, tail, k, end);
      assert TRUST + "" == TRUST && tag + "" == tag;
    }
  }

  lemma WrapIsTagThenTail(tag: string, attrs: string, content: string)
    ensures Framed(tag, attrs, content) == "<" + tag + attrs + ("\n" + (content + "\n" + ("</" + tag + ">")))
  {
  }

  lemma PrefixSize(a: string, b: string)
    ensures Size(a) <= Size(a + b)
  {
    EncodedConcat(a, b);
  }

  lemma CutKeepsShort(s: string, max: nat, marker: string)
    requires Size(s) <= max
    ensures Cut(s, max, marker) == s
  {
  }

  /** A text too long is cut behind a given prefix exactly when the prefix fits. */
  lemma CutCutsAt(a: string, b: string, max: nat, marker: string) returns (k: nat)
    requires Size(a + b) > max
    ensures k <= |a + b| && Cut(a + b, max, marker) == (a + b)[..k] + marker
    ensures Size(a) <= max <==> |a| <= k
  {
    k := FitLength(a + b, max);
    FitIsLongest(a + b, max, |a|);
    assert (a + b)[..|a|] == a;
  }

  lemma EndHasNoQuotes(t: Tables)
    requires WRAPPER_END == "\n" + FullCloser(t)
    ensures '"' !in TRUNCATED_NOTE + WRAPPER_END && (TRUNCATED_NOTE + WRAPPER_END)[0] == '\n'
  {
    assert forall i :: 0 <= i < |TRUNCATED_NOTE| ==> TRUNCATED_NOTE[i] != '"';
    assert forall i :: 0 <= i < |WRAPPER_END| ==> WRAPPER_END[i] != '"';
  }

  lemma CutEnvelope(t: Tables, room: string, sender: string, id: string, tail: string, k: nat, end: string)
    requires k <= |Head(t, room, sender, id) + (TRUST + tail)| && '"' !in end && end != "" && end[0] == '\n'
    ensures ReadEnvelope(t, (Head(t, room, sender, id) + (TRUST + tail))[..k] + end)
         == if k >= |Head(t, room, sender, id)| + |TRUST| then Some((room, sender, id)) else None
  {
    hide Head, ReadAttrs;
    var h := Head(t, room, sender, id);
    var all := h + (TRUST + tail);
    if k < |h| {
      assert all[..k] == h[..k];
      CutHeadIsUnreadable(t, room, sender, id, k, end);
    } else {
      assert all[..k] + end == h + ((TRUST + tail)[..k - |h|] + end);
      CutBehindHead(t, room, sender, id, tail, k - |h|, end);
    }
  }
}
