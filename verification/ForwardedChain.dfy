/** `X-Forwarded-For` parsing of src/last_used.rs: entries, their count, and the trusted position. */
module ForwardedChain {
  import opened Options
  import opened Whitespace

  /** The text before the first comma. */
  function Head(raw: string): string {
    if raw == "" || raw[0] == ',' then "" else [raw[0]] + Head(raw[1..])
  }

  /** `split(',')`: the pieces between commas. */
  function Split(raw: string): seq<string>
    decreases |raw|
  {
    HeadFits(raw);
    var h := Head(raw);
    if |h| == |raw| then [h] else [h] + Split(raw[|h| + 1..])
  }

  lemma {:induction false} HeadFits(raw: string)
    ensures |Head(raw)| <= |raw| && Head(raw) == raw[..|Head(raw)|] && ',' !in Head(raw)
    ensures |Head(raw)| < |raw| ==> raw[|Head(raw)|] == ','
  {
    if raw != "" && raw[0] != ',' {
      HeadFits(raw[1..]);
      assert raw == [raw[0]] + raw[1..];
    }
  }

  function TrimmedAll(pieces: seq<string>): seq<string> {
    if pieces == [] then []
    else
      var t := Trimmed(pieces[0]);
      (if t == "" then [] else [t]) + TrimmedAll(pieces[1..])
  }

  /** `xff_entries`: trimmed pieces, empty ones discarded (section 5.6.1.2 of RFC 9110). */
  function Entries(raw: string): seq<string> {
    TrimmedAll(Split(raw))
  }

  /** `ingress_chain_len`: the reporter's count, from the same definition of an entry. */
  function IngressChainLen(raw: string): nat {
    |Entries(raw)|
  }

  /** `parse_client_ip`, for any address parser. */
  function ParseClientIp<A>(xff: Option<string>, hops: nat, parse: string -> Option<A>): Option<A> {
    match xff
    case None => None
    case Some(raw) =>
      var parts := Entries(raw);
      if hops == 0 || |parts| < hops then None else parse(parts[|parts| - hops])
  }

  // ---- Entries of a longer header -----------------------------------------------------

  lemma {:induction false} SplitConcat(a: string, b: string)
    ensures Split(a + "," + b) == Split(a) + Split(b)
    decreases |a|
  {
    hide Head;
    HeadFits(a);
    HeadOfConcat(a, b);
    var h := |Head(a)|;
    if h == |a| {
      assert (a + "," + b)[h + 1..] == b;
    } else {
      assert (a + "," + b)[h + 1..] == a[h + 1..] + "," + b;
      SplitConcat(a[h + 1..], b);
      assert [Head(a)] + (Split(a[h + 1..]) + Split(b)) == [Head(a)] + Split(a[h + 1..]) + Split(b);
    }
  }

  lemma {:induction false} HeadOfConcat(a: string, b: string)
    ensures Head(a + "," + b) == Head(a)
  {
    var raw := a + "," + b;
    if a == "" {
      assert raw[0] == ',';
    } else {
      assert raw[0] == a[0] && raw[1..] == a[1..] + "," + b;
      if a[0] != ',' { HeadOfConcat(a[1..], b); }
    }
  }

  lemma {:induction false} TrimmedAllConcat(a: seq<string>, b: seq<string>)
    ensures TrimmedAll(a + b) == TrimmedAll(a) + TrimmedAll(b)
  {
    if a == [] {
      assert a + b == b;
    } else {
      assert (a + b)[0] == a[0] && (a + b)[1..] == a[1..] + b;
      TrimmedAllConcat(a[1..], b);
    }
  }

  /** A comma joins the entries on its two sides. */
  lemma EntriesConcat(a: string, b: string)
    ensures Entries(a + "," + b) == Entries(a) + Entries(b)
  {
    SplitConcat(a, b);
    TrimmedAllConcat(Split(a), Split(b));
  }

  /** A text a proxy writes for one address: no comma, not blank, no blank at either end. */
  predicate Address(a: string) {
    a != "" && ',' !in a && !IsSpace(a[0]) && !IsSpace(a[|a| - 1])
  }

  lemma SplitWithoutComma(s: string)
    requires ',' !in s
    ensures Split(s) == [s]
  {
    HeadFits(s);
    assert s[..|s|] == s;
  }

  lemma {:induction false} TrimmedEndOfPadded(s: string, pad: string)
    requires Blank(pad) && (s == "" || !IsSpace(s[|s| - 1]))
    ensures TrimmedEnd(s + pad) == s
  {
    if pad == "" {
      assert s + pad == s;
    } else {
      var t := s + pad;
      assert t[|t| - 1] == pad[|pad| - 1] && t[..|t| - 1] == s + pad[..|pad| - 1];
      TrimmedEndOfPadded(s, pad[..|pad| - 1]);
    }
  }

  /** A padded address is one entry, and a blank piece is none. */
  lemma EntriesOfPiece(before: string, a: string, after: string)
    requires Blank(before) && Blank(after) && ',' !in before && ',' !in after
    requires a == "" || Address(a)
    ensures Entries(before + a + after) == if a == "" then [] else [a]
  {
    var s := before + a + after;
    SplitWithoutComma(s);
    if a == "" {
      var all := before + after;
      assert s == all + "";
      TrimmedStartSkips(all, "");
    } else {
      assert s == before + (a + after);
      TrimmedStartSkips(before, a + after);
      TrimmedEndOfPadded(a, after);
    }
    assert TrimmedAll([s]) == (if Trimmed(s) == "" then [] else [Trimmed(s)]) + TrimmedAll([s][1..]);
  }

  // ---- What the proxies append --------------------------------------------------------

  /** One proxy appends the address it saw, with blanks of its own around it, and then stray commas,
      each with blanks after it. */
  datatype Hop = Hop(before: string, address: string, after: string, stray: seq<string>)

  predicate WellFormedHop(h: Hop) {
    Address(h.address) && Blank(h.before) && Blank(h.after) && forall i :: 0 <= i < |h.stray| ==> Blank(h.stray[i])
  }

  function Commas(stray: seq<string>): string {
    if stray == [] then "" else "," + stray[0] + Commas(stray[1..])
  }

  /** What one proxy writes. */
  function Piece(h: Hop): string {
    h.before + h.address + h.after + Commas(h.stray)
  }

  /** The header after one more proxy, which starts it when there is none. */
  function Appended(header: Option<string>, h: Hop): string {
    match header
    case None => Piece(h)
    case Some(raw) => raw + "," + Piece(h)
  }

  /** The header after a line of proxies, nearest to the client first. */
  function AppendedAll(header: Option<string>, hops: seq<Hop>): Option<string> {
    if hops == [] then header else Some(Appended(AppendedAll(header, hops[..|hops| - 1]), hops[|hops| - 1]))
  }

  /** An absent header has no entries. */
  function EntriesOf(header: Option<string>): seq<string> {
    match header
    case None => []
    case Some(raw) => Entries(raw)
  }

  lemma {:induction false} BlankHasNoComma(s: string)
    requires Blank(s)
    ensures ',' !in s
  {
  }

  lemma {:induction false} StrayCommasAddNothing(raw: string, stray: seq<string>)
    requires forall i :: 0 <= i < |stray| ==> Blank(stray[i])
    ensures Entries(raw + Commas(stray)) == Entries(raw)
    decreases |stray|
  {
    if stray == [] {
      assert raw + "" == raw;
    } else {
      var blank, rest := stray[0], stray[1..];
      assert raw + Commas(stray) == raw + "," + blank + Commas(rest);
      StrayCommasAddNothing(raw + "," + blank, rest);
      EntriesConcat(raw, blank);
      BlankHasNoComma(blank);
      EntriesOfPiece("", "", blank);
      assert "" + "" + blank == blank;
    }
  }

  lemma PieceIsOneEntry(h: Hop)
    requires WellFormedHop(h)
    ensures Entries(Piece(h)) == [h.address]
  {
    BlankHasNoComma(h.before);
    BlankHasNoComma(h.after);
    StrayCommasAddNothing(h.before + h.address + h.after, h.stray);
    EntriesOfPiece(h.before, h.address, h.after);
  }

  lemma AppendedAddsOneEntry(header: Option<string>, h: Hop)
    requires WellFormedHop(h)
    ensures Entries(Appended(header, h)) == EntriesOf(header) + [h.address]
  {
    PieceIsOneEntry(h);
    if header.Some? {
      EntriesConcat(header.value, Piece(h));
    }
  }

  function Addresses(hops: seq<Hop>): (a: seq<string>)
    ensures |a| == |hops| && forall i :: 0 <= i < |hops| ==> a[i] == hops[i].address
  {
    seq(|hops|, i requires 0 <= i < |hops| => hops[i].address)
  }

  lemma {:induction false} ProxiesAddTheirEntries(header: Option<string>, hops: seq<Hop>)
    requires forall i :: 0 <= i < |hops| ==> WellFormedHop(hops[i])
    ensures EntriesOf(AppendedAll(header, hops)) == EntriesOf(header) + Addresses(hops)
  {
    hide Entries, Appended, WellFormedHop;
    if hops == [] {
      assert EntriesOf(header) + [] == EntriesOf(header);
    } else {
      var n := |hops| - 1;
      ProxiesAddTheirEntries(header, hops[..n]);
      AppendedAddsOneEntry(AppendedAll(header, hops[..n]), hops[n]);
      assert Addresses(hops) == Addresses(hops[..n]) + [hops[n].address];
    }
  }

  /** Whatever header the client sent, or none, with as many trusted hops as there are proxies the
      parser reads exactly what the first of them wrote; and the counter counts what the parser
      sees. */
  lemma ClientCannotShiftTheChoice<A>(header: Option<string>, hops: seq<Hop>, parse: string -> Option<A>)
    requires hops != [] && forall i :: 0 <= i < |hops| ==> WellFormedHop(hops[i])
    ensures ParseClientIp(AppendedAll(header, hops), |hops|, parse) == parse(hops[0].address)
    ensures AppendedAll(header, hops).Some? && IngressChainLen(AppendedAll(header, hops).value) == |EntriesOf(header)| + |hops|
  {
    ProxiesAddTheirEntries(header, hops);
  }

  /** Fewer entries than trusted hops, no trusted hop, or no header: no caller. Otherwise the caller is
      the entry so many from the right, whatever stands left of it. */
  lemma CallerIsCountedFromTheRight<A>(header: Option<string>, hops: nat, parse: string -> Option<A>)
    ensures hops == 0 || |EntriesOf(header)| < hops ==> ParseClientIp(header, hops, parse) == None
    ensures forall left, right, entry :: EntriesOf(header) == left + [entry] + right && hops == |right| + 1 ==>
              ParseClientIp(header, hops, parse) == parse(entry)
  {
    forall left, right, entry | EntriesOf(header) == left + [entry] + right && hops == |right| + 1
      ensures ParseClientIp(header, hops, parse) == parse(entry)
    {
      assert (left + [entry] + right)[|left|] == entry;
    }
  }
}
