/** The read-path sandbox of src/content_sandbox.rs: escaping of framing and role tokens,
    attribute escaping, and the `<matrix:message>` wrapper. */
module ContentSandbox {
  import opened Text

  /** One replace-all pass. */
  datatype Rule = Rule(pat: string, rep: string)

  /** What the escaper protects: two framing tags and two lists of role tokens. */
  datatype TableData = Tables(outer: string, inner: string, angle: seq<string>, bracket: seq<string>)

  /** The name of a framing tag: no angle, bracket, ampersand, quote or newline, and no closing
      form. */
  predicate TagName(tag: string) {
    tag != "" && tag[0] != '/'
    && forall i :: 0 <= i < |tag| ==>
         tag[i] != '<' && tag[i] != '>' && tag[i] != '[' && tag[i] != ']' && tag[i] != '&' && tag[i] != '\n' && tag[i] != '"'
  }

  predicate AngleToken(t: string) {
    t != "" && t[0] == '<' && forall i :: 0 <= i < |t| ==> t[i] != '[' && t[i] != ']' && t[i] != '&'
  }

  predicate BracketToken(t: string) {
    t != "" && t[0] == '[' && forall i :: 0 <= i < |t| ==> t[i] != '<' && t[i] != '>' && t[i] != '&'
  }

  predicate WellFormed(t: TableData) {
    && TagName(t.outer) && TagName(t.inner)
    && (forall i :: 0 <= i < |t.angle| ==> AngleToken(t.angle[i]))
    && (forall i :: 0 <= i < |t.bracket| ==> BracketToken(t.bracket[i]))
  }

  const MESSAGE := "matrix:message"
  const CHANNEL := "channel"
  const ANGLE_ROLE_TOKENS: seq<string> := [
    "<system>", "</system>", "<assistant>", "</assistant>",
    "<user>", "</user>", "<|im_start|>", "<|im_end|>"
  ]
  const BRACKET_ROLE_TOKENS: seq<string> := ["[INST]", "[/INST]"]

  lemma CodeTagsAreTagNames()
    ensures TagName(MESSAGE) && TagName(CHANNEL)
  {
  }

  lemma CodeAngleTokensAreAngleTokens()
    ensures forall i :: 0 <= i < |ANGLE_ROLE_TOKENS| ==> AngleToken(ANGLE_ROLE_TOKENS[i])
  {
  }

  lemma CodeBracketTokensAreBracketTokens()
    ensures forall i :: 0 <= i < |BRACKET_ROLE_TOKENS| ==> BracketToken(BRACKET_ROLE_TOKENS[i])
  {
  }

  /** The tables the code uses are well formed. */
  lemma CodeTablesAreWellFormed()
    ensures WellFormed(Tables(MESSAGE, CHANNEL, ANGLE_ROLE_TOKENS, BRACKET_ROLE_TOKENS))
  {
    hide AngleToken, BracketToken, TagName;
    CodeTagsAreTagNames();
    CodeAngleTokensAreAngleTokens();
    CodeBracketTokensAreBracketTokens();
  }

  /** Every theorem below holds of any tables of this shape, so of the code's own. */
  type Tables = t: TableData | WellFormed(t)
    witness (CodeTablesAreWellFormed(); Tables(MESSAGE, CHANNEL, ANGLE_ROLE_TOKENS, BRACKET_ROLE_TOKENS))

  // ---- Entity forms -------------------------------------------------------------------

  /** The entity a protected character is written as; any other character stands for itself. */
  function Entity(c: char): string {
    match c
    case '<' => "&lt;"
    case '>' => "&gt;"
    case '[' => "&#91;"
    case ']' => "&#93;"
    case _ => [c]
  }

  function Entities(s: string): string {
    if s == "" then "" else Entity(s[0]) + Entities(s[1..])
  }

  predicate Plain(s: string) {
    '<' !in s && '>' !in s && '[' !in s && ']' !in s
  }

  lemma {:induction false} EntitiesOfPlain(s: string)
    requires Plain(s)
    ensures Entities(s) == s
  {
    if s != "" {
      EntitiesOfPlain(s[1..]);
      assert s == [s[0]] + s[1..];
    }
  }

  lemma {:induction false} EntitiesConcat(a: string, b: string)
    ensures Entities(a + b) == Entities(a) + Entities(b)
  {
    if a == "" {
      assert a + b == b;
    } else {
      assert (a + b)[1..] == a[1..] + b && (a + b)[0] == a[0];
      EntitiesConcat(a[1..], b);
    }
  }

  lemma {:induction false} EntitiesArePlain(s: string)
    ensures Plain(Entities(s))
    ensures s != "" && s[0] in "<[" ==> |Entities(s)| > 0 && Entities(s)[0] == '&'
  {
    if s != "" {
      EntitiesArePlain(s[1..]);
    }
  }

  /** Two single-character passes, done in one walk. */
  function Mapped(t: string, a: char, ra: string, b: char, rb: string): string {
    if t == "" then ""
    else (if t[0] == a then ra else if t[0] == b then rb else [t[0]]) + Mapped(t[1..], a, ra, b, rb)
  }

  lemma {:induction false} TwoPassesAreOneWalk(t: string, a: char, ra: string, b: char, rb: string)
    requires a != b && b !in ra
    ensures ReplaceAll(ReplaceAll(t, [a], ra), [b], rb) == Mapped(t, a, ra, b, rb)
  {
    if t != "" {
      var first := ReplaceAll([t[0]], [a], ra);
      assert t == [t[0]] + t[1..];
      PassOfOneCharacter([t[0]], t[1..], a, ra);
      PassOfOneCharacter(first, ReplaceAll(t[1..], [a], ra), b, rb);
      TwoPassesAreOneWalk(t[1..], a, ra, b, rb);
      PassOnOneCharacter(t[0], a, ra);
      if t[0] == a {
        PassKeepsPrefix(ra, "", [b], rb);
        assert ra + "" == ra;
      } else {
        PassOnOneCharacter(t[0], b, rb);
      }
    }
  }

  lemma PassOnOneCharacter(c: char, a: char, ra: string)
    ensures ReplaceAll([c], [a], ra) == if c == a then ra else [c]
  {
    assert [c][1..] == "" && ra + "" == ra;
    assert [a] <= [c] <==> [a][0] == [c][0];
  }

  /** Escaping `<` and then `>` in a token without brackets is writing its entities. */
  lemma AnglePassesWriteEntities(t: string)
    requires '[' !in t && ']' !in t
    ensures ReplaceAll(ReplaceAll(t, "<", "&lt;"), ">", "&gt;") == Entities(t)
  {
    TwoPassesAreOneWalk(t, '<', "&lt;", '>', "&gt;");
    AnglesMapped(t);
  }

  lemma {:induction false} AnglesMapped(t: string)
    requires '[' !in t && ']' !in t
    ensures Mapped(t, '<', "&lt;", '>', "&gt;") == Entities(t)
  {
    if t != "" {
      AnglesMapped(t[1..]);
    }
  }

  /** Escaping `[` and then `]` in a token without angles is writing its entities. */
  lemma BracketPassesWriteEntities(t: string)
    requires '<' !in t && '>' !in t
    ensures ReplaceAll(ReplaceAll(t, "[", "&#91;"), "]", "&#93;") == Entities(t)
  {
    TwoPassesAreOneWalk(t, '[', "&#91;", ']', "&#93;");
    BracketsMapped(t);
  }

  lemma {:induction false} BracketsMapped(t: string)
    requires '<' !in t && '>' !in t
    ensures Mapped(t, '[', "&#91;", ']', "&#93;") == Entities(t)
  {
    if t != "" {
      BracketsMapped(t[1..]);
    }
  }

  // ---- The passes ---------------------------------------------------------------------

  /** The three passes for one framing tag: the exact closing tag, then any closing tag,
      then any opening tag. */
  function FramingRules(tag: string): seq<Rule> {
    [
      Rule("</" + tag + ">", "&lt;/" + tag + "&gt;"),
      Rule("</" + tag, "&lt;/" + tag),
      Rule("<" + tag, "&lt;" + tag)
    ]
  }

  function TokenRules(tokens: seq<string>): (rules: seq<Rule>)
    ensures |rules| == |tokens|
    ensures forall i :: 0 <= i < |tokens| ==> rules[i] == Rule(tokens[i], Entities(tokens[i]))
  {
    if tokens == [] then []
    else [Rule(tokens[0], Entities(tokens[0]))] + TokenRules(tokens[1..])
  }

  /** Every pass of the escaper, in order. */
  function Rules(t: Tables): seq<Rule> {
    FramingRules(t.outer) + FramingRules(t.inner) + TokenRules(t.angle) + TokenRules(t.bracket)
  }

  /** Run passes one after another; an empty pattern is no pass. */
  function RunPasses(s: string, rules: seq<Rule>): string
    decreases |rules|
  {
    if rules == [] then s
    else if rules[0].pat == "" then RunPasses(s, rules[1..])
    else RunPasses(ReplaceAll(s, rules[0].pat, rules[0].rep), rules[1..])
  }

  /** The text `escape_injection_markers` returns. */
  function Escaped(t: Tables, body: string): string {
    RunPasses(body, Rules(t))
  }

  lemma {:induction false} RunPassesConcat(s: string, a: seq<Rule>, b: seq<Rule>)
    ensures RunPasses(s, a + b) == RunPasses(RunPasses(s, a), b)
    decreases |a|
  {
    if a == [] {
      assert a + b == b;
    } else {
      assert (a + b)[1..] == a[1..] + b;
      RunPassesConcat(if a[0].pat == "" then s else ReplaceAll(s, a[0].pat, a[0].rep), a[1..], b);
    }
  }

  method EscapeFraming(body: string, tag: string) returns (s: string)
    ensures s == RunPasses(body, FramingRules(tag))
  {
    s := ReplaceAll(body, "</" + tag + ">", "&lt;/" + tag + "&gt;");
    s := ReplaceAll(s, "</" + tag, "&lt;/" + tag);
    s := ReplaceAll(s, "<" + tag, "&lt;" + tag);
    ghost var rules := FramingRules(tag);
    assert rules == [rules[0]] + ([rules[1]] + [rules[2]]);
    RunPassesConcat(body, [rules[0]], [rules[1]] + [rules[2]]);
    RunPassesConcat(RunPasses(body, [rules[0]]), [rules[1]], [rules[2]]);
    forall t: string, i | 0 <= i < 3 ensures RunPasses(t, [rules[i]]) == ReplaceAll(t, rules[i].pat, rules[i].rep) {
      assert RunPasses(t, [rules[i]]) == RunPasses(ReplaceAll(t, rules[i].pat, rules[i].rep), []);
    }
  }

  /** Escape each angle token on the spot, skipping the ones that are absent. */
  method EscapeAngleTokens(body: string, tokens: seq<string>) returns (s: string)
    requires forall i :: 0 <= i < |tokens| ==> AngleToken(tokens[i])
    ensures s == RunPasses(body, TokenRules(tokens))
  {
    s := body;
    for i := 0 to |tokens|
      invariant RunPasses(s, TokenRules(tokens[i..])) == RunPasses(body, TokenRules(tokens))
    {
      var tok := tokens[i];
      assert tokens[i..][1..] == tokens[i + 1..];
      if Contains(s, tok) {
        var escaped := ReplaceAll(ReplaceAll(tok, "<", "&lt;"), ">", "&gt;");
        AnglePassesWriteEntities(tok);
        s := ReplaceAll(s, tok, escaped);
      } else {
        ReplaceAbsent(s, tok, Entities(tok));
      }
    }
  }

  /** Escape each bracket token on the spot, skipping the ones that are absent. */
  method EscapeBracketTokens(body: string, tokens: seq<string>) returns (s: string)
    requires forall i :: 0 <= i < |tokens| ==> BracketToken(tokens[i])
    ensures s == RunPasses(body, TokenRules(tokens))
  {
    s := body;
    for i := 0 to |tokens|
      invariant RunPasses(s, TokenRules(tokens[i..])) == RunPasses(body, TokenRules(tokens))
    {
      var tok := tokens[i];
      assert tokens[i..][1..] == tokens[i + 1..];
      if Contains(s, tok) {
        var escaped := ReplaceAll(ReplaceAll(tok, "[", "&#91;"), "]", "&#93;");
        BracketPassesWriteEntities(tok);
        s := ReplaceAll(s, tok, escaped);
      } else {
        ReplaceAbsent(s, tok, Entities(tok));
      }
    }
  }

  /** The escaper: both framing tags, then the two token tables. */
  method EscapeInjectionMarkers(t: Tables, body: string) returns (s: string)
    ensures s == Escaped(t, body)
  {
    ghost var m, c := FramingRules(t.outer), FramingRules(t.inner);
    ghost var a, b := TokenRules(t.angle), TokenRules(t.bracket);
    RunPassesConcat(body, m, c);
    RunPassesConcat(body, m + c, a);
    RunPassesConcat(body, m + c + a, b);
    s := EscapeFraming(body, t.outer);
    s := EscapeFraming(s, t.inner);
    s := EscapeAngleTokens(s, t.angle);
    s := EscapeBracketTokens(s, t.bracket);
  }

  // ---- No token survives --------------------------------------------------------------

  /** A text an escaper can protect: it opens with an angle or a bracket and holds no `&`. */
  predicate Protectable(q: string) {
    q != "" && (q[0] == '<' || q[0] == '[') && '&' !in q
  }

  /** What makes a pass safe: its pattern is protectable and becomes its own entity form. */
  predicate Protective(r: Rule) {
    Protectable(r.pat) && r.rep == Entities(r.pat)
  }

  lemma FramingRuleIsProtective(mid: string)
    requires Plain(mid) && '&' !in mid
    ensures Protective(Rule("<" + mid, "&lt;" + mid))
    ensures Protective(Rule("<" + mid + ">", "&lt;" + mid + "&gt;"))
  {
    EntitiesOfPlain(mid);
    EntitiesConcat("<", mid);
    EntitiesConcat("<" + mid, ">");
    assert Entities("<") == "&lt;" && Entities(">") == "&gt;";
  }

  lemma FramingRulesAreProtective(tag: string)
    requires Plain(tag) && '&' !in tag
    ensures forall r :: r in FramingRules(tag) ==> Protective(r)
  {
    FramingRuleIsProtective(tag);
    FramingRuleIsProtective("/" + tag);
    assert "</" + tag == "<" + ("/" + tag);
    assert "</" + tag + ">" == "<" + ("/" + tag) + ">";
    assert "&lt;/" + tag == "&lt;" + ("/" + tag);
    assert "&lt;/" + tag + "&gt;" == "&lt;" + ("/" + tag) + "&gt;";
  }

  lemma RulesAreProtective(t: Tables)
    ensures forall r :: r in Rules(t) ==> Protective(r)
  {
    FramingRulesAreProtective(t.outer);
    FramingRulesAreProtective(t.inner);
    assert forall r :: r in TokenRules(t.angle) ==> Protective(r);
    assert forall r :: r in TokenRules(t.bracket) ==> Protective(r);
  }

  /** Passes never create an occurrence of a protectable text, whatever the order. */
  lemma {:induction false} PassesCreateNothing(s: string, rules: seq<Rule>, q: string)
    requires forall r :: r in rules ==> Protective(r)
    requires Protectable(q) && Contains(RunPasses(s, rules), q)
    ensures Contains(s, q) && forall r :: r in rules ==> r.pat != q
    decreases |rules|
  {
    if rules != [] {
      var r := rules[0];
      assert Protective(r);
      PassesCreateNothing(ReplaceAll(s, r.pat, r.rep), rules[1..], q);
      EntitiesArePlain(r.pat);
      PassCreatesNothing(s, r.pat, r.rep, q);
      assert rules == [r] + rules[1..];
    }
  }

  /** The protected texts: every framing prefix and every role token. */
  function Protected(t: Tables): seq<string> {
    ["</" + t.outer, "<" + t.outer, "</" + t.inner, "<" + t.inner] + t.angle + t.bracket
  }

  lemma ProtectedTextsHaveAPass(t: Tables, q: string)
    requires q in Protected(t)
    ensures exists r :: r in Rules(t) && r.pat == q
  {
    var texts, rules := Protected(t), Rules(t);
    var k :| 0 <= k < |texts| && texts[k] == q;
    assert rules[if k < 2 then k + 1 else k + 2].pat == q;
  }

  /** No protected text occurs anywhere in an escaped body: no pass reconstructs what
      another one removed. */
  lemma NoProtectedTextSurvives(t: Tables, body: string, q: string, i: int)
    requires q in Protected(t)
    ensures !Contains(Escaped(t, body), q) && !MatchesAt(Escaped(t, body), i, q)
  {
    RulesAreProtective(t);
    ProtectedTextsHaveAPass(t, q);
    var r :| r in Rules(t) && r.pat == q;
    assert Protective(r);
    if Contains(Escaped(t, body), q) {
      PassesCreateNothing(body, Rules(t), q);
    }
    ContainsIffMatches(Escaped(t, body), q);
  }

  lemma {:induction false} PassesSkipCleanText(s: string, rules: seq<Rule>)
    requires forall r :: r in rules ==> !Contains(s, r.pat)
    ensures RunPasses(s, rules) == s
    decreases |rules|
  {
    if rules != [] {
      assert rules[0] in rules;
      assert rules[0].pat != "";
      ReplaceAbsent(s, rules[0].pat, rules[0].rep);
      PassesSkipCleanText(s, rules[1..]);
    }
  }

  /** Escaping twice is escaping once. */
  lemma EscapedIsIdempotent(t: Tables, body: string)
    ensures Escaped(t, Escaped(t, body)) == Escaped(t, body)
  {
    RulesAreProtective(t);
    var s := Escaped(t, body);
    forall r | r in Rules(t) ensures !Contains(s, r.pat) {
      assert Protective(r);
      if Contains(s, r.pat) {
        PassesCreateNothing(body, Rules(t), r.pat);
      }
    }
    PassesSkipCleanText(s, Rules(t));
  }
}
