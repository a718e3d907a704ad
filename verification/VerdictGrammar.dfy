/** The permission-verdict grammar of src/channel.rs: the reply pattern, `classify_inbound`, and
    the prompt that tells a human what to reply. */
module VerdictGrammar {
  import opened Options
  import opened Text
  import opened Truncation
  import opened Utf8
  import opened Whitespace

  datatype Behavior = Allow | Deny

  datatype Inbound = Verdict(requestId: string, behavior: Behavior) | Chat | Ignored

  // ---- The pattern --------------------------------------------------------------------

  /** Case-insensitive matching of one lowercase letter, under Unicode simple case folding:
      the Kelvin sign folds to `k` and the long s to `s`. */
  predicate FoldsTo(c: char, letter: char) {
    c == letter || ('a' <= letter <= 'z' && c as int == letter as int - 32)
    || (letter == 'k' && c == '\U{212A}') || (letter == 's' && c == '\U{017F}')
  }

  predicate IsWord(w: string) {
    (|w| == 1 && (FoldsTo(w[0], 'y') || FoldsTo(w[0], 'n')))
    || (|w| == 2 && FoldsTo(w[0], 'n') && FoldsTo(w[1], 'o'))
    || (|w| == 3 && FoldsTo(w[0], 'y') && FoldsTo(w[1], 'e') && FoldsTo(w[2], 's'))
  }

  /** A member of `[a-km-z]`. */
  predicate IdLetter(c: char) {
    'a' <= c <= 'z' && c != 'l'
  }

  /** A character the case-insensitive class accepts. */
  predicate IdChar(c: char) {
    IdLetter(c) || ('A' <= c <= 'Z' && c != 'L') || c == '\U{212A}' || c == '\U{017F}'
  }

  lemma IdCharIsFoldedClass(c: char)
    ensures IdChar(c) <==> exists letter :: IdLetter(letter) && FoldsTo(c, letter)
  {
    if IdLetter(c) {
      assert FoldsTo(c, c);
    } else if 'A' <= c <= 'Z' && c != 'L' {
      assert FoldsTo(c, (c as int + 32) as char);
    } else if c == '\U{212A}' {
      assert FoldsTo(c, 'k');
    } else if c == '\U{017F}' {
      assert FoldsTo(c, 's');
    }
  }

  predicate IsIdText(id: string) {
    |id| == 5 && forall i :: 0 <= i < 5 ==> IdChar(id[i])
  }

  /** An id as the client issues it: five lowercase letters, no `l`. */
  predicate IsRequestId(id: string) {
    |id| == 5 && forall i :: 0 <= i < 5 ==> IdLetter(id[i])
  }

  /** The pattern, as a relation: blanks, a word, at least one blank, an id, blanks. */
  ghost predicate ReplyShape(text: string, a: string, word: string, b: string, id: string, c: string) {
    && text == a + word + b + id + c
    && Blank(a) && Blank(b) && Blank(c) && b != ""
    && IsWord(word) && IsIdText(id)
  }

  // ---- The recogniser -----------------------------------------------------------------

  /** The captures of a match: the text has exactly two fields, a word and an id. */
  function Capture(text: string): Option<(string, string)> {
    var t := TrimmedStart(text);
    var word := FirstField(t);
    var u := TrimmedStart(t[|word|..]);
    var id := FirstField(u);
    if IsWord(word) && IsIdText(id) && TrimmedStart(u[|id|..]) == "" then Some((word, id)) else None
  }

  lemma WordHasNoBlank(w: string)
    requires IsWord(w) || IsIdText(w)
    ensures w != "" && forall i :: 0 <= i < |w| ==> !IsSpace(w[i])
  {
  }

  lemma CaptureFindsShape(text: string, a: string, word: string, b: string, id: string, c: string)
    requires ReplyShape(text, a, word, b, id, c)
    ensures Capture(text) == Some((word, id))
  {
    WordHasNoBlank(word);
    WordHasNoBlank(id);
    var t, u := word + b + id + c, id + c;
    assert text == a + t;
    TrimmedStartSkips(a, t);
    assert t == word + (b + u);
    FirstFieldIs(word, b + u);
    assert t[|word|..] == b + u;
    TrimmedStartSkips(b, u);
    FirstFieldIs(id, c);
    assert u[|id|..] == c;
    TrimmedStartSkips(c, "");
    assert c + "" == c;
  }

  lemma CaptureHasShape(text: string, word: string, id: string) returns (a: string, b: string, c: string)
    requires Capture(text) == Some((word, id))
    ensures ReplyShape(text, a, word, b, id, c)
  {
    hide IsWord, IsIdText, IsSpace, TrimmedStart, FirstField;
    var t := TrimmedStart(text);
    a := TrimmedStartSplits(text);
    FirstFieldSplits(t);
    var v := t[|word|..];
    var u := TrimmedStart(v);
    b := TrimmedStartSplits(v);
    FirstFieldSplits(u);
    c := TrimmedStartSplits(u[|id|..]);
    assert c == u[|id|..];
    WordHasNoBlank(id);
    assert u == id + c && t == word + v;
    assert text == a + word + b + id + c;
    assert b != "" by {
      assert v == b + u && u[0] == id[0] && IsSpace(v[0]) && !IsSpace(id[0]);
    }
  }

  /** `classify_inbound`. */
  function Classify(senderAllowed: bool, text: string): Inbound {
    if !senderAllowed then Ignored
    else match Capture(text)
      case None => Chat
      case Some((word, id)) => Verdict(AsciiLower(id), BehaviorOf(word))
  }

  function BehaviorOf(word: string): Behavior
    requires word != ""
  {
    if LowerChar(word[0]) == 'y' then Allow else Deny
  }

  function LowerChar(c: char): char {
    if 'A' <= c <= 'Z' then (c as int + 32) as char else c
  }

  function AsciiLower(s: string): (r: string)
    ensures |r| == |s| && forall i :: 0 <= i < |s| ==> r[i] == LowerChar(s[i])
  {
    if s == "" then "" else [LowerChar(s[0])] + AsciiLower(s[1..])
  }

  /** A verdict is exactly an allowed sender's text of the reply shape; the shape fixes its id and
      its behaviour, and `y` and `yes` are the words that allow. A stranger's text is ignored,
      whatever it says, and nobody else's is. */
  lemma VerdictIffReplyShape(senderAllowed: bool, text: string, requestId: string, behavior: Behavior)
    ensures Classify(senderAllowed, text) == Verdict(requestId, behavior)
       <==> senderAllowed
            && exists a, word, b, id, c ::
                 ReplyShape(text, a, word, b, id, c) && requestId == AsciiLower(id)
                 && (behavior == Allow <==> FoldsTo(word[0], 'y'))
    ensures Classify(senderAllowed, text) == Ignored <==> !senderAllowed
  {
    if Classify(senderAllowed, text) == Verdict(requestId, behavior) {
      var (word, id) := Capture(text).value;
      var a, b, c := CaptureHasShape(text, word, id);
      assert ReplyShape(text, a, word, b, id, c);
    }
    if a, word, b, id, c :|
        ReplyShape(text, a, word, b, id, c) && requestId == AsciiLower(id)
        && (behavior == Allow <==> FoldsTo(word[0], 'y')) {
      CaptureFindsShape(text, a, word, b, id, c);
    }
  }

  /** One text is at most one reply: the word and the id are determined by the text. */
  lemma ReplyIsUnambiguous(text: string, a: string, word: string, b: string, id: string, c: string,
                           a': string, word': string, b': string, id': string, c': string)
    requires ReplyShape(text, a, word, b, id, c) && ReplyShape(text, a', word', b', id', c')
    ensures word == word' && id == id'
  {
    CaptureFindsShape(text, a, word, b, id, c);
    CaptureFindsShape(text, a', word', b', id', c');
  }

  /** The captured id is one a client can have issued exactly when it is free of the two
      non-ASCII letters the case-insensitive pattern lets through; so over ASCII text it always is. */
  lemma CapturedIdIsRequestIdExactly(text: string, word: string, id: string)
    requires Capture(text) == Some((word, id))
    ensures IsRequestId(AsciiLower(id)) <==> '\U{212A}' !in id && '\U{017F}' !in id
    ensures (forall i :: 0 <= i < |text| ==> text[i] as int < 128) ==> IsRequestId(AsciiLower(id))
  {
    hide Capture;
    FoldingLettersDecide(id) by { CaptureIsOfAnId(text, word, id); }
    var a, b, c := CaptureHasShape(text, word, id);
    assert forall i :: 0 <= i < |id| ==> id[i] == text[|a + word + b| + i];
  }

  lemma CaptureIsOfAnId(text: string, word: string, id: string)
    requires Capture(text) == Some((word, id))
    ensures IsIdText(id)
  {
  }

  lemma FoldingLettersDecide(id: string)
    requires IsIdText(id)
    ensures IsRequestId(AsciiLower(id)) <==> '\U{212A}' !in id && '\U{017F}' !in id
  {
    if IsRequestId(AsciiLower(id)) {
      forall i | 0 <= i < |id| ensures id[i] != '\U{212A}' && id[i] != '\U{017F}' {
        assert IdLetter(AsciiLower(id)[i]);
      }
    } else {
      var i :| 0 <= i < 5 && !IdLetter(AsciiLower(id)[i]);
      assert IdChar(id[i]);
    }
  }

  /** A reply typed with a Kelvin sign is taken for a verdict, with an id no client issues. */
  lemma KelvinSignIsTakenForAVerdict(id: string)
    requires |id| == 5 && id[0] == '\U{212A}' && forall i :: 1 <= i < 5 ==> IdLetter(id[i])
    ensures Classify(true, "no " + id) == Verdict(id, Deny) && !IsRequestId(id)
  {
    hide Capture;
    assert AsciiLower(id) == id && !IdLetter(id[0]);
    assert IsWord("no") && IsIdText(id);
    RepliesCapture("no", id);
    assert "no" + " " + id == "no " + id;
  }

  lemma RepliesCapture(word: string, id: string)
    requires IsWord(word) && IsIdText(id)
    ensures Capture(word + " " + id) == Some((word, id))
  {
    hide IsWord, IsIdText, Capture;
    assert Blank("") && Blank(" ");
    assert word + " " + id == "" + word + " " + id + "";
    CaptureFindsShape(word + " " + id, "", word, " ", id, "");
  }

  // ---- The prompt ---------------------------------------------------------------------

  datatype PermissionRequest = PermissionRequest(requestId: string, toolName: string, description: string, inputPreview: string)

  const PROMPT_DESCRIPTION_MAX: nat := 512
  const PROMPT_PREVIEW_MAX: nat := 1536

  /** `format_prompt`. */
  function Prompt(r: PermissionRequest): string {
    "Claude wants to run " + r.toolName + ": " + Clipped(r.description, PROMPT_DESCRIPTION_MAX) + "\n"
    + Clipped(r.inputPreview, PROMPT_PREVIEW_MAX) + "\n\nReply "
    + ("\"yes " + r.requestId + "\" or \"no " + r.requestId + "\"")
  }

  function LastIndexOf(s: string, c: char): (i: int)
    ensures -1 <= i < |s| && (i >= 0 ==> s[i] == c) && forall j :: i < j < |s| ==> s[j] != c
  {
    if s == "" then -1
    else if s[|s| - 1] == c then |s| - 1
    else LastIndexOf(s[..|s| - 1], c)
  }

  /** The text between the last two double quotes, and what precedes them. */
  function LastQuoted(s: string): Option<(string, string)> {
    var close := LastIndexOf(s, '"');
    if close < 0 then None
    else
      var open := LastIndexOf(s[..close], '"');
      if open < 0 then None else Some((s[..open], s[open + 1..close]))
  }

  /** The two replies a reader finds quoted last in a prompt. */
  function OfferedReplies(prompt: string): Option<(string, string)> {
    match LastQuoted(prompt)
    case None => None
    case Some((before, no)) =>
      match LastQuoted(before)
      case None => None
      case Some((_, yes)) => Some((yes, no))
  }

  lemma {:induction false} LastIndexOfIs(head: string, c: char, tail: string)
    requires c !in tail
    ensures LastIndexOf(head + [c] + tail, c) == |head|
  {
    var s := head + [c] + tail;
    if tail != "" {
      assert s[..|s| - 1] == head + [c] + tail[..|tail| - 1];
      LastIndexOfIs(head, c, tail[..|tail| - 1]);
    }
  }

  lemma LastQuotedIs(before: string, inside: string, after: string)
    requires '"' !in inside && '"' !in after
    ensures LastQuoted(before + ("\"" + inside + "\"" + after)) == Some((before, inside))
  {
    var s := before + ("\"" + inside + "\"" + after);
    var upto := before + "\"" + inside;
    assert s == upto + ['"'] + after;
    LastIndexOfIs(upto, '"', after);
    assert s[..|upto|] == before + ['"'] + inside;
    LastIndexOfIs(before, '"', inside);
    assert s[..|before|] == before && s[|before| + 1..|upto|] == inside;
  }

  /** Whatever the tool, the description and the preview hold, the two replies quoted last in the
      prompt are answers to this very request: the first allows it, the second denies it. */
  lemma PromptRepliesParseBack(r: PermissionRequest)
    requires IsRequestId(r.requestId)
    ensures OfferedReplies(Prompt(r)).Some?
    ensures var (yes, no) := OfferedReplies(Prompt(r)).value;
            && Classify(true, yes) == Verdict(r.requestId, Allow)
            && Classify(true, no) == Verdict(r.requestId, Deny)
  {
    var id := r.requestId;
    var before := "Claude wants to run " + r.toolName + ": " + Clipped(r.description, PROMPT_DESCRIPTION_MAX) + "\n"
      + Clipped(r.inputPreview, PROMPT_PREVIEW_MAX) + "\n\nReply ";
    OfferedRepliesAre(before, id);
    RepliesAnswer(id);
  }

  /** The prompt shows what is asked for: the tool, the description and the preview, the last two whole
      where they fit their limits. */
  lemma PromptShowsTheRequest(r: PermissionRequest)
    requires Size(r.description) <= 512 && Size(r.inputPreview) <= 1536
    ensures var shown := r.toolName + ": " + r.description + "\n" + r.inputPreview + "\n";
            MatchesAt(Prompt(r), |"Claude wants to run "|, shown)
  {
    hide Size, FitLength;
    var lead := "Claude wants to run ";
    var shown := r.toolName + ": " + r.description + "\n" + r.inputPreview + "\n";
    var replies := "\nReply " + ("\"yes " + r.requestId + "\" or \"no " + r.requestId + "\"");
    PromptParts(lead, r.toolName, r.description, r.inputPreview, "\"yes " + r.requestId + "\" or \"no " + r.requestId + "\"");
    assert (lead + (shown + replies))[|lead|..] == shown + replies;
  }

  lemma PromptParts(lead: string, tool: string, description: string, preview: string, replies: string)
    ensures lead + tool + ": " + description + "\n" + preview + "\n\nReply " + replies
         == lead + ((tool + ": " + description + "\n" + preview + "\n") + ("\nReply " + replies))
  {
    assert "\n\nReply " == "\n" + "\nReply ";
  }

  lemma OfferedRepliesAre(before: string, id: string)
    requires '"' !in id
    ensures OfferedReplies(before + ("\"yes " + id + "\" or \"no " + id + "\"")) == Some(("yes " + id, "no " + id))
  {
    var first := before + ("\"" + ("yes " + id) + "\"" + " or ");
    assert before + ("\"yes " + id + "\" or \"no " + id + "\"") == first + ("\"" + ("no " + id) + "\"" + "");
    LastQuotedIs(first, "no " + id, "");
    LastQuotedIs(before, "yes " + id, " or ");
  }

  lemma RepliesAnswer(id: string)
    requires IsRequestId(id)
    ensures Classify(true, "yes " + id) == Verdict(id, Allow)
    ensures Classify(true, "no " + id) == Verdict(id, Deny)
  {
    hide Capture;
    assert AsciiLower(id) == id;
    assert IsWord("yes") && IsWord("no") && IsIdText(id);
    RepliesCapture("yes", id);
    RepliesCapture("no", id);
    assert "yes" + " " + id == "yes " + id && "no" + " " + id == "no " + id;
  }
}
