/** Timeline events as replay sees them: decoding (src/mcp.rs), and the accessors and the
    classifier of src/channel.rs, over JSON values. */
module ReadEvents {
  import opened ContentSandbox
  import opened MessageWrapper
  import opened Options
  import opened Truncation
  import opened Utf8
  import opened VerdictGrammar
  import opened Whitespace

  datatype Json =
    | JNull
    | JBool(b: bool)
    | JNum(n: int)
    | JStr(s: string)
    | JArr(items: seq<Json>)
    | JObj(fields: map<string, Json>)

  /** A field of an object; nothing when the value is absent or is no object. */
  function At(v: Option<Json>, key: string): Option<Json> {
    if v.Some? && v.value.JObj? && key in v.value.fields then Some(v.value.fields[key]) else None
  }

  function Str(v: Option<Json>): Option<string> {
    if v.Some? && v.value.JStr? then Some(v.value.s) else None
  }

  function Unsigned(v: Option<Json>): Option<nat> {
    if v.Some? && v.value.JNum? && 0 <= v.value.n < 0x1_0000_0000_0000_0000 then Some(v.value.n) else None
  }

  datatype ReadEvent = ReadEvent(
    eventId: Option<string>,
    sender: Option<string>,
    originServerTs: Option<nat>,
    event: Option<Json>,
    untrustedBody: Option<string>)

  /** `read_events_from_chunk`, for one event: the raw value is kept unless it could not be
      decrypted, and a textual body is sandboxed on the way in. */
  function Decoded(t: Tables, value: Json, decrypted: bool): ReadEvent {
    var v := Some(value);
    var id, sender := Str(At(v, "event_id")), Str(At(v, "sender"));
    var body := Str(At(At(v, "content"), "body"));
    ReadEvent(
      id,
      sender,
      Unsigned(At(v, "origin_server_ts")),
      if decrypted then Some(value) else None,
      if body.Some? then Some(WrapBody(t, Str(At(v, "room_id")), sender, id, body.value)) else None)
  }

  function ContentOf(e: ReadEvent): Option<Json> {
    At(e.event, "content")
  }

  /** `raw_body`. */
  function RawBody(e: ReadEvent): Option<string> {
    Str(At(ContentOf(e), "body"))
  }

  /** `replaces_of`: the target of an `m.replace` relation, and nothing for any other. */
  function ReplacesOf(e: ReadEvent): Option<string> {
    var rel := At(ContentOf(e), "m.relates_to");
    if Str(At(rel, "rel_type")) == Some("m.replace") then Str(At(rel, "event_id")) else None
  }

  /** `new_content_body`. */
  function NewContentBody(e: ReadEvent): Option<string> {
    Str(At(At(ContentOf(e), "m.new_content"), "body"))
  }

  /** `is_replayed_verdict`. */
  predicate IsReplayedVerdict(e: ReadEvent) {
    RawBody(e).Some? && Classify(true, RawBody(e).value).Verdict?
  }

  datatype Kind = Image | File | Audio | Video

  datatype Carried =
    | Message
    | Reaction(key: string, annotates: string)
    | Attachment(kind: Kind, filename: string, caption: Option<string>)

  const REACTION_KEY_MAX: nat := 64

  /** `annotation_of`. */
  function AnnotationOf(content: Option<Json>): Option<Carried> {
    var rel := At(content, "m.relates_to");
    if Str(At(rel, "rel_type")) == Some("m.annotation") && Str(At(rel, "key")).Some? && Str(At(rel, "event_id")).Some?
    then Some(Reaction(Clipped(Str(At(rel, "key")).value, REACTION_KEY_MAX), Str(At(rel, "event_id")).value))
    else None
  }

  /** `split_caption`: the body is a caption only beside a filename that differs from it. */
  function SplitCaption(body: string, filename: Option<string>): (Option<string>, string) {
    match filename
    case Some(f) => if f != body then (Some(body), f) else (None, f)
    case None => (None, body)
  }

  function KindOf(msgtype: string): Option<Kind> {
    if msgtype == "m.image" then Some(Image)
    else if msgtype == "m.file" then Some(File)
    else if msgtype == "m.audio" then Some(Audio)
    else if msgtype == "m.video" then Some(Video)
    else None
  }

  /** `classify_content`: a reaction first, then a message or an attachment with a body. */
  function ClassifyContent(content: Option<Json>): Option<Carried> {
    if AnnotationOf(content).Some? then AnnotationOf(content)
    else
      var msgtype, body := Str(At(content, "msgtype")), Str(At(content, "body"));
      if msgtype.None? || body.None? then None
      else if msgtype.value == "m.text" then Some(Message)
      else
        match KindOf(msgtype.value)
        case None => None
        case Some(kind) =>
          var (caption, filename) := SplitCaption(body.value, Str(At(content, "filename")));
          Some(Attachment(kind, filename, caption))
  }

  /** `carried_of`: a replacement is classified by its new content, if that classifies. */
  function CarriedOf(e: ReadEvent): Option<Carried> {
    var inner := At(ContentOf(e), "m.new_content");
    if ReplacesOf(e).Some? && ClassifyContent(inner).Some? then ClassifyContent(inner)
    else ClassifyContent(ContentOf(e))
  }

  datatype BodySource = NewContent(text: string) | Empty | AsRead

  /** `replay_body_source`. */
  function ReplayBodySource(carried: Carried, e: ReadEvent): BodySource {
    if ReplacesOf(e).Some? && NewContentBody(e).Some? then NewContent(NewContentBody(e).value)
    else if carried.Reaction? || (carried.Attachment? && carried.caption.None?) then Empty
    else AsRead
  }

  /** `replay_body`, before the cap. */
  function ReplayBody(t: Tables, room: string, carried: Carried, e: ReadEvent): Option<string> {
    match ReplayBodySource(carried, e)
    case NewContent(text) => Some(WrapBody(t, Some(room), e.sender, e.eventId, text))
    case Empty => Some(WrapBody(t, Some(room), e.sender, e.eventId, ""))
    case AsRead => e.untrustedBody
  }

  /** What classifies without an empty body has a textual one. */
  lemma ClassifiedContentHasBody(content: Option<Json>)
    requires ClassifyContent(content).Some?
    ensures ClassifyContent(content).value.Reaction? || Str(At(content, "body")).Some?
  {
  }

  /** The sender's own text in what replay delivers, before it is wrapped. */
  function DeliveredText(carried: Carried, e: ReadEvent): string {
    match ReplayBodySource(carried, e)
    case NewContent(text) => text
    case Empty => ""
    case AsRead => RawBody(e).GetOr("")
  }

  /** Nothing the channel carries is skipped for want of a body: whatever an event is carried as,
      replay has a text to deliver for it, and that text wraps what the sender wrote. */
  lemma CarriedEventsHaveABody(t: Tables, value: Json, decrypted: bool, room: string)
    requires CarriedOf(Decoded(t, value, decrypted)).Some?
    ensures var e := Decoded(t, value, decrypted);
            var carried := CarriedOf(e).value;
            var body := ReplayBody(t, room, carried, e);
            && body.Some?
            && exists r :: body.value == WrapBody(t, r, e.sender, e.eventId, DeliveredText(carried, e))
  {
    hide WrapBody, Clipped, Classify, KindOf, SplitCaption, AnnotationOf, ClassifyContent;
    var e := Decoded(t, value, decrypted);
    var carried := CarriedOf(e).value;
    var inner := At(ContentOf(e), "m.new_content");
    if ClassifyContent(inner).Some? { ClassifiedContentHasBody(inner); }
    if ClassifyContent(ContentOf(e)).Some? { ClassifiedContentHasBody(ContentOf(e)); }
    var text := DeliveredText(carried, e);
    match ReplayBodySource(carried, e)
    case NewContent(_) => assert ReplayBody(t, room, carried, e).value == WrapBody(t, Some(room), e.sender, e.eventId, text);
    case Empty => assert ReplayBody(t, room, carried, e).value == WrapBody(t, Some(room), e.sender, e.eventId, text);
    case AsRead =>
      assert RawBody(e).Some?;
      assert e.untrustedBody.value == WrapBody(t, Str(At(Some(value), "room_id")), e.sender, e.eventId, text);
  }

  /** What stands in a value behind a path of field names. */
  function Path(v: Json, path: seq<string>): Option<Json>
    decreases |path|
  {
    if path == [] then Some(v)
    else if v.JObj? && path[0] in v.fields then Path(v.fields[path[0]], path[1..])
    else None
  }

  lemma PathCons(v: Json, a: string, rest: seq<string>)
    ensures Path(v, [a] + rest) == if At(Some(v), a).Some? then Path(At(Some(v), a).value, rest) else None
  {
    assert ([a] + rest)[0] == a && ([a] + rest)[1..] == rest;
  }

  lemma PathNil(v: Json)
    ensures Path(v, []) == Some(v)
  {
  }

  lemma PathOfThree(v: Json, a: string, b: string, c: string)
    ensures Path(v, [a, b, c]) == At(At(At(Some(v), a), b), c)
  {
    hide Path;
    assert [a, b, c] == [a] + ([b] + ([c] + []));
    PathCons(v, a, [b] + ([c] + []));
    var x := At(Some(v), a);
    if x.Some? {
      PathCons(x.value, b, [c] + []);
      var y := At(x, b);
      if y.Some? {
        PathCons(y.value, c, []);
        if At(y, c).Some? { PathNil(At(y, c).value); }
      }
    }
  }

  lemma PathOfOne(v: Json, a: string)
    ensures Path(v, [a]) == At(Some(v), a)
  {
    hide Path;
    assert [a] == [a] + [];
    PathCons(v, a, []);
    if At(Some(v), a).Some? { PathNil(At(Some(v), a).value); }
  }

  lemma PathOfTwo(v: Json, a: string, b: string)
    ensures Path(v, [a, b]) == At(At(Some(v), a), b)
  {
    hide Path;
    assert [a, b] == [a] + [b];
    PathCons(v, a, [b]);
    if At(Some(v), a).Some? { PathOfOne(At(Some(v), a).value, b); }
  }

  predicate IsText(v: Option<Json>) {
    v.Some? && v.value.JStr?
  }

  /** An annotation that names its key and its target; whatever else it says, it is no message. */
  predicate Annotates(content: Json) {
    var rel := ["m.relates_to"];
    && Path(content, rel + ["rel_type"]) == Some(JStr("m.annotation"))
    && IsText(Path(content, rel + ["key"])) && IsText(Path(content, rel + ["event_id"]))
  }

  lemma AnnotationPaths(content: Json)
    ensures var rel := At(Some(content), "m.relates_to");
            && Path(content, ["m.relates_to"] + ["rel_type"]) == At(rel, "rel_type")
            && Path(content, ["m.relates_to"] + ["key"]) == At(rel, "key")
            && Path(content, ["m.relates_to"] + ["event_id"]) == At(rel, "event_id")
            && Path(content, ["msgtype"]) == At(Some(content), "msgtype")
            && Path(content, ["body"]) == At(Some(content), "body")
            && Path(content, ["filename"]) == At(Some(content), "filename")
  {
    hide Path;
    var key := "m.relates_to";
    assert [key] + ["rel_type"] == [key, "rel_type"] && [key] + ["key"] == [key, "key"] && [key] + ["event_id"] == [key, "event_id"];
    PathOfTwo(content, key, "rel_type");
    PathOfTwo(content, key, "key");
    PathOfTwo(content, key, "event_id");
    PathOfOne(content, "msgtype");
    PathOfOne(content, "body");
    PathOfOne(content, "filename");
  }

  function MediaType(kind: Kind): string {
    match kind
    case Image => "m.image"
    case File => "m.file"
    case Audio => "m.audio"
    case Video => "m.video"
  }

  lemma MediaTypesAreKinds(msgtype: string, kind: Kind)
    ensures KindOf(msgtype) == Some(kind) <==> msgtype == MediaType(kind)
    ensures msgtype == "m.text" ==> KindOf(msgtype) == None
  {
    assert "m.image"[2] != "m.audio"[2] && "m.image"[2] != "m.video"[2] && "m.audio"[2] != "m.video"[2];
    assert "m.text"[2] != "m.file"[2];
  }

  lemma AnnotationExactlyWhen(content: Json)
    ensures AnnotationOf(Some(content)).Some? <==> Annotates(content)
    ensures match AnnotationOf(Some(content))
            case Some(Reaction(key, target)) =>
              && Path(content, ["m.relates_to"] + ["event_id"]) == Some(JStr(target))
              && (var given := Path(content, ["m.relates_to"] + ["key"]).value.s; Size(given) <= 64 ==> key == given)
            case other => other.None?
  {
    hide Path, Size;
    AnnotationPaths(content);
  }

  /** What a content is carried as. A reaction is exactly an annotation, which comes before everything
      else, with its target whole and its key whole where that is within 64 bytes. */
  lemma ReactionsAreAnnotations(content: Json)
    ensures var out := ClassifyContent(Some(content));
            out.Some? && out.value.Reaction? <==> Annotates(content)
    ensures match ClassifyContent(Some(content))
            case Some(Reaction(key, target)) =>
              && Path(content, ["m.relates_to"] + ["event_id"]) == Some(JStr(target))
              && (var given := Path(content, ["m.relates_to"] + ["key"]).value.s; Size(given) <= 64 ==> key == given)
            case _ => true
  {
    hide Path, Size, AnnotationOf, Annotates, KindOf, SplitCaption;
    AnnotationExactlyWhen(content);
  }

  /** Of what annotates nothing and has a textual body, a message is exactly a text and an attachment
      exactly one of the four media types. */
  lemma MessagesAndMediaExactlyWhen(content: Json)
    requires !Annotates(content)
    ensures var out, msgtype := ClassifyContent(Some(content)), Path(content, ["msgtype"]);
            if !IsText(Path(content, ["body"])) || !IsText(msgtype) then out == None
            else
              && (out == Some(Message) <==> msgtype.value.s == "m.text")
              && (forall kind :: out.Some? && out.value.Attachment? && out.value.kind == kind <==> msgtype.value.s == MediaType(kind))
  {
    hide Path, AnnotationOf, Annotates, KindOf, MediaType, SplitCaption;
    AnnotationPaths(content);
    AnnotationExactlyWhen(content);
    if IsText(Path(content, ["msgtype"])) {
      forall kind {
        MediaTypesAreKinds(Path(content, ["msgtype"]).value.s, kind);
      }
    }
  }

  /** An attachment is named by its file name, or by its body where it gives none; its body is its
      caption exactly when it gives a file name other than that. */
  lemma AttachmentsAreNamed(content: Json)
    ensures match ClassifyContent(Some(content))
            case Some(Attachment(_, filename, caption)) =>
              var name, body := Path(content, ["filename"]), Path(content, ["body"]);
              if IsText(name) && name != body then name == Some(JStr(filename)) && caption.Some? && body == Some(JStr(caption.value))
              else caption == None && body == Some(JStr(filename))
            case _ => true
  {
    hide Path, AnnotationOf, KindOf;
    AnnotationPaths(content);
    AnnotationExactlyWhen(content);
  }

  /** Exactly the relations of type `m.replace` that name their target are edits: no reaction, no
      reply and no thread is. */
  lemma EditsAreReplacements(e: ReadEvent, target: string)
    ensures ReplacesOf(e) == Some(target) <==>
              && e.event.Some?
              && Path(e.event.value, ["content", "m.relates_to", "rel_type"]) == Some(JStr("m.replace"))
              && Path(e.event.value, ["content", "m.relates_to", "event_id"]) == Some(JStr(target))
    ensures AnnotationOf(ContentOf(e)).Some? ==> ReplacesOf(e) == None
  {
    if e.event.Some? {
      PathOfThree(e.event.value, "content", "m.relates_to", "rel_type");
      PathOfThree(e.event.value, "content", "m.relates_to", "event_id");
    }
    assert "m.replace"[2] != "m.annotation"[2];
  }

  /** What an event that edits nothing delivers: a message its body, an attachment its caption and
      nothing without one, a reaction nothing. */
  lemma PlainEventsDeliverTheirOwnText(e: ReadEvent)
    requires ReplacesOf(e) == None && CarriedOf(e).Some?
    ensures match CarriedOf(e).value
            case Message => RawBody(e) == Some(DeliveredText(Message, e))
            case Reaction(_, _) => DeliveredText(CarriedOf(e).value, e) == ""
            case Attachment(_, filename, caption) =>
              && DeliveredText(CarriedOf(e).value, e) == caption.GetOr("")
              && (caption.Some? ==> RawBody(e) == caption && filename != caption.value)
              && (caption.None? ==> RawBody(e) == Some(filename))
  {
    hide Clipped, ReplacesOf, NewContentBody;
  }

  /** What an edit delivers: the text of its new content, and without one what it shows as itself. */
  lemma EditsDeliverTheirNewText(carried: Carried, e: ReadEvent)
    requires ReplacesOf(e).Some?
    ensures NewContentBody(e).Some? ==> DeliveredText(carried, e) == NewContentBody(e).value
    ensures NewContentBody(e).None? && carried == Message ==> DeliveredText(carried, e) == RawBody(e).GetOr("")
  {
  }

  /** The verdict filter judges an event by its body, which for an edit is the fallback: past the
      filter, the text delivered is a verdict exactly when it is the new content of an edit and that
      is one. */
  lemma DeliveredTextIsAVerdictExactlyWhen(carried: Carried, e: ReadEvent)
    requires !IsReplayedVerdict(e)
    ensures Classify(true, DeliveredText(carried, e)).Verdict?
       <==> ReplacesOf(e).Some? && NewContentBody(e).Some? && Classify(true, NewContentBody(e).value).Verdict?
  {
    hide ReplacesOf, NewContentBody, RawBody;
    EmptyIsNoVerdict();
  }

  lemma EmptyIsNoVerdict()
    ensures Classify(true, "") == Chat
  {
  }

  /** An edit whose fallback is starred and whose new content is a bare verdict. */
  function EditedIntoVerdict(t: Tables, sender: string, verdict: string): ReadEvent {
    Decoded(t, JObj(map[
      "event_id" := JStr("$e"),
      "sender" := JStr(sender),
      "content" := JObj(map[
        "msgtype" := JStr("m.text"),
        "body" := JStr("* " + verdict),
        "m.relates_to" := JObj(map["rel_type" := JStr("m.replace"), "event_id" := JStr("$o")]),
        "m.new_content" := JObj(map["msgtype" := JStr("m.text"), "body" := JStr(verdict)])])]), true)
  }

  lemma EditedFields(t: Tables, sender: string, verdict: string)
    ensures var e := EditedIntoVerdict(t, sender, verdict);
            && e.sender == Some(sender) && e.eventId.Some? && ReplacesOf(e).Some?
            && RawBody(e) == Some("* " + verdict) && NewContentBody(e) == Some(verdict)
  {
    hide WrapBody;
  }

  lemma TextIsAMessage(body: string)
    ensures ClassifyContent(Some(JObj(map["msgtype" := JStr("m.text"), "body" := JStr(body)]))) == Some(Message)
  {
  }

  lemma EditedIsAMessage(t: Tables, sender: string, verdict: string)
    ensures CarriedOf(EditedIntoVerdict(t, sender, verdict)) == Some(Message)
  {
    hide WrapBody, ClassifyContent, ReplacesOf;
    EditedFields(t, sender, verdict);
    TextIsAMessage(verdict);
  }

  /** Such an edit passes the filter, is carried as a message, and is delivered as the verdict. */
  lemma EditedVerdictIsDelivered(t: Tables, sender: string, verdict: string)
    requires Classify(true, verdict).Verdict?
    ensures var e := EditedIntoVerdict(t, sender, verdict);
            && !IsReplayedVerdict(e) && CarriedOf(e) == Some(Message)
            && e.sender == Some(sender) && e.eventId.Some?
            && DeliveredText(Message, e) == verdict && Classify(true, DeliveredText(Message, e)).Verdict?
  {
    hide Classify, EditedIntoVerdict, CarriedOf, RawBody, ReplacesOf, NewContentBody;
    EditedFields(t, sender, verdict);
    EditedIsAMessage(t, sender, verdict);
    StarredIsNoVerdict(verdict);
  }

  lemma StarredIsNoVerdict(verdict: string)
    ensures !Classify(true, "* " + verdict).Verdict?
  {
    var text := "* " + verdict;
    assert text[0] == '*' && TrimmedStart(text) == text;
    assert FirstField(text)[0] == '*';
  }

  /** An edit of one and the same event, without new content. */
  function EditAt(t: Tables, id: string, sender: string, ts: nat): ReadEvent {
    Decoded(t, JObj(map[
      "event_id" := JStr(id),
      "sender" := JStr(sender),
      "origin_server_ts" := JNum(ts),
      "content" := JObj(map[
        "msgtype" := JStr("m.text"),
        "body" := JStr(""),
        "m.relates_to" := JObj(map["rel_type" := JStr("m.replace"), "event_id" := JStr("$o")])])]), true)
  }

  lemma EditAtFields(t: Tables, id: string, sender: string, ts: nat)
    requires ts < 0x1_0000_0000_0000_0000
    ensures var e := EditAt(t, id, sender, ts);
            && e.eventId == Some(id) && e.sender == Some(sender) && e.originServerTs == Some(ts)
            && ReplacesOf(e) == Some("$o") && RawBody(e) == Some("") && e.untrustedBody.Some?
  {
    hide WrapBody;
  }

  lemma EditContentIsAMessage(rel: Json)
    requires Str(At(Some(rel), "rel_type")) == Some("m.replace")
    ensures ClassifyContent(Some(JObj(map["msgtype" := JStr("m.text"), "body" := JStr(""), "m.relates_to" := rel]))) == Some(Message)
    ensures ClassifyContent(None) == None
  {
  }

  lemma EditAtIsAMessage(t: Tables, id: string, sender: string, ts: nat)
    ensures CarriedOf(EditAt(t, id, sender, ts)) == Some(Message) && NewContentBody(EditAt(t, id, sender, ts)) == None
  {
    hide WrapBody, ReplacesOf, ClassifyContent;
    EditContentIsAMessage(JObj(map["rel_type" := JStr("m.replace"), "event_id" := JStr("$o")]));
  }
}
