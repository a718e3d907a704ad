# A verified model of the Matrix MCP server's stateful core

This project models, in Dafny, the parts of the server whose correctness is hard to see by
reading: the relay of permission prompts and verdicts between a coding session and a chat room,
the replay of missed messages, the escaping that keeps message bodies inside their delimiters, the
self-heal of a client's crypto store, and the bounded stores behind sessions, tokens and usage
records. It proves what each promises for all inputs, all runs and all interleavings.

Run `dafny verify dfyconfig.toml` in this directory (Dafny 4.11).

## How the code is represented

* **Concurrent protocols are state machines over the code's own sections.** `PermissionRelay`
  splits a delivery at its awaits, `SelfHeal` splits a `for_user` call at its awaits and lock
  sections, `SessionCap` splits a create or restore around its gate, and `ReplayGuard` tracks the
  in-flight flags. Theorems quantify over runs: any number of calls, interleaved in any way. The
  registry, the session manager and the replay flags are also written as classes whose methods are
  those sections; their contracts use the same relations the state machines step by.
* **State that changes in place is a class** with the same fields: `ChannelRegistry`,
  `LastUsedTracker`, `FileSessionStore`, `IntrospectionCache`, `CappedSessionManager`,
  `ReplayFlags`. Loops stay loops, proved against a declarative specification.
* **The outside is a parameter.** Clock readings are integers in nanoseconds that do not go
  backwards; the answers of the homeserver, of peers and of the authentication service, and the
  fate of each file operation, are arbitrary. The wall clock by which tokens expire may be set at any
  moment. SHA-256 is taken to be injective, so a session id or a token stands for its digest. Texts are sequences of Unicode scalar values; where bytes matter
  (truncation, percent-encoding) the UTF-8 form of section 3 of RFC 3629 is modelled.
* **The escaper is proved for any tables of its shape**, of which the code's own are an instance
  (`CodeTablesAreWellFormed`).

Modules follow the source files: `ContentSandbox`, `EscapeRoundTrip`, `AttrEscape` and
`MessageWrapper` for src/content_sandbox.rs; `Truncation`, `VerdictGrammar`, `PendingPrompts`,
`PermissionRelay`, `ReadEvents`, `Supersession`, `Replay` and `ReplayGuard` for src/channel.rs;
`SelfHeal` for src/matrix_client.rs; `SessionStore`, `SessionCap`, `IntrospectionCache` for
src/session_store.rs, src/session.rs and src/mas.rs; `LastUsed` and `ForwardedChain` for
src/last_used.rs; `Setup` for src/setup.rs. `Text`, `Whitespace`, `Utf8`, `Subsequences`, `Sets` and
`Options` are shared vocabulary.

## Where the code and its promises part

The model follows the code; each difference is stated as a theorem or named here.

* src/content_sandbox.rs:32 and src/content_sandbox.rs:152 call the escapes lossless. They are so
  exactly for bodies without the four entity texts (`EscapeIsLosslessExactlyWhenEntityFree`), and no
  decoder does better on all bodies (`EscapeIsNotInjective`).
* The reply pattern (src/channel.rs:312) is case-insensitive under Unicode folding, so the Kelvin
  sign and the long s pass for `k` and `s`, and lower-casing in ASCII leaves them in the id
  (`CapturedIdIsRequestIdExactly`, `KelvinSignIsTakenForAVerdict`).
* src/channel.rs:1270-1277 says that a permission verdict must not be replayed as prose. The filter judges an
  event by its own body, which for an edit is the fallback, while replay sends the new content. So exactly the
  edits whose new content is a verdict get through (`DeliveredVerdictsAreEdits`, `EditedVerdictGoesOut`).
* The watermark is looked up by event id. Acknowledging cuts where it should exactly when no newer unseen
  event repeats the id (`AcknowledgingCutsThere`), and passes over nothing undelivered exactly when none of
  those, or newer, carries it (`AcknowledgingPassesNothingExactlyWhen`); on a page with a repeated id an event
  can be lost (`RepeatedIdLosesAnEvent`). The code's own quoting allows for such pages (src/channel.rs:1454-1460).
* Supersession judges one window at a time, by time stamp. Acknowledging an edit that is older in the room but
  newer by time stamp lets the edit it superseded through on the next pass (`SupersededEditReturns`;
  `LaterPassAgreesExactlyWhen` says exactly when).
* The session store treats what it cannot find out as harmless: an unreadable age as fresh, a failed existence
  check as a new session, a skipped directory entry as no file. `LoadIsRightExactlyWhen`, `RefusedExactlyWhen` and
  `CapIsPassedExactlyWhen` say exactly what that costs, `ExpiredStateIsServed` and `FullDirectoryGoesWrong` show it.
* One prompt can receive two verdicts (`OnePromptMayGetTwoVerdicts`). Nothing in the code promises
  otherwise; it is stated so that nobody relies on it. The cap on pending prompts is shared, so one
  identity's prompts can push out another's.
* src/mas.rs:411-419 subtracts two `i64` values unchecked, and the release profile has no overflow
  checks. An expiry far enough below zero wraps to the full lifetime
  (`ExpiredGetsNoTimeIffSubtractable`, `LeastExpiryIsCachedForAMinute`). The lifetime is computed by the wall
  clock and kept by the monotonic one; what the first gained on the second appears in `ServedBriefly`.
* src/matrix_client.rs:308-312 says that a retry which still finds no keys raises an error and that a
  request makes at most two key queries. The code returns the client in that case
  (src/matrix_client.rs:465) and polls further while it waits for publication
  (src/matrix_client.rs:182-189); `CallsAreBounded` counts the queries before that wait.
* src/matrix_client.rs:412-415 says that the key query runs exactly once per cached client. It runs until the first
  yes: each call asks again after a no or a failure, and calls that began before the yes may ask beside it (`OneYesIsEnough`).
* Nothing keeps another call from rebuilding a client between the eviction and the wipe of a heal;
  the state machine has those runs and no theorem excludes them.

## Model

Source paths are relative to the repository's root.

| member | source | states |
|---|---|---|
| ContentSandbox.CodeTablesAreWellFormed | src/content_sandbox.rs:50-62 | the two framing tags and ten role tokens the code protects have the shape every theorem about the escaper assumes: one opening angle or bracket, first, and no ampersand |
| ContentSandbox.EscapeFraming | src/content_sandbox.rs:165-178 | the closing tag, any closing prefix and any opening prefix of a framing tag are replaced in that order, as the passes of `FramingRules` |
| ContentSandbox.EscapeAngleTokens | src/content_sandbox.rs:180-185 | the loop over the angle tokens, which escapes a token in place and skips it when absent, is the run of one entity-writing pass per token |
| ContentSandbox.EscapeBracketTokens | src/content_sandbox.rs:187-192 | the same for the bracket tokens |
| ContentSandbox.EscapeInjectionMarkers | src/content_sandbox.rs:154-195 | the escaper as a whole is the sixteen passes in order, for any body; the theorems below are about that run |
| ContentSandbox.RulesAreProtective | src/content_sandbox.rs:154-195 | each pass replaces a protected text by exactly its own entity form |
| ContentSandbox.PassesCreateNothing | src/content_sandbox.rs:154-195 | no run of such passes, in any order, creates an occurrence of a text that opens with an angle or bracket and holds no ampersand, nor leaves one of its own patterns |
| ContentSandbox.NoProtectedTextSurvives | src/content_sandbox.rs:154-195 | no framing prefix and no role token occurs anywhere in an escaped body, for any body: no later pass reconstructs what an earlier one removed |
| ContentSandbox.EscapedIsIdempotent | src/content_sandbox.rs:154-195 | escaping twice is escaping once |
| EscapeRoundTrip.EscapeIsLosslessExactlyWhenEntityFree | src/content_sandbox.rs:152-195 | decoding the four entities gives the body back if and only if the body held none of the four entity texts; in general it gives the body decoded. This is the exact extent of the documented losslessness |
| EscapeRoundTrip.EscapeIsNotInjective | src/content_sandbox.rs:152-195 | each protected text and its escaped form have the same image, so no decoder at all recovers every body |
| EscapeRoundTrip.DecodingShortens | src/content_sandbox.rs:152-195 | decoding leaves a text alone if it holds no entity text and shortens it otherwise |
| AttrEscape.AttrEscape | src/content_sandbox.rs:206-219 | the character walk writes each special as its entity and nothing else |
| AttrEscape.AttrRoundTrip | src/content_sandbox.rs:206-219 | decoding the five entities inverts attribute escaping on every string |
| AttrEscape.AttrEscapedIsInert | src/content_sandbox.rs:206-219 | an escaped value holds no quote and no angle |
| MessageWrapper.DelimitersStandOnlyAtTheEnds | src/content_sandbox.rs:133-146 | for any room, sender, id and body, the opening delimiter stands at the start of the wrapped text and nowhere else, the closing one at its end and nowhere else |
| MessageWrapper.EnvelopeReadsBack | src/content_sandbox.rs:133-146 | the three attribute values parse back from the opening tag exactly, whatever they hold; an absent one reads as empty |
| MessageWrapper.BodyReadsBack | src/content_sandbox.rs:133-146 | what a reader finds between the opening tag's line and the closing tag's is the escaped body, whole and alone, and decoding that gives the body back if and only if the body holds none of the four entity texts |
| MessageWrapper.CappedWrapperStaysClosed | src/channel.rs:140-152 | after the cap the text ends with the full closing tag, holds it nowhere else, and is within a fixed number of bytes, however long the body or the identifiers |
| MessageWrapper.CodeClosesItsOwnTag | src/channel.rs:148-151 | the line the cap appends is the closing tag of the wrapper's own framing |
| MessageWrapper.CappedEnvelopeReadsBackExactlyWhen | src/channel.rs:140-152 | after the cap the three attribute values still parse back if and only if the opening tag fits the limit; otherwise, with identifiers that long, nothing parses |
| MessageWrapper.CutKeepsOneCloser | src/channel.rs:140-152 | cutting any text whose only closing tag is its end, and closing it again, leaves exactly one |
| Setup.HtmlEscapeIsAttrEscape | src/setup.rs:1218-1224 | the five sequential passes of the page escaper equal the one-pass attribute escaper on every string, so its decoder inverts them too |
| Setup.UrlEncode | src/setup.rs:1057-1070 | the byte walk writes unreserved octets as themselves and any other as an upper-case triplet |
| Setup.UrlRoundTrip | src/setup.rs:1057-1070 | percent-decoding, as sections 2.1 and 2.3 of RFC 3986 define it, inverts the encoder on every byte string |
| Setup.UrlEncodedIsUnreservedOrTriplets | src/setup.rs:1057-1070 | the output holds only unreserved characters and percent signs |
| Truncation.StepBack | src/channel.rs:129-132 | stepping back from the limit ends on a character boundary within three steps, passes no boundary, and what is kept is the longest whole-character prefix within the limit |
| Truncation.FitIsLongest | src/channel.rs:129-132 | a prefix fits the limit exactly when it is no longer than the one kept |
| Truncation.LastBoundaryIsFit | src/channel.rs:129-132 | the last boundary at or before the limit is where that longest prefix ends |
| Truncation.Clip | src/channel.rs:386-395 | well-formed UTF-8 in, well-formed UTF-8 out: unchanged when it fits, else its longest fitting prefix and an ellipsis, at most three bytes over the limit |
| Truncation.CapBody | src/channel.rs:125-134 | the same with the truncation note |
| Truncation.CapWrapped | src/channel.rs:140-152 | the same with the truncation note and the closing tag |
| VerdictGrammar.IdCharIsFoldedClass | src/channel.rs:310-314 | the characters the case-insensitive id class accepts: its letters in either case, and the Kelvin sign and long s, which fold to `k` and `s` |
| VerdictGrammar.VerdictIffReplyShape | src/channel.rs:310-359 | a text is ignored if and only if its sender is not allowed, and a verdict if and only if the sender is and the text is blanks, a word, at least one blank, five id characters, blanks; the shape gives the id in lower case and the behaviour |
| VerdictGrammar.ReplyIsUnambiguous | src/channel.rs:310-359 | a text has the reply shape in at most one way: word and id are determined |
| VerdictGrammar.CapturedIdIsRequestIdExactly | src/channel.rs:310-359 | the id of a verdict is five letters of the issued alphabet if and only if the capture holds neither of the two folding non-ASCII letters; over ASCII text it always is |
| VerdictGrammar.KelvinSignIsTakenForAVerdict | src/channel.rs:310-359 | replies where it is not: a Kelvin sign and any four letters are taken for a verdict with an id no client issues |
| VerdictGrammar.PromptRepliesParseBack | src/channel.rs:403-411 | whatever the tool name, description and preview hold, the two replies quoted last in the prompt parse back as allow and deny of that very request |
| VerdictGrammar.PromptShowsTheRequest | src/channel.rs:403-411 | the prompt shows the tool and, where they fit 512 and 1536 bytes, the whole description and the whole preview |
| PendingPrompts.RecordedFits | src/channel.rs:776-808 | recording a prompt never leaves more than 256, always leaves the new prompt in, and keeps only unexpired prompts unchanged |
| PendingPrompts.RecordedDropsOnlyTheOldest | src/channel.rs:776-808 | an unexpired prompt pushed out by another key met a full map and was no younger than any that stayed |
| PendingPrompts.ChannelRegistry.RecordRequest | src/channel.rs:776-808 | prune, evict the oldest until there is room, insert under a fresh serial |
| PendingPrompts.ChannelRegistry.Oldest | src/channel.rs:776-808 | the scan finds a prompt no younger than any other |
| PendingPrompts.ChannelRegistry.HasPending | src/channel.rs:761-768 | yes if and only if some unexpired prompt belongs to this identity |
| PendingPrompts.ChannelRegistry.RetireIfCurrent | src/channel.rs:813-821 | removes the prompt under the key if and only if it still has the serial, and says whether it did |
| PendingPrompts.ChannelRegistry.LookUp | src/channel.rs:828-849 | prunes and returns session and serial of the prompt under the key, consuming nothing |
| PendingPrompts.ChannelRegistry.Register | src/channel.rs:520-531 | sets one session's peer, drops this identity's closed peers, touches no other identity |
| PendingPrompts.ChannelRegistry.DeliverVerdict | src/channel.rs:828-907 | with nothing beside it: delivered if and only if the prompt is live, its session has a peer and the send works; the prompt is removed exactly then; the recipient is the recorded session's peer |
| PermissionRelay.StepKeepsInv | src/channel.rs:776-907 | every step of every interleaving of prompt issue, lookup, peer lookup, send, retire, registration and expiry keeps the protocol's invariant |
| PermissionRelay.InvHoldsThroughout | src/channel.rs:776-907 | so it holds in every state of every run |
| PermissionRelay.PendingSerialsAreDistinct | src/channel.rs:776-808 | in every run pending serials are distinct and below the counter, and at most 256 prompts are pending |
| PermissionRelay.VerdictsGoToTheAskingSession | src/channel.rs:828-907 | every verdict written in a run was looked up, found its peer and was sent by one delivery, in that order: the lookup met that very prompt unexpired, and the peer was the one then registered under the identity and the session recorded when the prompt was issued |
| PermissionRelay.PeerHearsOneIdentity | src/channel.rs:828-907 | all verdicts a peer receives in a run are of one identity |
| PermissionRelay.RetiredIsNeverLookedUpAgain | src/channel.rs:813-907 | once a serial is retired no later lookup returns it |
| PermissionRelay.RetiredPromptIsGone | src/channel.rs:813-907 | in every run, once a delivery has run its last section its serial is retired and no prompt in any later state carries it; and its key, if not reissued before that section, is absent from the map until it is reissued |
| PermissionRelay.UninterruptedDeliveryDelivers | src/channel.rs:828-907 | four sections of one delivery with nothing between them, from a live prompt whose session has a peer, write exactly that verdict to that peer, remove that prompt and leave every other live one |
| PermissionRelay.UnissuedRepliesDoNothing | src/channel.rs:836-849 | a reply to a prompt that is not pending, or is fifteen minutes old, starts no delivery and writes nothing |
| PermissionRelay.PromptLeavesOnlyByAReason | src/channel.rs:776-907 | a prompt leaves the map only by its own delivered verdict, its TTL, a reissue of its key, or pushed out of a full map as an oldest entry; so no delivery removes another identity's prompt, or a reissued one |
| PermissionRelay.FailedDeliveriesRemoveNothing | src/channel.rs:850-890 | a delivery without a peer and one whose send fails end there and write nothing, and neither these nor a delivery whose id was reissued meanwhile removes a prompt |
| PermissionRelay.PromptStaysAnswerable | src/channel.rs:776-907 | over any stretch of any run, a prompt stays in the map unchanged until it expires, is reissued, is pushed out of a full map, or its own verdict has been written |
| PermissionRelay.JustRecordedIsPending | src/channel.rs:776-808 | a prompt just recorded is pending, under a serial no delivery in flight carries |
| PermissionRelay.OnePromptMayGetTwoVerdicts | src/channel.rs:828-907 | a run in which one prompt receives both an allow and a deny: two lookups before either retires |
| ReadEvents.CarriedEventsHaveABody | src/channel.rs:1140-1200 | whatever replay classifies as carried also has a text to deliver, which wraps what the sender wrote, so no candidate is lost for want of a body |
| ReadEvents.ReactionsAreAnnotations | src/channel.rs:1475-1484 | a content is carried as a reaction if and only if it is an annotation naming key and target, whatever else it holds; the target is carried whole, and the key where it is within 64 bytes |
| ReadEvents.MessagesAndMediaExactlyWhen | src/channel.rs:1840-1870 | of any other content with a textual body, a message is exactly a text and an attachment of a kind exactly that media type |
| ReadEvents.AttachmentsAreNamed | src/channel.rs:1863-1864 | an attachment has its file name, or its body for want of one, and its body is a caption if and only if it also gives a different file name |
| ReadEvents.EditsAreReplacements | src/channel.rs:1389-1395 | an event edits a target if and only if its content's relation has the type `m.replace` and names it; so no reaction is an edit |
| ReadEvents.PlainEventsDeliverTheirOwnText | src/channel.rs:1182-1200 | an event that edits nothing delivers its own body as a message, its caption or nothing as an attachment, nothing as a reaction |
| ReadEvents.EditsDeliverTheirNewText | src/channel.rs:1182-1200 | an edit delivers the body of its new content, and without one, as a message, its own |
| ReadEvents.DeliveredTextIsAVerdictExactlyWhen | src/channel.rs:1182-1200 | of an event past the verdict filter, the text delivered is a verdict if and only if the event is an edit whose new content is one |
| ReadEvents.EditedVerdictIsDelivered | src/channel.rs:1416-1419 | an edit with a starred fallback and a bare verdict as new content passes the filter and is delivered as that verdict |
| Supersession.SupersedeEdits | src/channel.rs:1313-1371 | the two walks keep exactly the candidates the declarative judgement `Keeps` keeps, in order |
| Supersession.NewestIsMax | src/channel.rs:1313-1340 | the map entry of a target is its identified edit greatest by time stamp, then by position, and exists when there is one |
| Supersession.KeptIsSubsequence | src/channel.rs:1341-1371 | the result is a subsequence of the batch, made of exactly the positions kept |
| Supersession.DroppedEventsAreCovered | src/channel.rs:1313-1371 | every event dropped is covered by a surviving edit of it or of its own target, self-naming and mutually naming edits included |
| Supersession.ExactlyTheNewestEditSurvives | src/channel.rs:1313-1371 | with distinct ids an edit survives if and only if it is its target's greatest by time stamp and position: one per target |
| Supersession.PlainEventSurvivesUnlessEdited | src/channel.rs:1313-1371 | a plain event survives if and only if no identified edit in the batch targets it |
| Supersession.SupersessionIsIdempotent | src/channel.rs:1313-1371 | superseding twice is superseding once |
| Supersession.SuffixKeeps | src/channel.rs:1313-1371 | what a batch keeps, a pass over its newer part alone keeps too, unless it is an edit whose id an older event shares |
| Supersession.NewerPartAgreesExactlyWhen | src/channel.rs:1313-1371 | with distinct ids, what the newer part alone keeps the whole batch keeps if and only if no older edit of the same event has a later time stamp and no older edit targets a plain event: otherwise a later pass delivers what an earlier one had superseded |
| Replay.WalkToWatermark | src/channel.rs:1016-1027 | the walk collects the identified events newer than the watermark and says whether it met it |
| Replay.ReplayDeliverable | src/channel.rs:1255-1292 | allowlist, self and verdict filter, then supersession, then the budget |
| Replay.PushInOrder | src/channel.rs:1060-1086 | the push loop: an event without sender, id or body is skipped, and the first push that reaches nobody ends the room |
| Replay.ReplayRoom | src/channel.rs:982-1094 | everything one room sends, and the count returned is the number of events delivered |
| Replay.ReplayMissed | src/channel.rs:937-980 | everything one pass sends: at most fifty rooms share one budget; an empty allowlist sends nothing; and where every notification reaches a peer, the events delivered are exactly the first hundred of the deliverable events of the first fifty rooms, in room order |
| Replay.ReplayRooms | src/channel.rs:963-971 | the loop over the rooms visits each in turn with the budget the earlier ones left, until it is used up |
| Replay.PassDeliversPrefixes | src/channel.rs:937-980 | in every pass each room visited delivers a prefix of its own deliverable events, in room order, and less than all of them only where the budget is used up or one of that room's own notifications reached nobody |
| Replay.ReachingPassDeliversAll | src/channel.rs:937-980 | a pass whose every notification reaches a peer delivers exactly the first events of the concatenation of its rooms' deliverable events, as many as its budget |
| Replay.RoomStaysWithinBudget | src/channel.rs:93-114 | one room delivers no more than its budget and at most twenty events, with at most one notice more |
| Replay.PassStaysWithinBounds | src/channel.rs:93-114 | one pass delivers at most 100 events, writes at most 150 notifications counting truncation notices, and attempts at most 200 |
| Replay.RoomDeliversAPrefix | src/channel.rs:1016-1093 | a room delivers, oldest first, a prefix of its deliverable events within the budget, and less than that only where one of its notifications reached nobody |
| Replay.WatermarkIsMetExactlyWhen | src/channel.rs:1016-1027 | the walk meets the watermark if and only if an identified event of the page has its id |
| Replay.NewerThanWatermarkIsUnseen | src/channel.rs:1016-1027 | every identified event newer than the watermark is collected |
| Replay.CarriableIsDeliverableOrCovered | src/channel.rs:1255-1371 | of the newest twenty unseen events each that passes the filter and classifies is deliverable, or covered by a deliverable edit of it or of its own target |
| Replay.NoticeExactlyWhen | src/channel.rs:1034-1050 | the truncation notice is a room's first notification, and stands there if and only if the watermark was not met and more than twenty events are unseen |
| Replay.AcknowledgingCutsAtTheNewest | src/channel.rs:1016-1027 | acknowledging an unseen event cuts at the newest unseen event of its id, for any page |
| Replay.AcknowledgingCutsThere | src/channel.rs:1016-1027 | it leaves exactly the events newer than the acknowledged one unseen if and only if none of them shares its id |
| Replay.StaysUnseenExactlyWhen | src/channel.rs:1016-1027 | an unseen event stays unseen, in its place, if and only if neither it nor a newer one carries the acknowledged id |
| Replay.AcknowledgingPassesNothingExactlyWhen | src/channel.rs:1016-1093 | acknowledging a delivered event passes over no undelivered deliverable event if and only if none of those, and no event newer than one of them, carries the acknowledged id |
| Replay.AcknowledgingLosesNothing | src/channel.rs:1016-1093 | a deliverable event that was not delivered and is not passed over is deliverable again under the new watermark, but for an edit whose id an event passed over shares |
| Replay.DistinctIdsLoseNothing | src/channel.rs:1016-1093 | with distinct unseen ids acknowledging any delivered event loses nothing: every deliverable event of the window was delivered or is deliverable again |
| Replay.LaterPassAgreesExactlyWhen | src/channel.rs:1016-1093 | with distinct unseen ids, what is deliverable after an acknowledgement was deliverable before it if and only if no candidate passed over is an edit of the same event with a later time stamp, or, of a plain event, an edit at all |
| Replay.SupersededEditReturns | src/channel.rs:1016-1093 | a room of two edits of one event, the older with the later time stamp: the first pass delivers that one, and once it is acknowledged the second delivers the other |
| Replay.RepeatedIdLosesAnEvent | src/channel.rs:1016-1093 | a page with a repeated id on which an event is neither delivered nor still unseen |
| Replay.DeliveredEventsPassTheGate | src/channel.rs:1255-1292 | every delivered event is of the page, from an allowlisted sender other than the identity, and its own body (of an edit, the fallback) is no permission verdict |
| Replay.DeliveredVerdictsAreEdits | src/channel.rs:1270-1283 | the text delivered for a delivered event is a permission verdict if and only if the event is an edit whose new content is one |
| Replay.EditedVerdictGoesOut | src/channel.rs:1270-1283 | a room whose one event is such an edit delivers the verdict as prose |
| Replay.EveryPushIsClosed | src/channel.rs:1060-1093 | every text a replay pushes ends with the closing delimiter, holds it nowhere else and has a fixed size bound, whatever was written |
| ReplayGuard.StepKeepsInv | src/channel.rs:191-203 | the flags are exactly the identities of the passes in flight, one each, and every attach, end and abort keeps it so |
| ReplayGuard.OnePassPerIdentity | src/channel.rs:191-203 | in every interleaving an identity has at most one pass in flight and its flag is set exactly while it has one |
| ReplayGuard.EndedPassFreesItsIdentity | src/channel.rs:197-203 | in every run, once a pass has ended or been aborted the next attach of its identity begins a pass, whatever other identities do between |
| ReplayGuard.ReplayFlags.Begin | src/channel.rs:945-961 | setting the flag is the protocol's attach step, and says whether a pass begins |
| ReplayGuard.ReplayFlags.DropGuard | src/channel.rs:197-203 | the guard's destructor is the protocol's end step, for a finished and an aborted pass alike |
| SelfHeal.StepKeepsInv | src/matrix_client.rs:317-582 | every section of every call, and everything outside, keeps the invariant over the maps, the calls and the log |
| SelfHeal.CallsReturnTheirOwnClient | src/matrix_client.rs:317-404 | in every interleaving the client a call returns is one built for that call's own identity |
| SelfHeal.OneBuildPerCell | src/matrix_client.rs:379-400 | in every interleaving no two calls fill one once-cell, and a cell others wait for has a call filling it: concurrent first callers share one build |
| SelfHeal.CachedClientIsReusedExactlyWhen | src/matrix_client.rs:338-351 | the fast path takes the cached client if and only if its cell is full and its sync task still runs, and then touches nothing |
| SelfHeal.StaleClientsAreDropped | src/matrix_client.rs:360-375 | the stale check drops the cached client if and only if its sync task has finished; a running one, a cell still empty or being filled, and every other identity's client stay |
| SelfHeal.CallsEndWithCause | src/matrix_client.rs:416-582 | in every run a call of the first pass ends with a client only because its flag was set, the homeserver said yes or could not be asked, the heal was claimed already, or the backup was not confirmed; after a heal, only from the publication wait |
| SelfHeal.CallsFailWithCause | src/matrix_client.rs:317-582 | a call that fails was dropped, or its build, its token refresh or its store removal failed |
| SelfHeal.FailingStepsEndTheirCall | src/matrix_client.rs:317-582 | and each such failure ends its call, changing no client; a failed build leaves the cell vacant for the next caller |
| SelfHeal.HealRunsThrough | src/matrix_client.rs:416-582 | a first-pass call that hears no, of an unhealed identity with a recoverable backup, claims, confirms, evicts and wipes, and starts over with nothing cached |
| SelfHeal.StoreIsWipedAtMostOnceAndWithCause | src/matrix_client.rs:416-582 | in every interleaving of concurrent calls each identity's store is wiped at most once per process, by a call that first claimed its heal, then heard that the backup is recoverable, then evicted the client, in that order |
| SelfHeal.WipesFollowANoAndAYes | src/matrix_client.rs:416-582 | in every run a wiped store's call had asked the homeserver on its first pass and heard no, and later asked for the backup and heard yes; a query or a check that fails never leads to a wipe |
| SelfHeal.VerifiedExactlyWhenHeardYes | src/matrix_client.rs:416-430 | in every run `keys_verified` is set on a client if and only if some earlier step asked the homeserver about it and heard yes |
| SelfHeal.OneYesIsEnough | src/matrix_client.rs:416-430 | in every run, once some call has heard yes of a client, no call begins to ask about that client again |
| SelfHeal.CallsAreBounded | src/matrix_client.rs:317-582 | one call recurses at most once, builds at most two clients and, before the publication wait, asks the homeserver at most twice; once it has recursed it never claims, evicts or wipes |
| SelfHeal.WaitForPublish | src/matrix_client.rs:923-949 | at least one check; published, failed and expired are told apart by the last answer; a late yes is still a yes; the number of polls is bounded by the ceiling |
| SessionCap.StepKeepsInv | src/session.rs:149-235 | every step of create, restore, close and cancellation keeps the cap, and whoever has seen room keeps it |
| SessionCap.CapHoldsThroughout | src/session.rs:149-235 | in every interleaving a manager never holds more than 256 live sessions |
| SessionCap.RoomSeenIsRoomKept | src/session.rs:149-165 | between a call's count and its insert the map only shrinks, however many other calls run |
| SessionCap.CappedSessionManager.LockGate | src/session.rs:154-154 | taking the gate is the protocol's step |
| SessionCap.CappedSessionManager.CountSessions | src/session.rs:155-163 | the count under the gate is the protocol's step, a rejected call releasing the gate |
| SessionCap.CappedSessionManager.InsertSession | src/session.rs:164-165 | the insert under the gate is the protocol's step |
| SessionCap.CappedSessionManager.CloseSession | src/session.rs:175-177 | close, without the gate, is the protocol's step |
| SessionCap.CappedSessionManager.OpenSession | src/session.rs:223-238 | a create or restore alone opens its session exactly when there is room and leaves the gate free |
| LastUsed.LastUsedTracker.Record | src/last_used.rs:101-114 | the new record is in, everything else kept is as it was, and under a forward clock the map stays the most recent part of the trace |
| LastUsed.LastUsedTracker.Oldest | src/last_used.rs:107-112 | the scan finds an entry with the least time stamp |
| LastUsed.LastUsedTracker.Get | src/last_used.rs:117-123 | what a lookup returns is that hash's latest record of the whole trace, and under a forward clock it returns one if and only if fewer than 1024 distinct hashes were recorded since |
| LastUsed.RecordKeepsMostRecent | src/last_used.rs:101-114 | dropping the oldest of a full map and inserting the newest keeps it the 1024 most recently recorded hashes |
| LastUsed.HeldIffFewRecordedSince | src/last_used.rs:101-114 | under a forward clock the tracker is an LRU over its whole trace: a hash is held if and only if fewer than 1024 distinct hashes were recorded after its last use |
| LastUsed.UnboundedIsLatest | src/last_used.rs:101-114 | the map the tracker is measured against holds exactly the hashes recorded, each with the last of its records |
| ForwardedChain.EntriesConcat | src/last_used.rs:159-165 | the entries of a joined header are the entries of its parts, in order |
| ForwardedChain.StrayCommasAddNothing | src/last_used.rs:159-165 | stray commas, with blanks between them or without, are no entries, per section 5.6.1.2 of RFC 9110 |
| ForwardedChain.ProxiesAddTheirEntries | src/last_used.rs:159-175 | each proxy's padded address adds one entry after whatever the client sent, the first proxy starting the header when there is none |
| ForwardedChain.ClientCannotShiftTheChoice | src/last_used.rs:208-219 | for any client header, or none, and N proxies, N trusted hops select what the first of those proxies wrote, and the counter counts what the parser sees |
| ForwardedChain.CallerIsCountedFromTheRight | src/last_used.rs:208-219 | no caller where there are fewer entries than trusted hops or no trusted hop; otherwise the entry that many from the right, whatever stands left of it |
| SessionStore.FileSessionStore.Sweep | src/session_store.rs:109-137 | only expired files go; the count returned is of the files the listing yields; when every removal works exactly the yielded files seen expired go, a file whose metadata cannot be read counting as fresh |
| SessionStore.FileSessionStore.Store | src/session_store.rs:169-197 | the session's state changes if and only if the rename happened; only a session taken for new meets the cap; the cap is kept for an existing session always and for a new one where every file is counted; when every step works the outcome and the directory are those of `StoreSpec` |
| SessionStore.FileSessionStore.WriteThenRename | src/session_store.rs:190-196 | a failure or crash at any of its steps leaves the previous state whole |
| SessionStore.FileSessionStore.Load | src/session_store.rs:142-167 | an answer is the committed state within its lifetime or nothing, never a torn one, where the file's age is known; where it is not, the expired state; only an expired file may be removed |
| SessionStore.FileSessionStore.Delete | src/session_store.rs:199-205 | a missing file or a working removal is success and the session is gone; an error or a crash changes nothing and has a failing or a dying step behind it |
| SessionStore.SweepingReflects | src/session_store.rs:120-137 | a sweep changes no answer: what it removes had already expired |
| SessionStore.SweepKeepsExactly | src/session_store.rs:109-137 | a sweep whose removals work keeps a file if and only if the listing skipped it, its metadata could not be read, or it is no more than seven days old |
| SessionStore.StoresSweepWhen | src/session_store.rs:169-177 | an expired file is gone after a store's sweep unless the store was of a session found to exist and not the sixty-fourth |
| SessionStore.Play | src/session_store.rs:142-205 | over any sequential history with any failing step, read, listing, existence check, metadata read or skipped entry in any operation, any crash point and any restart (`HistoryOk`): every operation whose steps work does exactly what its specification says to the disk before it; a crash has a step at which the process died, an error a step that failed, or for a load an unreadable file; session files change only by what succeeded, or by expiring; a load that answers gives the last state stored within its lifetime or nothing, if and only if the age of a file past its lifetime could be read; and the session files stay within the cap while each store of a new session sees every file |
| SessionStore.LoadIsRightExactlyWhen | src/session_store.rs:142-167 | the same of one load: right if and only if the file is missing, within its lifetime, or its metadata readable |
| SessionStore.CapIsPassedExactlyWhen | src/session_store.rs:169-197 | from within the cap a store passes it if and only if the session is new, as many session files as the cap are left after the sweep, and the count missed one; never where every file is counted |
| SessionStore.RefusedExactlyWhen | src/session_store.rs:169-188 | a store is refused if and only if the cap's number of files is counted and the session is new or its existence check got no answer |
| SessionStore.ExpiredStateIsServed | src/session_store.rs:109-118 | a load that answers with an expired state, the metadata being unreadable |
| SessionStore.FullDirectoryGoesWrong | src/session_store.rs:120-137 | a full directory in which one skipped entry lets the cap be passed, and one unanswered existence check refuses an existing session |
| IntrospectionCache.DeviceFromScope | src/mas.rs:470-487 | the last stable device field of the scope, else the last unstable one |
| IntrospectionCache.LastTailIsOfTheLast | src/mas.rs:470-487 | of several fields with one prefix the last decides |
| IntrospectionCache.SameMxidSameUser | src/mas.rs:318-349 | two accepted tokens have the same Matrix id if and only if they name the same user |
| IntrospectionCache.MatrixScopeExactlyWhen | src/mas.rs:452-461 | a scope grants the Matrix API if and only if it reads as something empty or ending in white space, then one of the two API prefixes, then anything |
| IntrospectionCache.AcceptedExactlyWhenEveryCheckPasses | src/mas.rs:247-348 | a reply is accepted if and only if it is a success, active, names this server as audience or none, has such a scope, a subject and a user name; it is an error, not a refusal, exactly for a failed request or status or a wrong audience |
| IntrospectionCache.AcceptedIdentityIs | src/mas.rs:318-349 | the identity accepted has the reply's subject, expiry and scope, the Matrix id of its user name on this server, and the device it names |
| IntrospectionCache.AcceptedDeviceIs | src/mas.rs:330-341 | a device not named is what follows the stable prefix in the last field beginning with it, else the unstable one, else none |
| IntrospectionCache.ExpiredGetsNoTimeIffSubtractable | src/mas.rs:411-419 | an already expired token is given no lifetime if and only if its expiry less the clock does not fall below the least `i64` |
| IntrospectionCache.LeastExpiryIsCachedForAMinute | src/mas.rs:411-419 | the least expiry does fall below, at any time from the first second of 1970 on, and the token is cached for the full minute |
| IntrospectionCache.ServedBriefly | src/mas.rs:411-423 | an accepted answer is served for less than a minute; where the subtraction does not wrap, only if it was unexpired when cached, and for less than a second past its expiry by the wall clock, apart from what that clock gained on the monotonic one since it was read |
| IntrospectionCache.ServedUntilItsTime | src/mas.rs:411-423 | where the subtraction does not wrap, it is served exactly until the earlier of the minute and the whole seconds left to its expiry |
| IntrospectionCache.IntrospectionCache.CacheLookup | src/mas.rs:378-388 | a hit is an entry under that token whose time has not come |
| IntrospectionCache.IntrospectionCache.CacheInsert | src/mas.rs:390-437 | only expired entries are swept; afterwards at most 256 entries are held or every other one was unexpired |
| IntrospectionCache.IntrospectionCache.DropToken | src/mas.rs:368-376 | exactly that token's entry goes |
| IntrospectionCache.IntrospectionCache.Answer | src/mas.rs:199-353 | only an accepted reply is cached; a rejection or failure leaves the cache as it was |
| IntrospectionCache.LatestIsTheLastWord | src/mas.rs:351-437 | the unbounded map of a run holds a token if and only if it was accepted and not dropped since, with its last acceptance |
| IntrospectionCache.Play | src/mas.rs:199-437 | over any interleaving of lookups, answers and drops the bounded, swept cache answers as that unbounded map would: it hits exactly the unexpired last acceptances |
| IntrospectionCache.HitsAreFreshAcceptances | src/mas.rs:199-437 | every hit is the identity of an earlier acceptance of that very token, which was a success, active, for this server and with a scope that grants the API, was neither dropped nor replaced since and is less than a minute old; where the subtraction of its lifetime does not wrap, it was unexpired when cached and is less than a second past its expiry by the wall clock, apart from what that clock gained on the monotonic one, however either was set |

## Left out

* Live delivery: `push_message`, `push_reaction`, `carried_of_live`, `live_delivery` and
  `handled_as_verdict` work on parsed event types of a library, and differ from replay on captions
  shaped like verdicts and on unusable new content.
* Quoting of replied-to messages (`quotable_from`, `resolve_reply`, `reply_ref_from`) and the metadata of a
  push (`replay_meta`, `build_params`): they decorate a push and decide nothing.
* `notify` is the number of peers a notification reached; its sweep of closed peers appears only as
  the relay's step that drops peers. Configuration caching, `last_rooms` and room choice are not modelled.
* The decoded event keeps the fields replay reads; its status, thread and reply fields and the advisory
  suspicion flag (`is_suspicious`, a list of substring tests) are left out.
* The regex engine: the pattern is written out as a recogniser and as a relation, which are proved equal.
* Serials are unbounded: the wrap of the 64-bit counter is not modelled. One clock reading stands for
  the several a lock section takes.
* A peer handle belongs to one identity, because it belongs to one MCP session; `PermissionRelay`
  takes this as what registration means.
* `AcknowledgingLosesNothing` speaks of the replayed window: what the twenty-event cap cuts off is announced by
  the truncation notice, not delivered. An edit whose id an event passed
  over shares may be replaced, in the next pass, by another edit of the same event.
* Self-heal's `claim_heal`, `evict` and `verify_or_heal` are sections on values, not methods of a class, because the
  theorems are about their interleaving. A removal that failed, or whose call was dropped, counts as a wipe. Which store directory an
  identity has, token refresh, the sync watchdog, `next_backoff` and the key-query parsing are outside.
* Each session manager has its own gate and cap; src/main.rs builds two, so the process may hold twice the cap.
* The session store's histories are sequential and its crashes are those of the process: loss of
  written data at power failure is not modelled. Files of other builds, which do not parse, do not occur, and a
  state that cannot be serialised is a failed first step.
* The introspection cache ignores poisoned locks, which make the code skip caching.
* `LastUsed` proves the LRU for time stamps that strictly increase in lock order. The code reads the clock before
  it takes the lock, so two concurrent calls may come out of order, and equal stamps are possible; then it may
  evict another entry, and only `Record`'s other promises hold.
* The address parser behind `parse_client_ip` is any function; `observe_ingress_chain`, a logging counter, is left out.
* Rate limiting, URL safety, key-backup gating, device identity, PKCE and setup sessions, HTTP routing, pages,
  metrics, tracing and configuration parsing: plumbing, or smaller copies of what is proved here.
