/**
 * The request-handling core of the Flask server (app.py): validating and
 * normalising the posted history, translating it into the generative
 * model's conversation format, and framing the model's streamed answer as
 * newline-delimited JSON frames.
 */
module Server {
  import opened Wrappers
  import opened Sequences
  import opened Text
  import opened Protocol

  // ---------------------------------------------------------------------
  // _build_messages
  // ---------------------------------------------------------------------

  /** Why no history could be built: the ValueError the route turns into a
      400 reply, or the TypeError Python raises when a role is a list or an
      object (it cannot be looked up in a set). */
  datatype BuildError = NoValidMessage | UnhashableRole

  /** The text of the ValueError. */
  const NoValidMessageText := "No valid message provided."

  /** The role a JSON value names, if it is one of the three accepted strings. */
  function RoleOf(j: Option<Json>): Option<Role> {
    if j == Some(Str("user")) then Some(User)
    else if j == Some(Str("assistant")) then Some(Assistant)
    else if j == Some(Str("system")) then Some(System)
    else None
  }

  /** Python cannot hash lists and dicts, so `role in {...}` raises for them. */
  predicate Unhashable(j: Json) {
    j.Array? || j.Object?
  }

  /** The membership test on this item's role raises. */
  predicate RaisesOnItem(item: Json) {
    item.Object? && match Get(item.fields, "role") {
      case Some(r) => Unhashable(r)
      case None => false
    }
  }

  /** Some item of the list makes the membership test raise. */
  predicate AnyRaises(items: seq<Json>) {
    exists i :: 0 <= i < |items| && RaisesOnItem(items[i])
  }

  /** The normalised message an item contributes, if it is valid. */
  function CleanItem(item: Json): Option<Message> {
    if !item.Object? then None
    else
      var role := RoleOf(Get(item.fields, "role"));
      var content := Get(item.fields, "content");
      if role.Some? && content.Some? && content.value.Str? && PyStrip(content.value.s) != "" then
        Some(Message(role.value, PyStrip(content.value.s)))
      else None
  }

  /** The list `cleaned` the loop builds from the posted items. */
  function Cleaned(items: seq<Json>): seq<Message> {
    FilterMap(CleanItem, items)
  }

  /** The fallback: a single user message built from the `message` member. */
  function FromMessageField(payload: map<string, Json>): Result<seq<Message>, BuildError> {
    match Get(payload, "message")
    case Some(Str(m)) => if PyStrip(m) != "" then Ok([Message(User, PyStrip(m))]) else Err(NoValidMessage)
    case _ => Err(NoValidMessage)
  }

  /** What `_build_messages(payload)` returns or raises, as written. */
  function BuildSpec(payload: map<string, Json>): (r: Result<seq<Message>, BuildError>)
    ensures r.Ok? ==> r.value != []
  {
    match Get(payload, "messages")
    case Some(Array(items)) =>
      if AnyRaises(items) then Err(UnhashableRole)
      else if Cleaned(items) != [] then Ok(Cleaned(items))
      else FromMessageField(payload)
    case _ => FromMessageField(payload)
  }

  /** `_build_messages`: the loop over the posted items, then the fallback. */
  method BuildMessages(payload: map<string, Json>) returns (r: Result<seq<Message>, BuildError>)
    ensures r == BuildSpec(payload)
  {
    var messages := Get(payload, "messages");
    if messages.Some? && messages.value.Array? {
      var items := messages.value.elems;
      var cleaned: seq<Message> := [];
      for i := 0 to |items|
        invariant cleaned == Cleaned(items[..i])
        invariant forall j :: 0 <= j < i ==> !RaisesOnItem(items[j])
      {
        assert Init(items[..i + 1]) == items[..i];
        var item := items[i];
        if !item.Object? {
          continue;
        }
        var role := Get(item.fields, "role");
        var content := Get(item.fields, "content");
        if role.Some? && Unhashable(role.value) {
          assert RaisesOnItem(items[i]);
          return Err(UnhashableRole);
        }
        var known := RoleOf(role);
        if known.Some? && content.Some? && content.value.Str? && PyStrip(content.value.s) != "" {
          cleaned := cleaned + [Message(known.value, PyStrip(content.value.s))];
        }
      }
      assert items[..|items|] == items;
      if cleaned != [] {
        return Ok(cleaned);
      }
    }
    var userMessage := Get(payload, "message");
    if userMessage.Some? && userMessage.value.Str? && PyStrip(userMessage.value.s) != "" {
      return Ok([Message(User, PyStrip(userMessage.value.s))]);
    }
    return Err(NoValidMessage);
  }

  /** An item contributes a message exactly when it is an object whose role is
      one of the three accepted names and whose content is a string that is
      not blank; the message's content is that string stripped. */
  lemma CleanItemIff(item: Json, m: Message)
    ensures CleanItem(item) == Some(m) <==>
      && item.Object?
      && Get(item.fields, "role") == Some(Str(RoleName(m.role)))
      && Get(item.fields, "content").Some? && Get(item.fields, "content").value.Str?
      && !AllSpace(Get(item.fields, "content").value.s, IsPySpace)
      && m.content == PyStrip(Get(item.fields, "content").value.s)
  {
    if item.Object? {
      var content := Get(item.fields, "content");
      if content.Some? && content.value.Str? {
        StripEmptyIff(content.value.s, IsPySpace);
      }
    }
  }

  /** `_build_messages` raises ValueError exactly when neither the list nor
      the `message` member yields a message (and no role made it raise
      TypeError first). */
  lemma BuildFailsIff(payload: map<string, Json>)
    ensures BuildSpec(payload) == Err(NoValidMessage) <==>
      && (Get(payload, "messages").Some? && Get(payload, "messages").value.Array? ==>
            var items := Get(payload, "messages").value.elems;
            !AnyRaises(items) && forall i :: 0 <= i < |items| ==> CleanItem(items[i]).None?)
      && !(Get(payload, "message").Some? && Get(payload, "message").value.Str?
           && !AllSpace(Get(payload, "message").value.s, IsPySpace))
  {
    var messages := Get(payload, "messages");
    if messages.Some? && messages.value.Array? {
      FilterMapEmptyIff(CleanItem, messages.value.elems);
    }
    var message := Get(payload, "message");
    if message.Some? && message.value.Str? {
      StripEmptyIff(message.value.s, IsPySpace);
    }
  }

  /** When the list is missing, not a list, or yields nothing, the result is
      the single user message built from the stripped `message` member. */
  lemma BuildFallsBackToMessage(payload: map<string, Json>, text: string)
    requires Get(payload, "message") == Some(Str(text)) && !AllSpace(text, IsPySpace)
    requires Get(payload, "messages").Some? && Get(payload, "messages").value.Array? ==>
      var items := Get(payload, "messages").value.elems;
      !AnyRaises(items) && forall i :: 0 <= i < |items| ==> CleanItem(items[i]).None?
    ensures BuildSpec(payload) == Ok([Message(User, PyStrip(text))])
  {
    StripEmptyIff(text, IsPySpace);
    var messages := Get(payload, "messages");
    if messages.Some? && messages.value.Array? {
      FilterMapEmptyIff(CleanItem, messages.value.elems);
    }
  }

  /** What `_build_messages` evidently means to do: skip every item that is
      not a valid message, including one whose role is a list or an object. */
  function BuildIntended(payload: map<string, Json>): (r: Result<seq<Message>, BuildError>)
    ensures r.Ok? ==> r.value != []
    ensures r != Err(UnhashableRole)
  {
    match Get(payload, "messages")
    case Some(Array(items)) =>
      if Cleaned(items) != [] then Ok(Cleaned(items)) else FromMessageField(payload)
    case _ => FromMessageField(payload)
  }

  /** The valid item of the example below is kept as it is. */
  lemma HelloIsKept()
    ensures CleanItem(Object(map["role" := Str("user"), "content" := Str("hello")])) == Some(Message(User, "hello"))
  {
    assert TrimStart("hello", IsPySpace) == "hello" by {
      assert "hello"[0] == 'h';
    }
    assert TrimEnd("hello", IsPySpace) == "hello" by {
      assert "hello"[4] == 'o';
    }
  }

  /** As written, the membership test raises instead of skipping: a history
      holding one item with a list as its role and one valid user message is
      refused, where skipping the bad item would keep the user message. */
  lemma UnhashableRoleRejectsHistory()
    ensures var bad := Object(map["role" := Array([]), "content" := Str("hi")]);
      var good := Object(map["role" := Str("user"), "content" := Str("hello")]);
      var payload := map["messages" := Array([bad, good])];
      && BuildSpec(payload) == Err(UnhashableRole)
      && BuildIntended(payload) == Ok([Message(User, "hello")])
  {
    var bad := Object(map["role" := Array([]), "content" := Str("hi")]);
    var good := Object(map["role" := Str("user"), "content" := Str("hello")]);
    var payload := map["messages" := Array([bad, good])];
    assert Get(payload, "messages") == Some(Array([bad, good]));
    assert RaisesOnItem([bad, good][0]);
    assert Cleaned([bad, good]) == [Message(User, "hello")] by {
      assert CleanItem(bad) == None;
      HelloIsKept();
      FilterMapAppend(CleanItem, [bad], [good]);
      FilterMapSingle(CleanItem, bad);
      FilterMapSingle(CleanItem, good);
      assert [bad] + [good] == [bad, good];
    }
  }

  /** The intended builder ignores an invalid item wherever it stands. */
  lemma BuildIntendedSkipsInvalid(payload: map<string, Json>, a: seq<Json>, x: Json, b: seq<Json>)
    requires CleanItem(x).None?
    ensures BuildIntended(payload["messages" := Array(a + [x] + b)])
         == BuildIntended(payload["messages" := Array(a + b)])
  {
    FilterMapAppend(CleanItem, a + [x], b);
    FilterMapAppend(CleanItem, a, [x]);
    FilterMapAppend(CleanItem, a, b);
    FilterMapSingle(CleanItem, x);
    var withX := payload["messages" := Array(a + [x] + b)];
    var withoutX := payload["messages" := Array(a + b)];
    assert Cleaned(a + [x] + b) == Cleaned(a + b);
    assert Get(withX, "messages") == Some(Array(a + [x] + b));
    assert Get(withoutX, "messages") == Some(Array(a + b));
    assert FromMessageField(withX) == FromMessageField(payload) by {
      assert Get(withX, "message") == Get(payload, "message");
    }
    assert FromMessageField(withoutX) == FromMessageField(payload) by {
      assert Get(withoutX, "message") == Get(payload, "message");
    }
  }

  /** Where no role makes Python raise, the code as written and the intended
      builder agree. */
  lemma BuildAgreesWithoutUnhashableRoles(payload: map<string, Json>)
    requires Get(payload, "messages").Some? && Get(payload, "messages").value.Array? ==>
      !AnyRaises(Get(payload, "messages").value.elems)
    ensures BuildSpec(payload) == BuildIntended(payload)
  {
  }

  // ---------------------------------------------------------------------
  // _translate_for_gemini
  // ---------------------------------------------------------------------

  /** The generative model's two conversation roles, `"user"` and `"model"`. */
  datatype Turn = UserTurn | ModelTurn

  /** `{"role": role, "parts": [{"text": text}]}`: one entry of `contents`,
      always holding exactly one text part. */
  datatype Content = Content(role: Turn, text: string)

  /** The texts of the two ValueErrors. */
  const EmptyHistoryText := "Conversation history is empty after filtering messages."
  const LastNotUserText := "The latest message must come from the user."

  /** The entry a message becomes when it is not the system instruction. */
  function ToContent(m: Message): Content {
    Content(if m.role == User then UserTurn else ModelTurn, m.content)
  }

  /** `system_instruction` and `contents` after the loop has visited `ms`. */
  function Scan(ms: seq<Message>): (Option<string>, seq<Content>) {
    if ms == [] then (None, [])
    else
      var (instruction, contents) := Scan(Init(ms));
      var m := Last(ms);
      if m.role == System && instruction.None? then (Some(m.content), contents)
      else (instruction, contents + [ToContent(m)])
  }

  /** What `_translate_for_gemini(ms)` returns, or the text of what it raises. */
  function Translate(ms: seq<Message>): (r: Result<(Option<string>, seq<Content>), string>)
    ensures r.Ok? ==> r.value.1 != [] && Last(r.value.1).role == UserTurn
    ensures r.Err? ==> r.error == EmptyHistoryText || r.error == LastNotUserText
  {
    var (instruction, contents) := Scan(ms);
    if contents == [] then Err(EmptyHistoryText)
    else if Last(contents).role != UserTurn then Err(LastNotUserText)
    else Ok((instruction, contents))
  }

  /** `_translate_for_gemini`: one pass setting the instruction once and
      appending every other message. */
  method TranslateForGemini(ms: seq<Message>) returns (r: Result<(Option<string>, seq<Content>), string>)
    ensures r == Translate(ms)
  {
    var instruction: Option<string> := None;
    var contents: seq<Content> := [];
    for i := 0 to |ms|
      invariant (instruction, contents) == Scan(ms[..i])
    {
      assert Init(ms[..i + 1]) == ms[..i];
      var entry := ms[i];
      if entry.role == System && instruction.None? {
        instruction := Some(entry.content);
        continue;
      }
      var turn := if entry.role == User then UserTurn else ModelTurn;
      contents := contents + [Content(turn, entry.content)];
    }
    assert ms[..|ms|] == ms;
    if contents == [] {
      return Err(EmptyHistoryText);
    }
    if contents[|contents| - 1].role != UserTurn {
      return Err(LastNotUserText);
    }
    return Ok((instruction, contents));
  }

  /** The position of the first system message, if any. */
  function FirstSystem(ms: seq<Message>): (k: Option<nat>)
    ensures k.None? <==> forall i :: 0 <= i < |ms| ==> ms[i].role != System
    ensures k.Some? ==>
      && k.value < |ms| && ms[k.value].role == System
      && forall j :: 0 <= j < k.value ==> ms[j].role != System
  {
    if ms == [] then None
    else if ms[0].role == System then Some(0)
    else match FirstSystem(ms[1..]) {
      case None => None
      case Some(k) => Some(k + 1)
    }
  }

  /** Every message of `ms` as an entry, in order. */
  function AllContents(ms: seq<Message>): (cs: seq<Content>)
    ensures |cs| == |ms|
  {
    seq(|ms|, i requires 0 <= i < |ms| => ToContent(ms[i]))
  }

  /** The loop's result, stated independently: the first system message
      becomes the instruction and every other message, later system
      messages included, becomes an entry, in order. */
  function Reference(ms: seq<Message>): (Option<string>, seq<Content>) {
    match FirstSystem(ms)
    case None => (None, AllContents(ms))
    case Some(k) => (Some(ms[k].content), AllContents(ms[..k] + ms[k + 1..]))
  }

  /** The loop computes the reference result. */
  lemma {:induction false} ScanIsFirstSystemRemoved(ms: seq<Message>)
    ensures Scan(ms) == Reference(ms)
  {
    if ms != [] {
      ScanIsFirstSystemRemoved(Init(ms));
      ReferenceSnoc(Init(ms), Last(ms));
      assert Init(ms) + [Last(ms)] == ms;
    }
  }

  /** How the reference result grows by one message. */
  lemma ReferenceSnoc(init: seq<Message>, m: Message)
    ensures Reference(init + [m]) ==
      var (instruction, contents) := Reference(init);
      if m.role == System && instruction.None? then (Some(m.content), contents)
      else (instruction, contents + [ToContent(m)])
  {
    var ms := init + [m];
    FirstSystemSnoc(init, m);
    match FirstSystem(init) {
      case None =>
        if m.role == System {
          assert ms[..|init|] + ms[|init| + 1..] == init;
        } else {
          AllContentsSnoc(init, m);
        }
      case Some(k) =>
        assert ms[k] == init[k];
        var rest := init[..k] + init[k + 1..];
        assert ms[..k] + ms[k + 1..] == rest + [m];
        AllContentsSnoc(rest, m);
    }
  }

  /** The first system message of a longer history. */
  lemma {:induction false} FirstSystemSnoc(init: seq<Message>, m: Message)
    ensures FirstSystem(init + [m]) == match FirstSystem(init) {
      case None => if m.role == System then Some(|init|) else None
      case Some(k) => Some(k)
    }
  {
    if init != [] {
      assert (init + [m])[1..] == init[1..] + [m];
      FirstSystemSnoc(init[1..], m);
    }
  }

  lemma AllContentsSnoc(ms: seq<Message>, m: Message)
    ensures AllContents(ms + [m]) == AllContents(ms) + [ToContent(m)]
  {
  }

  /** `contents` has one entry per message, less one when a system message
      supplies the instruction. */
  lemma ContentsLength(ms: seq<Message>)
    ensures |Scan(ms).1| == if exists i :: 0 <= i < |ms| && ms[i].role == System then |ms| - 1 else |ms|
  {
    ScanIsFirstSystemRemoved(ms);
  }

  /** The history is accepted exactly when its last entry comes from the user:
      the last message is a user message, or it is the first and only system
      message and the message before it is a user message. */
  lemma TranslateAcceptsIff(ms: seq<Message>)
    ensures Translate(ms).Ok? <==>
      && ms != []
      && (|| Last(ms).role == User
          || (&& Last(ms).role == System && FirstSystem(ms) == Some(|ms| - 1)
              && |ms| >= 2 && ms[|ms| - 2].role == User))
  {
    ScanIsFirstSystemRemoved(ms);
    if ms != [] {
      match FirstSystem(ms) {
        case None =>
          LastContent(ms);
        case Some(k) =>
          LastEntryWithInstruction(ms, k);
      }
    }
  }

  /** With the instruction taken from position `k`, the last entry is that
      of the last message, or of the one before it when the last message is
      the instruction. */
  lemma LastEntryWithInstruction(ms: seq<Message>, k: nat)
    requires k < |ms|
    ensures var entries := AllContents(ms[..k] + ms[k + 1..]);
      (entries != [] && Last(entries).role == UserTurn) <==>
      (|| (k < |ms| - 1 && Last(ms).role == User)
       || (k == |ms| - 1 && |ms| >= 2 && ms[|ms| - 2].role == User))
  {
    var rest := ms[..k] + ms[k + 1..];
    if k < |ms| - 1 {
      assert Last(rest) == Last(ms);
      LastContent(rest);
    } else {
      assert rest == Init(ms);
      if |ms| >= 2 {
        assert Last(rest) == ms[|ms| - 2];
        LastContent(rest);
      }
    }
  }

  lemma LastContent(ms: seq<Message>)
    requires ms != []
    ensures AllContents(ms) != [] && Last(AllContents(ms)) == ToContent(Last(ms))
  {
  }

  // ---------------------------------------------------------------------
  // _gemini_stream
  // ---------------------------------------------------------------------

  /** One step of iterating over the model's streamed response: a chunk
      whose `text` may be missing, or an exception with its message. The
      model's construction and the `generate_content` call raising are a
      `Raise` as the first step. */
  datatype Step = Chunk(text: Option<string>) | Raise(message: string)

  /** The position of the first exception, or the length if none. */
  function FirstRaise(steps: seq<Step>): (k: nat)
    ensures k <= |steps|
    ensures forall j :: 0 <= j < k ==> steps[j].Chunk?
    ensures k < |steps| ==> steps[k].Raise?
  {
    if steps == [] || steps[0].Raise? then 0 else FirstRaise(steps[1..]) + 1
  }

  /** The text a step contributes to `full_reply_parts`: a chunk's text
      when it is present and not empty. */
  function ChunkText(step: Step): Option<string> {
    match step
    case Chunk(Some(t)) => if t != "" then Some(t) else None
    case _ => None
  }

  /** The non-empty chunk texts, in order: `full_reply_parts`. */
  function ChunkTexts(steps: seq<Step>): seq<string> {
    FilterMap(ChunkText, steps)
  }

  /** No part of the reply is empty. */
  lemma ChunkTextsNonEmpty(steps: seq<Step>)
    ensures forall i :: 0 <= i < |ChunkTexts(steps)| ==> ChunkTexts(steps)[i] != ""
  {
    FilterMapMembers(ChunkText, steps);
    forall i | 0 <= i < |ChunkTexts(steps)| ensures ChunkTexts(steps)[i] != "" {
      assert ChunkTexts(steps)[i] in ChunkTexts(steps);
    }
  }

  /** One delta frame per text. */
  function DeltaFrames(texts: seq<string>): seq<Frame> {
    seq(|texts|, i requires 0 <= i < |texts| => DeltaFrame(texts[i]))
  }

  /** The frames `_gemini_stream(ms)` yields while the model's response runs
      through `steps`. */
  function StreamFrames(ms: seq<Message>, steps: seq<Step>): (frames: seq<Frame>)
    ensures frames != [] && Last(frames).done
    ensures forall i :: 0 <= i < |frames| - 1 ==>
      Truthy(frames[i].delta) && frames[i].reply.None? && frames[i].error.None? && !frames[i].done
  {
    match Translate(ms)
    case Err(message) => [ErrorFrame(message)]
    case Ok(_) =>
      var k := FirstRaise(steps);
      var texts := ChunkTexts(steps[..k]);
      ChunkTextsNonEmpty(steps[..k]);
      DeltaFrames(texts) + [if k < |steps| then ErrorFrame(steps[k].message) else ReplyFrame(Concat(texts))]
  }

  /** `_gemini_stream`, with the translation done first and the model's
      response given as `steps`. */
  method GeminiStream(ms: seq<Message>, steps: seq<Step>) returns (frames: seq<Frame>)
    ensures frames == StreamFrames(ms, steps)
  {
    var translated := TranslateForGemini(ms);
    if translated.Err? {
      return [ErrorFrame(translated.error)];
    }
    var parts: seq<string> := [];
    frames := [];
    var i := 0;
    while i < |steps|
      invariant 0 <= i <= FirstRaise(steps)
      invariant parts == ChunkTexts(steps[..i])
      invariant frames == DeltaFrames(parts)
    {
      assert Init(steps[..i + 1]) == steps[..i];
      match steps[i]
      case Raise(message) =>
        frames := frames + [ErrorFrame(message)];
        return;
      case Chunk(text) =>
        if text.Some? && text.value != "" {
          parts := parts + [text.value];
          frames := frames + [DeltaFrame(text.value)];
        }
      i := i + 1;
    }
    frames := frames + [ReplyFrame(Concat(parts))];
  }

  /** The stream ends in a reply frame exactly when the history was accepted
      and the model raised nothing; otherwise it ends in a single error
      frame, the only frame carrying an error. */
  lemma StreamEndsInReplyIff(ms: seq<Message>, steps: seq<Step>)
    ensures Last(StreamFrames(ms, steps)).reply.Some? <==>
      Translate(ms).Ok? && forall j :: 0 <= j < |steps| ==> steps[j].Chunk?
    ensures Last(StreamFrames(ms, steps)).reply.None? ==> Last(StreamFrames(ms, steps)).error.Some?
  {
    var k := FirstRaise(steps);
    if k < |steps| {
      assert steps[k].Raise?;
    }
  }

  /** Without an exception, the reply frame holds the concatenation of the
      deltas sent before it, and there is one delta per non-empty chunk. */
  lemma ReplyIsConcatenatedDeltas(ms: seq<Message>, steps: seq<Step>)
    requires Translate(ms).Ok? && forall j :: 0 <= j < |steps| ==> steps[j].Chunk?
    ensures var frames := StreamFrames(ms, steps);
      && |frames| == |ChunkTexts(steps)| + 1
      && (forall i :: 0 <= i < |frames| - 1 ==> frames[i].delta == Some(ChunkTexts(steps)[i]))
      && Last(frames).reply == Some(Concat(ChunkTexts(steps)))
  {
    assert FirstRaise(steps) == |steps|;
    assert steps[..|steps|] == steps;
  }
}
