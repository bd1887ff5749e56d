/**
 * The widget and the server together: the requests the widget posts are
 * accepted by the server with each content stripped, the frames the server writes decode on
 * the widget into the reply the model produced, however the stream is cut
 * into chunks, and an error frame rolls the exchange back.
 */
module EndToEnd {
  import opened Wrappers
  import opened Sequences
  import opened Text
  import opened Protocol
  import opened Server
  import opened ChatStream

  // ---------------------------------------------------------------------
  // The request
  // ---------------------------------------------------------------------

  /** The history as the server normalises it: each content stripped. */
  function Stripped(conversation: seq<Message>): seq<Message> {
    seq(|conversation|, i requires 0 <= i < |conversation| =>
      Message(conversation[i].role, PyStrip(conversation[i].content)))
  }

  /** The items of the posted `messages` list. */
  function RequestItems(conversation: seq<Message>): seq<Json> {
    RequestPayload(conversation)["messages"].elems
  }

  /** A message the widget serialises is kept by the server, stripped,
      when its content is not blank to Python. */
  lemma MessageJsonIsClean(m: Message)
    requires !AllSpace(m.content, IsPySpace)
    ensures CleanItem(MessageJson(m)) == Some(Message(m.role, PyStrip(m.content)))
    ensures !RaisesOnItem(MessageJson(m))
  {
    CleanItemIff(MessageJson(m), Message(m.role, PyStrip(m.content)));
  }

  /** Posting one more message appends one more item. */
  lemma RequestItemsSnoc(init: seq<Message>, m: Message)
    ensures RequestItems(init + [m]) == RequestItems(init) + [MessageJson(m)]
  {
    assert |RequestItems(init + [m])| == |init| + 1;
  }

  /** Stripping one more message appends one more stripped message. */
  lemma StrippedSnoc(init: seq<Message>, m: Message)
    ensures Stripped(init + [m]) == Stripped(init) + [Message(m.role, PyStrip(m.content))]
  {
    assert |Stripped(init + [m])| == |init| + 1;
  }

  /** An item that does not raise, after items none of which raise. */
  lemma NoneRaisesSnoc(items: seq<Json>, item: Json)
    requires !AnyRaises(items) && !RaisesOnItem(item)
    ensures !AnyRaises(items + [item])
  {
    forall i | 0 <= i < |items| + 1
      ensures !RaisesOnItem((items + [item])[i])
    {
      if i < |items| {
        assert (items + [item])[i] == items[i];
      }
    }
  }

  /** Every posted item is kept, in order, and none makes the server raise. */
  lemma {:induction false} RequestItemsAreClean(conversation: seq<Message>)
    requires forall i :: 0 <= i < |conversation| ==> !AllSpace(conversation[i].content, IsPySpace)
    ensures Cleaned(RequestItems(conversation)) == Stripped(conversation)
    ensures !AnyRaises(RequestItems(conversation))
  {
    if conversation != [] {
      var init := Init(conversation);
      var m := Last(conversation);
      InitLast(conversation);
      assert forall i :: 0 <= i < |init| ==> init[i] == conversation[i];
      RequestItemsAreClean(init);
      RequestItemsSnoc(init, m);
      StrippedSnoc(init, m);
      MessageJsonIsClean(m);
      FilterMapAppend(CleanItem, RequestItems(init), [MessageJson(m)]);
      FilterMapSingle(CleanItem, MessageJson(m));
      NoneRaisesSnoc(RequestItems(init), MessageJson(m));
    }
  }

  /** The history the widget posts after a new question is accepted as
      sent, contents stripped, by the server as written and as intended,
      and it translates: it ends with the user's question. */
  lemma ClientRequestAccepted(conversation: seq<Message>, question: string)
    requires forall i :: 0 <= i < |conversation| ==> !AllSpace(conversation[i].content, IsPySpace)
    requires !AllSpace(question, IsPySpace)
    ensures var sent := conversation + [Message(User, question)];
      && BuildSpec(RequestPayload(sent)) == Ok(Stripped(sent))
      && BuildIntended(RequestPayload(sent)) == Ok(Stripped(sent))
      && Translate(Stripped(sent)).Ok?
  {
    var sent := conversation + [Message(User, question)];
    forall i | 0 <= i < |sent|
      ensures !AllSpace(sent[i].content, IsPySpace)
    {
      if i < |conversation| {
        assert sent[i] == conversation[i];
      }
    }
    RequestItemsAreClean(sent);
    assert |Stripped(sent)| == |sent|;
    assert Get(RequestPayload(sent), "messages") == Some(Array(RequestItems(sent)));
    assert Last(Stripped(sent)).role == User;
    TranslateAcceptsIff(Stripped(sent));
  }

  /** The two whitespace sets differ: U+001C is not blank to the widget's
      `trim` but is to the server's `strip`, and U+FEFF the other way round,
      so a question of U+001C alone is sent and then dropped by the server. */
  lemma WhitespaceSetsDiffer()
    ensures JsTrim("\U{1C}") != "" && PyStrip("\U{1C}") == ""
    ensures JsTrim("\U{FEFF}") == "" && PyStrip("\U{FEFF}") != ""
  {
    StripEmptyIff("\U{1C}", IsJsSpace);
    StripEmptyIff("\U{1C}", IsPySpace);
    StripEmptyIff("\U{FEFF}", IsJsSpace);
    StripEmptyIff("\U{FEFF}", IsPySpace);
    assert "\U{1C}"[0] == '\U{1C}';
    assert "\U{FEFF}"[0] == '\U{FEFF}';
  }

  // ---------------------------------------------------------------------
  // The frames
  // ---------------------------------------------------------------------

  /** Delta frames fold to their texts appended in order; an empty delta
      adds nothing, as it adds nothing to the concatenation. */
  lemma {:induction false} DeltasAccumulate(s: ReplyState, texts: seq<string>)
    ensures ApplyFrames(s, DeltaFrames(texts)) == ReplyState(s.text + Concat(texts), s.error)
  {
    if texts == [] {
      assert s.text + "" == s.text;
    } else {
      var init := Init(texts);
      var t := Last(texts);
      DeltasAccumulate(s, init);
      assert DeltaFrames(texts) == DeltaFrames(init) + [DeltaFrame(t)];
      ApplyFramesSnoc(s, DeltaFrames(init), DeltaFrame(t));
      assert Concat(texts) == Concat(init) + t;
      assert s.text + Concat(init) + t == s.text + Concat(texts);
      if t == "" {
        assert Concat(init) + t == Concat(init);
      }
    }
  }

  /** Deltas `"Hel"` then `"lo"` build the text `"Hello"`. */
  lemma DeltasInOrderExample()
    ensures ApplyFrames(Fresh, [DeltaFrame("Hel"), DeltaFrame("lo")]).text == "Hello"
  {
    var texts := ["Hel", "lo"];
    assert DeltaFrames(texts) == [DeltaFrame("Hel"), DeltaFrame("lo")];
    DeltasAccumulate(Fresh, texts);
    ConcatPair("Hel", "lo");
    assert "" + ("Hel" + "lo") == "Hello";
  }

  /** A reply `"Final"` after deltas discards them. */
  lemma ReplyAfterDeltasExample(texts: seq<string>)
    ensures ApplyFrames(Fresh, DeltaFrames(texts) + [ReplyFrame("Final")]).text == "Final"
  {
    ReplyDiscardsEarlierText(Fresh, DeltaFrames(texts), ReplyFrame("Final"));
  }

  /** Folding the server's frames through `handleData` yields the model's
      whole reply, the concatenation of its non-empty chunk texts, with no
      error. */
  lemma ClientFoldsServerReply(ms: seq<Message>, steps: seq<Step>)
    requires Translate(ms).Ok? && forall j :: 0 <= j < |steps| ==> steps[j].Chunk?
    ensures ApplyFrames(Fresh, StreamFrames(ms, steps)) == ReplyState(Concat(ChunkTexts(steps)), None)
  {
    var texts := ChunkTexts(steps);
    assert FirstRaise(steps) == |steps|;
    assert steps[..|steps|] == steps;
    assert StreamFrames(ms, steps) == DeltaFrames(texts) + [ReplyFrame(Concat(texts))];
    DeltasAccumulate(Fresh, texts);
    ApplyFramesSnoc(Fresh, DeltaFrames(texts), ReplyFrame(Concat(texts)));
    assert "" + Concat(texts) == Concat(texts);
  }

  /** When the history is refused the widget records the refusal; when the
      model raises, it keeps the text streamed so far and records the
      exception's message, unless that message is empty. */
  lemma ClientSeesServerFailure(ms: seq<Message>, steps: seq<Step>)
    ensures Translate(ms).Err? ==>
      ApplyFrames(Fresh, StreamFrames(ms, steps)) == ReplyState("", Some(Translate(ms).error))
    ensures Translate(ms).Ok? && FirstRaise(steps) < |steps| ==>
      var k := FirstRaise(steps);
      var m := steps[k].message;
      ApplyFrames(Fresh, StreamFrames(ms, steps))
        == ReplyState(Concat(ChunkTexts(steps[..k])), if m != "" then Some(m) else None)
  {
    match Translate(ms) {
      case Err(e) =>
        ApplyOneFrame(Fresh, ErrorFrame(e));
      case Ok(_) =>
        var k := FirstRaise(steps);
        if k < |steps| {
          var texts := ChunkTexts(steps[..k]);
          var m := steps[k].message;
          assert StreamFrames(ms, steps) == DeltaFrames(texts) + [ErrorFrame(m)];
          DeltasAccumulate(Fresh, texts);
          ApplyFramesSnoc(Fresh, DeltaFrames(texts), ErrorFrame(m));
          assert "" + Concat(texts) == Concat(texts);
        }
    }
  }

  // ---------------------------------------------------------------------
  // The wire
  // ---------------------------------------------------------------------

  /** The line `json.dumps` writes for each frame. */
  function Encoded(encode: Frame -> string, frames: seq<Frame>): seq<string> {
    seq(|frames|, i requires 0 <= i < |frames| => encode(frames[i]))
  }

  /** The body the server streams: every frame's line followed by `"\n"`. */
  function Wire(encode: Frame -> string, frames: seq<Frame>): string {
    Terminated(Encoded(encode, frames))
  }

  /** What the formats promise of each of these frames: its line has no
      newline, is not blank, and `JSON.parse` gives the frame back. */
  predicate Decodable(parse: string -> Option<Frame>, encode: Frame -> string, frames: seq<Frame>) {
    forall i :: 0 <= i < |frames| ==>
      && parse(encode(frames[i])) == Some(frames[i])
      && '\n' !in encode(frames[i])
      && !AllSpace(encode(frames[i]), IsJsSpace)
  }

  /** The lines of decodable frames yield those frames, in order. */
  lemma {:induction false} EncodedLinesDecode(parse: string -> Option<Frame>, encode: Frame -> string, frames: seq<Frame>)
    requires Decodable(parse, encode, frames)
    ensures LineFrames(parse, Encoded(encode, frames)) == frames
  {
    if frames != [] {
      var init := Init(frames);
      var f := Last(frames);
      assert Decodable(parse, encode, init) by {
        forall i | 0 <= i < |init|
          ensures parse(encode(init[i])) == Some(init[i])
          ensures '\n' !in encode(init[i]) && !AllSpace(encode(init[i]), IsJsSpace)
        {
          assert init[i] == frames[i];
        }
      }
      EncodedLinesDecode(parse, encode, init);
      assert Encoded(encode, frames) == Encoded(encode, init) + [encode(f)];
      LineFramesAppend(parse, Encoded(encode, init), [encode(f)]);
      LineFramesOne(parse, encode(f));
      InitLast(frames);
    }
  }

  /** However the server's body is cut into chunks, and whatever the final
      decode leaves over, the widget applies exactly the server's frames. */
  lemma WireDecodes(parse: string -> Option<Frame>, encode: Frame -> string, frames: seq<Frame>,
                    chunks: seq<string>, rest: string)
    requires Decodable(parse, encode, frames)
    requires Concat(chunks) + rest == Wire(encode, frames)
    ensures Cycle(parse, Body(chunks, Done(rest))).reply == ApplyFrames(Fresh, frames)
  {
    var lines := Encoded(encode, frames);
    CycleReadsWholeBody(parse, chunks, rest);
    assert forall k :: 0 <= k < |lines| ==> '\n' !in lines[k];
    SplitTerminated(lines);
    LineFramesAppend(parse, lines, [""]);
    LineFramesOne(parse, "");
    EncodedLinesDecode(parse, encode, frames);
    assert frames + [] == frames;
  }

  /** A model reply streamed over the wire in any chunks is committed as
      the whole reply, unless it is blank, when the exchange is rolled back. */
  lemma StreamedReplySettles(parse: string -> Option<Frame>, encode: Frame -> string,
                             ms: seq<Message>, steps: seq<Step>, chunks: seq<string>, rest: string)
    requires Translate(ms).Ok? && forall j :: 0 <= j < |steps| ==> steps[j].Chunk?
    requires Decodable(parse, encode, StreamFrames(ms, steps))
    requires Concat(chunks) + rest == Wire(encode, StreamFrames(ms, steps))
    ensures var reply := Concat(ChunkTexts(steps));
      Settle(Cycle(parse, Body(chunks, Done(rest))).reply)
        == if AllSpace(reply, IsJsSpace) then RolledBack(NoReplyText) else Committed(reply)
  {
    WireDecodes(parse, encode, StreamFrames(ms, steps), chunks, rest);
    ClientFoldsServerReply(ms, steps);
    SettleCommitsIff(ReplyState(Concat(ChunkTexts(steps)), None));
  }

  /** A failure on the server streamed over the wire rolls the exchange back
      with the server's message when that message is not empty; an
      exception with an empty message leaves the text streamed so far to be
      settled as if it were the whole reply. */
  lemma StreamedFailureSettles(parse: string -> Option<Frame>, encode: Frame -> string,
                               ms: seq<Message>, steps: seq<Step>, chunks: seq<string>, rest: string)
    requires Translate(ms).Err? || FirstRaise(steps) < |steps|
    requires Decodable(parse, encode, StreamFrames(ms, steps))
    requires Concat(chunks) + rest == Wire(encode, StreamFrames(ms, steps))
    ensures Translate(ms).Err? ==>
      Settle(Cycle(parse, Body(chunks, Done(rest))).reply) == RolledBack(Translate(ms).error)
    ensures Translate(ms).Ok? && steps[FirstRaise(steps)].message != "" ==>
      Settle(Cycle(parse, Body(chunks, Done(rest))).reply) == RolledBack(steps[FirstRaise(steps)].message)
    ensures Translate(ms).Ok? && steps[FirstRaise(steps)].message == "" ==>
      Settle(Cycle(parse, Body(chunks, Done(rest))).reply)
        == Settle(ReplyState(Concat(ChunkTexts(steps[..FirstRaise(steps)])), None))
  {
    WireDecodes(parse, encode, StreamFrames(ms, steps), chunks, rest);
    ClientSeesServerFailure(ms, steps);
  }
}
