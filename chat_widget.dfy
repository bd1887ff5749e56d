/**
 * The chat widget of static/chat.js as an object: the module-level
 * `conversation` array and the variables one `sendMessage` call works on
 * (`buffer`, `assistantText`, `errorMessage`), with `handleData`,
 * `processBuffer`, `flushBuffer`, `sendMessage` and the submit handler as
 * methods proved against the functions of ChatStream.
 */
module Widget {
  import opened Wrappers
  import opened Sequences
  import opened Text
  import opened Protocol
  import opened ChatStream

  class ChatWidget {
    /** `JSON.parse` on one line, where it succeeds with a frame. */
    const parse: string -> Option<Frame>
    var conversation: seq<Message>
    var buffer: string
    var assistantText: string
    var errorMessage: Option<string>

    function Reply(): ReplyState
      reads this
    {
      ReplyState(assistantText, errorMessage)
    }

    function State(): StreamState
      reads this
    {
      StreamState(buffer, Reply())
    }

    /** Between sends the conversation holds settled exchanges only. */
    ghost predicate Valid()
      reads this
    {
      SettledHistory(conversation)
    }

    constructor(parse: string -> Option<Frame>)
      ensures this.parse == parse
      ensures conversation == [] && State() == Start
      ensures Valid()
    {
      this.parse := parse;
      conversation := [];
      buffer := "";
      assistantText := "";
      errorMessage := None;
    }

    /** `handleData(data)`. */
    method HandleData(frame: Frame)
      modifies this`assistantText, this`errorMessage
      ensures Reply() == HandleFrame(old(Reply()), frame)
    {
      if Truthy(frame.delta) {
        assistantText := assistantText + frame.delta.value;
      }
      if Truthy(frame.reply) {
        assistantText := frame.reply.value;
      }
      if Truthy(frame.error) {
        errorMessage := frame.error;
      }
    }

    /** `processBuffer(text)`: append, split on newlines, keep the last
        piece as the buffer and handle the frame of every other piece. */
    method ProcessBuffer(text: string)
      modifies this`buffer, this`assistantText, this`errorMessage
      ensures State() == Feed(parse, old(State()), text)
    {
      buffer := buffer + text;
      var parts := SplitLines(buffer);
      buffer := Last(parts);
      parts := Init(parts);
      for i := 0 to |parts|
        invariant buffer == old(Feed(parse, State(), text)).buffer
        invariant Reply() == ApplyFrames(old(Reply()), LineFrames(parse, parts[..i]))
      {
        var part := parts[i];
        assert Init(parts[..i + 1]) == parts[..i] && Last(parts[..i + 1]) == part;
        if JsTrim(part) == "" {
          assert LineFrames(parse, parts[..i]) + [] == LineFrames(parse, parts[..i]);
          continue;
        }
        var parsed := parse(part);
        if parsed.None? {
          assert LineFrames(parse, parts[..i]) + [] == LineFrames(parse, parts[..i]);
          continue;
        }
        ApplyFramesSnoc(old(Reply()), LineFrames(parse, parts[..i]), parsed.value);
        HandleData(parsed.value);
      }
      assert parts[..|parts|] == parts;
    }

    /** `flushBuffer()`: handle the frame of a non-blank leftover, then
        empty the buffer. */
    method FlushBuffer()
      modifies this`buffer, this`assistantText, this`errorMessage
      ensures State() == Flush(parse, old(State()))
    {
      LineFramesSingle(parse, buffer);
      if JsTrim(buffer) == "" {
        buffer := "";
        return;
      }
      var parsed := parse(buffer);
      if parsed.Some? {
        ApplyFramesSnoc(Reply(), [], parsed.value);
        assert [] + [parsed.value] == [parsed.value];
        HandleData(parsed.value);
      }
      buffer := "";
    }

    /** The `try` block of `sendMessage`: the response is read to its end,
        or to the error that is caught. */
    method ReadResponse(response: Response)
      requires State() == Start
      modifies this`buffer, this`assistantText, this`errorMessage
      ensures State() == Cycle(parse, response)
    {
      match response {
        case FetchFailed(m) =>
          errorMessage := Some(ThrownMessage(m));
        case NotOk(payloadError, statusText) =>
          errorMessage := Some(ThrownMessage(StatusError(payloadError, statusText)));
        case NoBody =>
          errorMessage := Some(ThrownMessage(NoStreamingText));
        case Body(chunks, end) =>
          for i := 0 to |chunks|
            invariant State() == Receive(parse, Start, chunks[..i])
          {
            assert Init(chunks[..i + 1]) == chunks[..i] && Last(chunks[..i + 1]) == chunks[i];
            ProcessBuffer(chunks[i]);
          }
          assert chunks[..|chunks|] == chunks;
          match end {
            case Done(rest) =>
              ProcessBuffer(rest);
              FlushBuffer();
            case ReadFailed(m) =>
              errorMessage := Some(ThrownMessage(m));
          }
      }
    }

    /** The end of `sendMessage`: pop the question on an error or a blank
        reply, else push the reply. */
    method Conclude(ghost prior: seq<Message>, question: string) returns (outcome: Settlement)
      requires SettledHistory(prior) && !AllSpace(question, IsJsSpace)
      requires conversation == prior + [Message(User, question)]
      modifies this`conversation
      ensures Valid()
      ensures outcome == Settle(Reply())
      ensures outcome.Committed? ==> conversation == prior + [Message(User, question), Message(Assistant, outcome.reply)]
      ensures outcome.RolledBack? ==> conversation == prior
    {
      if errorMessage.Some? && errorMessage.value != "" {
        conversation := conversation[..|conversation| - 1];
        assert conversation == prior;
        return RolledBack(errorMessage.value);
      }
      if JsTrim(assistantText) == "" {
        conversation := conversation[..|conversation| - 1];
        assert conversation == prior;
        return RolledBack(NoReplyText);
      }
      StripEmptyIff(assistantText, IsJsSpace);
      CommitKeepsHistorySettled(prior, question, assistantText);
      conversation := conversation + [Message(Assistant, assistantText)];
      assert conversation == prior + [Message(User, question), Message(Assistant, assistantText)];
      outcome := Committed(assistantText);
    }

    /** `sendMessage(message)` against one response: the question is
        pushed and sent, the response is read to its end, and the exchange
        is committed or the question popped again. Only the submit handler
        calls it, with a question that is not blank. */
    method SendMessage(message: string, response: Response) returns (sent: seq<Message>, outcome: Settlement)
      requires Valid() && !AllSpace(message, IsJsSpace)
      modifies this
      ensures Valid()
      ensures sent == old(conversation) + [Message(User, message)]
      ensures State() == Cycle(parse, response)
      ensures outcome == Settle(Cycle(parse, response).reply)
      ensures outcome.Committed? ==> conversation == sent + [Message(Assistant, outcome.reply)]
      ensures outcome.RolledBack? ==> conversation == old(conversation)
    {
      ghost var prior := conversation;
      conversation := conversation + [Message(User, message)];
      sent := conversation;
      buffer := "";
      assistantText := "";
      errorMessage := None;
      ReadResponse(response);
      outcome := Conclude(prior, message);
    }

    /** The submit handler: a blank input is ignored; otherwise the trimmed
        input is sent. Either way the history stays settled. */
    method Submit(input: string, response: Response) returns (outcome: Option<Settlement>)
      requires Valid()
      modifies this
      ensures Valid()
      ensures JsTrim(input) == "" ==> outcome == None && conversation == old(conversation) && State() == old(State())
      ensures JsTrim(input) != "" ==> outcome == Some(Settle(Cycle(parse, response).reply))
      ensures JsTrim(input) != "" && outcome.value.Committed? ==>
        conversation == old(conversation) + [Message(User, JsTrim(input)), Message(Assistant, outcome.value.reply)]
      ensures JsTrim(input) != "" && outcome.value.RolledBack? ==> conversation == old(conversation)
    {
      var value := JsTrim(input);
      if value == "" {
        return None;
      }
      StrippedNotBlank(input, IsJsSpace);
      var sent, settled := SendMessage(value, response);
      outcome := Some(settled);
    }
  }
}
