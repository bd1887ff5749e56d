/**
 * What the browser widget (static/chat.js) does with one reply stream,
 * stated as functions: how a frame changes the reply being built
 * (`handleData`), how text chunks become frames (`processBuffer`,
 * `flushBuffer`), how one request/response cycle ends, and how the
 * conversation is settled. The class in ChatWidget is proved against
 * these definitions.
 */
module ChatStream {
  import opened Wrappers
  import opened Sequences
  import opened Text
  import opened Protocol

  // ---------------------------------------------------------------------
  // handleData
  // ---------------------------------------------------------------------

  /** `assistantText` and `errorMessage` while a reply is being built. */
  datatype ReplyState = ReplyState(text: string, error: Option<string>)

  /** Both start empty for each cycle. */
  const Fresh := ReplyState("", None)

  /** `handleData(frame)`: the delta is appended, then the reply replaces the
      text, then the error is recorded; an empty string counts as absent. */
  function HandleFrame(s: ReplyState, f: Frame): (r: ReplyState)
    ensures Truthy(f.reply) ==> r.text == f.reply.value
    ensures !Truthy(f.reply) && Truthy(f.delta) ==> r.text == s.text + f.delta.value
    ensures !Truthy(f.reply) && !Truthy(f.delta) ==> r.text == s.text
    ensures r.error == if Truthy(f.error) then f.error else s.error
  {
    var afterDelta := if Truthy(f.delta) then s.text + f.delta.value else s.text;
    var afterReply := if Truthy(f.reply) then f.reply.value else afterDelta;
    ReplyState(afterReply, if Truthy(f.error) then f.error else s.error)
  }

  /** The frames applied one after another, in arrival order. */
  function ApplyFrames(s: ReplyState, frames: seq<Frame>): ReplyState {
    if frames == [] then s else HandleFrame(ApplyFrames(s, Init(frames)), Last(frames))
  }

  /** Applying two runs of frames is applying their concatenation. */
  lemma {:induction false} ApplyFramesAppend(s: ReplyState, a: seq<Frame>, b: seq<Frame>)
    ensures ApplyFrames(s, a + b) == ApplyFrames(ApplyFrames(s, a), b)
  {
    if b == [] {
      assert a + b == a;
    } else {
      ApplyFramesAppend(s, a, Init(b));
      assert Init(a + b) == a + Init(b);
    }
  }

  /** Applying a single frame is handling it. */
  lemma ApplyOneFrame(s: ReplyState, f: Frame)
    ensures ApplyFrames(s, [f]) == HandleFrame(s, f)
  {
    InitLastSnoc([], f);
    assert [] + [f] == [f];
  }

  /** Applying one more frame is handling it after the others. */
  lemma ApplyFramesSnoc(s: ReplyState, frames: seq<Frame>, f: Frame)
    ensures ApplyFrames(s, frames + [f]) == HandleFrame(ApplyFrames(s, frames), f)
  {
    InitLastSnoc(frames, f);
  }

  /** A recorded error does not stop the stream being drained: the text is
      built the same whatever error was recorded before. */
  lemma {:induction false} ErrorDoesNotStopDraining(s: ReplyState, t: ReplyState, frames: seq<Frame>)
    requires s.text == t.text
    ensures ApplyFrames(s, frames).text == ApplyFrames(t, frames).text
  {
    if frames != [] {
      ErrorDoesNotStopDraining(s, t, Init(frames));
    }
  }

  /** The last non-empty error wins; without one the error is unchanged. */
  lemma {:induction false} LastErrorWins(s: ReplyState, frames: seq<Frame>, k: nat)
    requires k < |frames| && Truthy(frames[k].error)
    requires forall j :: k < j < |frames| ==> !Truthy(frames[j].error)
    ensures ApplyFrames(s, frames).error == frames[k].error
  {
    if k < |frames| - 1 {
      LastErrorWins(s, Init(frames), k);
    }
  }

  lemma {:induction false} NoErrorKeepsError(s: ReplyState, frames: seq<Frame>)
    requires forall j :: 0 <= j < |frames| ==> !Truthy(frames[j].error)
    ensures ApplyFrames(s, frames).error == s.error
  {
    if frames != [] {
      NoErrorKeepsError(s, Init(frames));
    }
  }

  /** A non-empty reply discards whatever text was built before it. */
  lemma ReplyDiscardsEarlierText(s: ReplyState, frames: seq<Frame>, f: Frame)
    requires Truthy(f.reply)
    ensures ApplyFrames(s, frames + [f]).text == f.reply.value
  {
    assert Init(frames + [f]) == frames;
  }

  // ---------------------------------------------------------------------
  // processBuffer and flushBuffer
  // ---------------------------------------------------------------------

  /** The frames a line yields: none for a blank line (`!part.trim()`) or
      one that does not parse, else the one `JSON.parse` returns. */
  function LineFrame(parse: string -> Option<Frame>, line: string): seq<Frame> {
    if JsTrim(line) == "" || parse(line).None? then [] else [parse(line).value]
  }

  /** The frames a run of lines yields, in order. */
  function LineFrames(parse: string -> Option<Frame>, lines: seq<string>): seq<Frame> {
    if lines == [] then [] else LineFrames(parse, Init(lines)) + LineFrame(parse, Last(lines))
  }

  /** The frames of two runs of lines are the frames of their concatenation. */
  lemma {:induction false} LineFramesAppend(parse: string -> Option<Frame>, a: seq<string>, b: seq<string>)
    ensures LineFrames(parse, a + b) == LineFrames(parse, a) + LineFrames(parse, b)
  {
    if b == [] {
      assert a + b == a;
    } else {
      LineFramesAppend(parse, a, Init(b));
      InitLastAppend(a, b);
    }
  }

  /** A run of one line yields that line's frames. */
  lemma LineFramesSingle(parse: string -> Option<Frame>, line: string)
    ensures LineFrames(parse, [line]) == LineFrame(parse, line)
  {
    InitLastSnoc([], line);
    assert [] + [line] == [line];
  }

  /** One line yields its parsed frame unless it is blank or does not parse. */
  lemma LineFramesOne(parse: string -> Option<Frame>, line: string)
    ensures AllSpace(line, IsJsSpace) || parse(line).None? ==> LineFrames(parse, [line]) == []
    ensures !AllSpace(line, IsJsSpace) && parse(line).Some? ==> LineFrames(parse, [line]) == [parse(line).value]
  {
    StripEmptyIff(line, IsJsSpace);
    LineFramesSingle(parse, line);
  }

  /** A line in the middle of a run contributes its own frames at its place. */
  lemma LineFramesAround(parse: string -> Option<Frame>, a: seq<string>, line: string, b: seq<string>)
    ensures LineFrames(parse, a + [line] + b) == LineFrames(parse, a) + LineFrames(parse, [line]) + LineFrames(parse, b)
  {
    LineFramesAppend(parse, a + [line], b);
    LineFramesAppend(parse, a, [line]);
  }

  /** A blank line or one that fails to parse yields no frame, and the lines
      around it yield theirs in order; any other line yields exactly its
      parsed frame at its place. */
  lemma LineInContext(parse: string -> Option<Frame>, a: seq<string>, line: string, b: seq<string>)
    ensures AllSpace(line, IsJsSpace) || parse(line).None? ==>
      LineFrames(parse, a + [line] + b) == LineFrames(parse, a) + LineFrames(parse, b)
    ensures !AllSpace(line, IsJsSpace) && parse(line).Some? ==>
      LineFrames(parse, a + [line] + b) == LineFrames(parse, a) + [parse(line).value] + LineFrames(parse, b)
  {
    LineFramesOne(parse, line);
    LineFramesAround(parse, a, line, b);
    if AllSpace(line, IsJsSpace) || parse(line).None? {
      assert LineFrames(parse, a) + [] == LineFrames(parse, a);
    }
  }

  /** The decoder's state between chunks: the unterminated tail `buffer`
      and the reply built so far. */
  datatype StreamState = StreamState(buffer: string, reply: ReplyState)

  /** The state at the start of a cycle. */
  const Start := StreamState("", Fresh)

  /** The frames `processBuffer(text)` applies: those of the complete lines
      of `buffer + text`. */
  function FedFrames(parse: string -> Option<Frame>, buffer: string, text: string): seq<Frame> {
    LineFrames(parse, Init(SplitLines(buffer + text)))
  }

  /** `processBuffer(text)`. */
  function Feed(parse: string -> Option<Frame>, s: StreamState, text: string): StreamState {
    StreamState(Last(SplitLines(s.buffer + text)), ApplyFrames(s.reply, FedFrames(parse, s.buffer, text)))
  }

  /** `flushBuffer()`. */
  function Flush(parse: string -> Option<Frame>, s: StreamState): StreamState {
    StreamState("", ApplyFrames(s.reply, LineFrames(parse, [s.buffer])))
  }

  /** `processBuffer` on each chunk in turn. */
  function Receive(parse: string -> Option<Frame>, s: StreamState, chunks: seq<string>): StreamState {
    if chunks == [] then s else Feed(parse, Receive(parse, s, Init(chunks)), Last(chunks))
  }

  /** Blank lines yield no frame. */
  lemma {:induction false} BlankLinesYieldNothing(parse: string -> Option<Frame>, lines: seq<string>)
    requires forall k :: 0 <= k < |lines| ==> AllSpace(lines[k], IsJsSpace)
    ensures LineFrames(parse, lines) == []
  {
    if lines != [] {
      assert forall k :: 0 <= k < |Init(lines)| ==> Init(lines)[k] == lines[k];
      BlankLinesYieldNothing(parse, Init(lines));
      StripEmptyIff(Last(lines), IsJsSpace);
    }
  }

  /** A chunk of whitespace and newlines, fed while the buffer is blank,
      applies no frame. */
  lemma BlankFeedAppliesNothing(parse: string -> Option<Frame>, s: StreamState, text: string)
    requires AllSpace(s.buffer + text, IsJsSpace)
    ensures Feed(parse, s, text).reply == s.reply
  {
    var parts := SplitLines(s.buffer + text);
    SplitPiecesOfBlank(s.buffer + text, IsJsSpace);
    assert forall k :: 0 <= k < |Init(parts)| ==> Init(parts)[k] == parts[k];
    BlankLinesYieldNothing(parse, Init(parts));
  }

  /** After `processBuffer(text)` the buffer holds no newline, and the
      complete lines, each followed by its newline, then the new buffer,
      spell out the old buffer followed by `text`. */
  lemma FeedKeepsUnterminatedTail(parse: string -> Option<Frame>, s: StreamState, text: string)
    ensures '\n' !in Feed(parse, s, text).buffer
    ensures Terminated(Init(SplitLines(s.buffer + text))) + Feed(parse, s, text).buffer == s.buffer + text
    ensures Feed(parse, s, text).reply
         == ApplyFrames(s.reply, LineFrames(parse, Init(SplitLines(s.buffer + text))))
  {
    SplitRejoins(s.buffer + text);
    SplitPiecesHaveNoNewline(s.buffer + text);
    assert Last(SplitLines(s.buffer + text)) == SplitLines(s.buffer + text)[|SplitLines(s.buffer + text)| - 1];
  }

  /** Chunk boundaries do not matter: feeding `a` then `b` applies, in
      order, the same frames as feeding `a + b` at once, and leaves the same
      buffer. */
  lemma FeedChunkBoundary(parse: string -> Option<Frame>, buffer: string, a: string, b: string)
    ensures var tail := Last(SplitLines(buffer + a));
      && FedFrames(parse, buffer, a) + FedFrames(parse, tail, b) == FedFrames(parse, buffer, a + b)
      && Last(SplitLines(tail + b)) == Last(SplitLines(buffer + (a + b)))
  {
    SplitCarry(buffer, a, b);
    LineFramesAppend(parse, Init(SplitLines(buffer + a)), Init(SplitLines(Last(SplitLines(buffer + a)) + b)));
  }

  /** Hence feeding two chunks is feeding their concatenation. */
  lemma FeedTwice(parse: string -> Option<Frame>, s: StreamState, a: string, b: string)
    ensures Feed(parse, Feed(parse, s, a), b) == Feed(parse, s, a + b)
  {
    var tail := Last(SplitLines(s.buffer + a));
    var first := FedFrames(parse, s.buffer, a);
    var second := FedFrames(parse, tail, b);
    FeedChunkBoundary(parse, s.buffer, a, b);
    ApplyFramesAppend(s.reply, first, second);
    assert Feed(parse, s, a) == StreamState(tail, ApplyFrames(s.reply, first));
  }

  /** Feeding nothing to a newline-free buffer changes nothing. */
  lemma FeedEmpty(parse: string -> Option<Frame>, s: StreamState)
    requires '\n' !in s.buffer
    ensures Feed(parse, s, "") == s
  {
    assert s.buffer + "" == s.buffer;
    SplitNoNewline(s.buffer);
  }

  /** However the stream is cut into chunks, the result is that of feeding
      the whole text at once. */
  lemma {:induction false} ReceiveIsFeedOfWhole(parse: string -> Option<Frame>, s: StreamState, chunks: seq<string>)
    requires '\n' !in s.buffer
    ensures Receive(parse, s, chunks) == Feed(parse, s, Concat(chunks))
  {
    if chunks == [] {
      FeedEmpty(parse, s);
    } else {
      ReceiveIsFeedOfWhole(parse, s, Init(chunks));
      FeedTwice(parse, s, Concat(Init(chunks)), Last(chunks));
    }
  }

  /** `flushBuffer()` always empties the buffer and applies at most one frame:
      none when the buffer is blank or does not parse, else the parsed one. */
  lemma FlushAppliesAtMostOne(parse: string -> Option<Frame>, s: StreamState)
    ensures Flush(parse, s).buffer == ""
    ensures AllSpace(s.buffer, IsJsSpace) || parse(s.buffer).None? ==> Flush(parse, s).reply == s.reply
    ensures !AllSpace(s.buffer, IsJsSpace) && parse(s.buffer).Some? ==>
      Flush(parse, s).reply == HandleFrame(s.reply, parse(s.buffer).value)
  {
    LineFramesOne(parse, s.buffer);
    if !AllSpace(s.buffer, IsJsSpace) && parse(s.buffer).Some? {
      ApplyOneFrame(s.reply, parse(s.buffer).value);
    }
  }

  /** A whole stream, fed in any chunks and then flushed, applies the frames
      of every newline-separated piece of its text, the unterminated last
      piece included. */
  lemma DecodeWholeStream(parse: string -> Option<Frame>, r: ReplyState, chunks: seq<string>)
    ensures Flush(parse, Receive(parse, StreamState("", r), chunks)).reply
         == ApplyFrames(r, LineFrames(parse, SplitLines(Concat(chunks))))
  {
    var text := Concat(chunks);
    ReceiveIsFeedOfWhole(parse, StreamState("", r), chunks);
    var parts := SplitLines("" + text);
    assert "" + text == text;
    LineFramesAppend(parse, Init(parts), [Last(parts)]);
    InitLast(parts);
    ApplyFramesAppend(r, LineFrames(parse, Init(parts)), LineFrames(parse, [Last(parts)]));
  }

  // ---------------------------------------------------------------------
  // One cycle of sendMessage
  // ---------------------------------------------------------------------

  /** JavaScript `a || b` on strings. */
  function OrElse(a: string, b: string): string {
    if a != "" then a else b
  }

  const GenericFailureText := "Something went wrong."
  const UnexpectedErrorText := "Unexpected error."
  const NoStreamingText := "Streaming is not supported in this browser."
  const NoReplyText := "No reply returned from the assistant."

  /** `payload?.error || response.statusText || "Something went wrong."` */
  function StatusError(payloadError: Option<string>, statusText: string): string {
    OrElse(OrElse(if payloadError.Some? then payloadError.value else "", statusText), GenericFailureText)
  }

  /** `err.message || "Unexpected error."` */
  function ThrownMessage(message: string): string {
    OrElse(message, UnexpectedErrorText)
  }

  /** A failed status is reported with the server's error when it gave one,
      else the status text, else a generic message; never as empty. */
  lemma StatusErrorChoice(payloadError: Option<string>, statusText: string)
    ensures Truthy(payloadError) ==> StatusError(payloadError, statusText) == payloadError.value
    ensures !Truthy(payloadError) && statusText != "" ==> StatusError(payloadError, statusText) == statusText
    ensures !Truthy(payloadError) && statusText == "" ==> StatusError(payloadError, statusText) == GenericFailureText
    ensures ThrownMessage(StatusError(payloadError, statusText)) == StatusError(payloadError, statusText)
  {
  }

  /** How the stream ended: closed, leaving what the final `decode()` call
      returned, or a read that failed with an error message. */
  datatype StreamEnd = Done(rest: string) | ReadFailed(message: string)

  /** What `fetch` produced: a rejection with an error message, a non-OK
      status with the `error` member of its JSON body (if it had a string
      one) and its status text, an OK reply without a body, or an OK reply
      whose body was read as these chunks of decoded text. */
  datatype Response =
    | FetchFailed(message: string)
    | NotOk(payloadError: Option<string>, statusText: string)
    | NoBody
    | Body(chunks: seq<string>, end: StreamEnd)

  /** The decoder state when the `try` block of `sendMessage` is left. */
  function Cycle(parse: string -> Option<Frame>, response: Response): StreamState {
    match response
    case FetchFailed(m) => StreamState("", ReplyState("", Some(ThrownMessage(m))))
    case NotOk(payloadError, statusText) =>
      StreamState("", ReplyState("", Some(ThrownMessage(StatusError(payloadError, statusText)))))
    case NoBody => StreamState("", ReplyState("", Some(ThrownMessage(NoStreamingText))))
    case Body(chunks, Done(rest)) => Flush(parse, Feed(parse, Receive(parse, Start, chunks), rest))
    case Body(chunks, ReadFailed(m)) =>
      var s := Receive(parse, Start, chunks);
      StreamState(s.buffer, ReplyState(s.reply.text, Some(ThrownMessage(m))))
  }

  /** How a cycle settles: the assistant's text is committed, or the
      exchange is rolled back with the notice shown in place of a reply. */
  datatype Settlement = Committed(reply: string) | RolledBack(notice: string)

  /** The end of `sendMessage`. */
  function Settle(r: ReplyState): Settlement {
    if Truthy(r.error) then RolledBack(r.error.value)
    else if JsTrim(r.text) == "" then RolledBack(NoReplyText)
    else Committed(r.text)
  }

  /** A cycle commits exactly when no error was recorded and the text is not
      blank, and then it commits that text; an error takes precedence over
      an empty reply. */
  lemma SettleCommitsIff(r: ReplyState)
    ensures Settle(r).Committed? <==> !Truthy(r.error) && !AllSpace(r.text, IsJsSpace)
    ensures Settle(r).Committed? ==> Settle(r).reply == r.text
    ensures Truthy(r.error) ==> Settle(r) == RolledBack(r.error.value)
    ensures !Truthy(r.error) && AllSpace(r.text, IsJsSpace) ==> Settle(r) == RolledBack(NoReplyText)
  {
    StripEmptyIff(r.text, IsJsSpace);
  }

  /** A thrown error is reported with its message, or with the generic
      text when the message is empty; never as empty. */
  lemma ThrownMessageChoice(message: string)
    ensures message != "" ==> ThrownMessage(message) == message
    ensures message == "" ==> ThrownMessage(message) == UnexpectedErrorText
    ensures ThrownMessage(message) != ""
  {
  }

  /** Every failure outside the stream rolls the exchange back: a failed
      fetch or a failed read with the thrown error's notice, a failed status
      with the status choice, a missing body with the streaming notice; the
      notice is never empty. */
  lemma TransportFailureRollsBack(parse: string -> Option<Frame>, response: Response)
    requires !response.Body? || response.end.ReadFailed?
    ensures response.FetchFailed? ==>
      Settle(Cycle(parse, response).reply) == RolledBack(ThrownMessage(response.message))
    ensures response.NotOk? ==>
      Settle(Cycle(parse, response).reply) == RolledBack(StatusError(response.payloadError, response.statusText))
    ensures response.NoBody? ==> Settle(Cycle(parse, response).reply) == RolledBack(NoStreamingText)
    ensures response.Body? ==>
      Settle(Cycle(parse, response).reply) == RolledBack(ThrownMessage(response.end.message))
    ensures Settle(Cycle(parse, response).reply).notice != ""
  {
    if response.NotOk? {
      StatusErrorChoice(response.payloadError, response.statusText);
    }
  }

  /** A body that is read to its end applies the frames of every piece of
      its whole text, however it was cut into chunks. */
  lemma CycleReadsWholeBody(parse: string -> Option<Frame>, chunks: seq<string>, rest: string)
    ensures Cycle(parse, Body(chunks, Done(rest))).buffer == ""
    ensures Cycle(parse, Body(chunks, Done(rest))).reply
         == ApplyFrames(Fresh, LineFrames(parse, SplitLines(Concat(chunks) + rest)))
  {
    var whole := chunks + [rest];
    assert Init(whole) == chunks && Last(whole) == rest;
    DecodeWholeStream(parse, Fresh, whole);
  }

  /** The conversation at a settled point: user and assistant turns
      alternating, none of them blank. */
  ghost predicate SettledHistory(conversation: seq<Message>) {
    && |conversation| % 2 == 0
    && forall i :: 0 <= i < |conversation| ==>
         && conversation[i].role == (if i % 2 == 0 then User else Assistant)
         && !AllSpace(conversation[i].content, IsJsSpace)
  }

  /** Committing an exchange of two non-blank turns keeps the history settled. */
  lemma CommitKeepsHistorySettled(conversation: seq<Message>, question: string, answer: string)
    requires SettledHistory(conversation)
    requires !AllSpace(question, IsJsSpace) && !AllSpace(answer, IsJsSpace)
    ensures SettledHistory(conversation + [Message(User, question), Message(Assistant, answer)])
  {
    var n := |conversation|;
    var c := conversation + [Message(User, question), Message(Assistant, answer)];
    assert n % 2 == 0 && (n + 1) % 2 == 1 && (n + 2) % 2 == 0;
    forall i | 0 <= i < |c|
      ensures c[i].role == (if i % 2 == 0 then User else Assistant) && !AllSpace(c[i].content, IsJsSpace)
    {
      if i < n {
        assert c[i] == conversation[i];
      }
    }
  }
}
