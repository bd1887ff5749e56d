# Streaming chat: widget and server

This project models the two pieces of sequential logic in a small chat
application, one on each side of a newline-delimited JSON (NDJSON) reply
stream.

- **The browser widget** (`static/chat.js`).
  - `processBuffer` and `flushBuffer` turn decoded text chunks, cut
    anywhere, into frames. They keep the unterminated tail in `buffer`.
  - `handleData` folds each frame into `assistantText` and `errorMessage`.
  - The end of `sendMessage` commits the exchange to `conversation` or
    pops the question again.
  - The submit handler ignores blank input and sends the trimmed text.
- **The Flask server** (`app.py`).
  - `_build_messages` validates and normalises the posted history.
  - `_translate_for_gemini` maps roles to the model's two roles and picks
    the first system message as the instruction. It refuses a history that
    does not end with a user turn.
  - The frame loop of `_gemini_stream` writes one `delta` frame per
    non-empty chunk of the model's answer. It then writes one `reply` frame
    holding their concatenation, or an `error` frame if anything raises.

Modules, one file each:

- `Wrappers`: `Option` and `Result`.
- `Sequences`: `Init`, `Last` and an order-preserving `FilterMap`.
- `Text`: JavaScript `trim` and Python `str.strip`, each with its own
  whitespace set. Also `split("\n")`, newline-terminated joining and
  `"".join`.
- `Protocol`: messages, JSON values and frames.
- `Server`: `app.py`. Its methods `BuildMessages`, `TranslateForGemini` and
  `GeminiStream` keep the source's loops. Each is proved equal to a
  specification function, and lemmas state what those functions mean.
- `ChatStream`: the widget's behaviour as functions.
  - `HandleFrame` is one frame and `ApplyFrames` a run of frames.
  - `Feed` is `processBuffer`, `Flush` is `flushBuffer` and `Receive` is the
    read loop.
  - `Cycle` is one whole `sendMessage` exchange and `Settle` is its
    outcome.
- `Widget`: the class `ChatWidget`. Its fields are `conversation`, `buffer`,
  `assistantText` and `errorMessage`. Its methods are proved against
  `ChatStream`.
- `EndToEnd`: the two sides together.
  - The widget's request is built with each content stripped, provided no
    content is blank to Python's `strip`.
  - The server's frames fold into the model's whole reply.
  - The wire decodes to the same frames however it is cut into chunks.

Two behaviours are exposed by the contracts rather than hidden by them:

- An exception with an empty message produces `{"error": ""}`. The widget
  treats that error as absent (`Truthy`). The text streamed so far is then
  settled as if it were the whole reply (`EndToEnd.StreamedFailureSettles`).
- The widget's `trim` and the server's `strip` use different whitespace
  sets. A question made of U+001C alone is sent by the widget and then
  dropped by the server (`EndToEnd.WhitespaceSetsDiffer`).

Two details of the code that are easy to miss:

- `flushBuffer` in `static/chat.js` skips a leftover that is blank after
  `trim`, not only an empty one.
- An error recorded from a frame is overwritten by a later read failure,
  because both write the one `errorMessage` variable.

## Model

| member | source | states |
|---|---|---|
| Sequences.FilterMapMembers | app.py:38-47 | every kept message comes from some posted item, and every item that yields a message has it kept |
| Sequences.FilterMapAppend | app.py:38-47 | the kept messages of two runs of items are those of each run in order, so the input order is preserved |
| Sequences.FilterMapEmptyIff | app.py:46 | nothing is kept exactly when no item yields a message |
| Text.StripEmptyIff | static/chat.js:91 | trimming leaves the empty string exactly when every character is whitespace of the given set |
| Text.TrimStartShape | static/chat.js:91 | trimming the start removes a whitespace prefix and stops at the first other character |
| Text.TrimEndShape | static/chat.js:91 | trimming the end removes a whitespace suffix and stops at the last other character |
| Text.StripSlice | app.py:45 | the stripped string is a slice of the original cut off only at whitespace, and it neither starts nor ends with whitespace |
| Text.StripIdempotent | app.py:45 | stripping twice is stripping once |
| Text.StrippedNotBlank | static/chat.js:151-152 | a non-empty trimmed string is not blank |
| Text.SplitPiecesHaveNoNewline | static/chat.js:87 | no piece of `split("\n")` holds a newline |
| Text.SplitRejoins | static/chat.js:86-88 | every piece but the last, each followed by a newline, then the last piece, spell out the split string |
| Text.SplitAppend | static/chat.js:85-88 | splitting `x + y` gives the complete pieces of `x`, then the pieces of x's tail continued by `y` |
| Text.SplitCarry | static/chat.js:85-88 | splitting in two steps, carrying the tail, gives the complete pieces and the tail of splitting once |
| Text.SplitPiecesOfBlank | static/chat.js:90-93 | every piece of a blank string is blank |
| Text.SplitTerminated | app.py:92-96 | splitting newline-terminated lines gives the lines back, then one empty piece |
| Text.ConcatAppend | app.py:94 | `"".join` of two lists of parts is the join of each, concatenated |
| Server.BuildSpec | app.py:35-53 | a successful result is never an empty list |
| Server.BuildMessages | app.py:35-53 | the loop returns the specified result: the cleaned items if any, else the stripped `message`, else `NoValidMessage`; a list or object role raises first |
| Server.CleanItemIff | app.py:40-45 | an item contributes a message exactly when it is an object with one of the three role names and string content that is not blank; the content is stripped |
| Server.BuildFailsIff | app.py:46-53 | the ValueError is raised exactly when neither the list nor the `message` member yields a message and no role raised |
| Server.BuildFallsBackToMessage | app.py:46-51 | when the list yields nothing, the result is the single stripped user message from `message` |
| Server.BuildIntended | app.py:44 | the corrected builder never fails with the role TypeError, and its successful results are non-empty |
| Server.UnhashableRoleRejectsHistory | app.py:44 | a history with a list as one role is refused as written, but the corrected builder keeps the valid user message |
| Server.BuildIntendedSkipsInvalid | app.py:39-45 | the corrected builder ignores an invalid item wherever it stands |
| Server.BuildAgreesWithoutUnhashableRoles | app.py:35-53 | when no role is a list or an object, the code as written and the corrected builder agree |
| Server.Translate | app.py:71-77 | on success the last entry has the user role; on failure the error is one of the two ValueError texts |
| Server.TranslateForGemini | app.py:56-77 | the loop and the two checks return the specified result |
| Server.FirstSystem | app.py:64 | gives the position of the first system message, or none when no message is a system one |
| Server.ScanIsFirstSystemRemoved | app.py:60-69 | the loop makes the first system message the instruction and maps every other message, later system ones included, in order: user to user, anything else to model |
| Server.ContentsLength | app.py:60-69 | `contents` is one shorter than the history when a system message is present, else as long |
| Server.TranslateAcceptsIff | app.py:71-77 | accepted exactly when the last message is from the user, or it is the only system message and follows a user message |
| Server.ChunkTextsNonEmpty | app.py:88-91 | no collected reply part is empty |
| Server.StreamFrames | app.py:80-96 | the stream is never empty and ends in a `done` frame; every earlier frame is a non-empty delta and nothing else |
| Server.GeminiStream | app.py:80-96 | the generator loop yields the specified frames |
| Server.StreamEndsInReplyIff | app.py:94-96 | the last frame is a reply exactly when the history was accepted and nothing raised; otherwise it is an error frame |
| Server.ReplyIsConcatenatedDeltas | app.py:86-94 | one delta per non-empty chunk text, in order, then a reply holding their concatenation |
| ChatStream.HandleFrame | static/chat.js:69-83 | a non-empty reply sets the text, winning over a delta in the same frame; otherwise a non-empty delta is appended; empty strings change nothing; a non-empty error is recorded |
| ChatStream.ApplyFramesAppend | static/chat.js:118-127 | applying two runs of frames in turn is applying their concatenation: frames take effect in arrival order |
| ChatStream.ErrorDoesNotStopDraining | static/chat.js:80-82 | the text built from later frames does not depend on any error recorded before |
| ChatStream.LastErrorWins | static/chat.js:80-82 | the error in force is that of the last frame with a non-empty error |
| ChatStream.NoErrorKeepsError | static/chat.js:80-82 | frames without a non-empty error leave the error as it was |
| ChatStream.ReplyDiscardsEarlierText | static/chat.js:75-78 | a non-empty reply discards the text built before it |
| ChatStream.LineFramesAppend | static/chat.js:90-100 | the frames of two runs of lines are those of each run, in order |
| ChatStream.LineFramesOne | static/chat.js:91-99 | a blank or unparseable line yields no frame; any other line yields its parsed frame |
| ChatStream.LineInContext | static/chat.js:90-99 | a skipped line does not disturb the frames of the lines around it, which keep their order |
| ChatStream.BlankLinesYieldNothing | static/chat.js:90-93 | blank lines yield no frame |
| ChatStream.FeedKeepsUnterminatedTail | static/chat.js:85-88 | after `processBuffer` the buffer has no newline; the complete lines, each with its newline, then the buffer, equal the old buffer plus the text |
| ChatStream.FeedChunkBoundary | static/chat.js:85-101 | feeding `a` then `b` applies the same frames in the same order, and leaves the same buffer, as feeding `a + b` |
| ChatStream.FeedTwice | static/chat.js:85-101 | two `processBuffer` calls have the effect of one on the concatenated text |
| ChatStream.FeedEmpty | static/chat.js:85-88 | feeding an empty chunk changes nothing |
| ChatStream.BlankFeedAppliesNothing | static/chat.js:85-93 | a whitespace-only chunk fed while the buffer is blank applies no frame |
| ChatStream.ReceiveIsFeedOfWhole | static/chat.js:118-124 | reading the body in any chunks has the effect of feeding their concatenation at once |
| ChatStream.FlushAppliesAtMostOne | static/chat.js:103-116 | `flushBuffer` empties the buffer and applies no frame when the leftover is blank or unparseable, else exactly its frame |
| ChatStream.DecodeWholeStream | static/chat.js:118-127 | a whole stream applies the frames of every newline-separated piece of its text, the unterminated last piece included |
| ChatStream.StatusErrorChoice | static/chat.js:50-59 | a failed status is reported with the server's error if non-empty, else the status text, else the generic message, never as empty |
| ChatStream.ThrownMessageChoice | static/chat.js:129 | a thrown error is reported with its message, or with "Unexpected error." when that message is empty; never as empty |
| ChatStream.TransportFailureRollsBack | static/chat.js:41-132 | a failed fetch or read rolls back with the thrown error's notice, a failed status with the status choice, a missing body with the streaming notice; the notice is never empty |
| ChatStream.CycleReadsWholeBody | static/chat.js:118-127 | a body read to its end leaves an empty buffer and applies the frames of the whole text, however it was chunked |
| ChatStream.SettleCommitsIff | static/chat.js:134-146 | the exchange commits exactly when no error is set and the text is not blank, and it commits the text; otherwise the notice is the error, or the no-reply message |
| ChatStream.CommitKeepsHistorySettled | static/chat.js:146 | committing a non-blank question and answer keeps the history alternating user and assistant turns, none blank |
| Widget.ChatWidget.constructor | static/chat.js:7 | the conversation starts empty and settled |
| Widget.ChatWidget.HandleData | static/chat.js:69-83 | the reply state becomes that of handling the frame |
| Widget.ChatWidget.ProcessBuffer | static/chat.js:85-101 | the buffer and reply become those of feeding the text |
| Widget.ChatWidget.FlushBuffer | static/chat.js:103-116 | the buffer and reply become those of flushing |
| Widget.ChatWidget.ReadResponse | static/chat.js:41-132 | from the fresh state, reading the response leaves the state of the cycle |
| Widget.ChatWidget.Conclude | static/chat.js:134-146 | the outcome is the settlement of the reply; a rollback restores the prior history, a commit adds the question and the reply; the history stays settled |
| Widget.ChatWidget.SendMessage | static/chat.js:31-147 | the history sent is the old one plus the question; the state is that of the cycle; a commit leaves the history plus both turns, a rollback the old history; the history stays settled |
| Widget.ChatWidget.Submit | static/chat.js:149-159 | a blank input changes neither the history nor the decoder state; otherwise the trimmed input is sent and committed or rolled back; the history stays settled |
| EndToEnd.MessageJsonIsClean | app.py:40-45 | a message the widget serialises is kept by the server, stripped, when its content is not blank to Python |
| EndToEnd.RequestItemsAreClean | app.py:38-47 | every posted message is kept, stripped and in order, and none makes the server raise |
| EndToEnd.ClientRequestAccepted | app.py:35-77 | the history the widget posts after a question is built with each content stripped, as written and as intended, provided no content is blank to Python's `strip`; it then translates |
| EndToEnd.WhitespaceSetsDiffer | static/chat.js:151-152 | U+001C is not blank to `trim` but is to `strip`, and U+FEFF the other way round |
| EndToEnd.DeltasAccumulate | static/chat.js:70-73 | delta frames build their texts concatenated in order |
| EndToEnd.DeltasInOrderExample | static/chat.js:70-73 | deltas `"Hel"` and `"lo"` build `"Hello"` |
| EndToEnd.ReplyAfterDeltasExample | static/chat.js:75-78 | a reply `"Final"` after any deltas leaves `"Final"` |
| EndToEnd.ClientFoldsServerReply | app.py:86-94 | folding the server's frames yields the concatenation of the model's non-empty chunk texts, with no error |
| EndToEnd.ClientSeesServerFailure | app.py:95-96 | a refused history is recorded as the error; an exception keeps the text streamed so far and records its message unless that message is empty |
| EndToEnd.EncodedLinesDecode | static/chat.js:90-100 | the lines of frames that round-trip through the JSON formats yield those frames in order |
| EndToEnd.WireDecodes | app.py:92-96 | however the server's body is chunked, the widget applies exactly the server's frames |
| EndToEnd.StreamedReplySettles | static/chat.js:134-146 | a streamed reply commits as the whole model reply unless it is blank, when the exchange rolls back |
| EndToEnd.StreamedFailureSettles | static/chat.js:134-138 | a server failure rolls back with the server's message when that message is not empty |

## Left out

- DOM work: `appendMessage`, `setLoadingState`, scrolling, textarea
  resizing, focus, and the warning prefix before a notice. The notice
  itself is `Settlement.notice`; how it is displayed is not modelled.
- Network and decoding: `fetch`, `response.json()`, `reader.read()` and
  `TextDecoder`. A `Response` value stands for what they produced. Its
  chunks are already-decoded strings, and `Done(rest)` holds what the final
  `decoder.decode()` returned. UTF-8 decoding is not modelled.
- `JSON.parse`: modelled by the function value `parse`. A frame member that
  is not a string (a number, say, which JavaScript would append as text)
  is not modelled: `Frame` holds optional strings only.
- `JSON.stringify` and `json.dumps`: the request is taken as the
  `RequestPayload` value the server decodes. The server's lines use the
  `encode` parameter, and `Decodable` states what the lemmas need of the
  two formats.
- Single-flight: the disabled controls while a send is running.
  `SendMessage` runs one whole cycle before it returns.
- `buffer`, `assistantText` and `errorMessage` are fresh locals of each
  `sendMessage` call in the source. Here they are fields, reset at the
  start of `SendMessage`.
- Flask routing, `request.get_json`, `jsonify` and status codes,
  `_ensure_gemini_configured` (it reads the environment), and server
  start-up under `__main__`.
  - The payload is always a map here. A posted JSON array would make
    `payload.get` raise in the route.
  - The route turns a build error into a 400 reply. The widget sees that
    reply as a `NotOk` response.
- `genai.GenerativeModel` and `generate_content`: the model's streamed
  response is the `steps` parameter. An exception from constructing the
  model, from the call, or from reading a chunk's `text` is a `Raise` step
  with the text of `str(exc)`.
- The generator is lazy in the source. `StreamFrames` gives the whole
  frame list at once.
- JSON numbers are integers: the code never looks inside a number.

## Findings

| source | as written | input that shows it | evidently intended | confidence | as-written member | corrected member |
|---|---|---|---|---|---|---|
| app.py:44 | `role in {"user", "assistant", "system"}` hashes the role, so a list or object role raises TypeError and the whole request fails with a server error | `{"messages": [{"role": [], "content": "hi"}, {"role": "user", "content": "hello"}]}` | skip the item like any other invalid item, giving `[{"role": "user", "content": "hello"}]` | not executed | Server.UnhashableRoleRejectsHistory | Server.BuildIntended |
