/**
 * The values exchanged between the browser widget and the Flask server:
 * chat messages, the JSON documents a request carries, and the frames of
 * the newline-delimited JSON reply stream.
 */
module Protocol {
  import opened Wrappers

  /** The roles the server accepts in a posted history. */
  datatype Role = User | Assistant | System

  /** One chat turn, `{"role": ..., "content": ...}`. */
  datatype Message = Message(role: Role, content: string)

  /** The wire name of a role. */
  function RoleName(r: Role): string {
    match r
    case User => "user"
    case Assistant => "assistant"
    case System => "system"
  }

  /** A JSON document as decoded by the server. Numbers are kept as integers:
      the code never inspects a number beyond its being one. */
  datatype Json =
    | Null
    | Bool(b: bool)
    | Number(n: int)
    | Str(s: string)
    | Array(elems: seq<Json>)
    | Object(fields: map<string, Json>)

  /** Python `d.get(key)`: the value at `key`, or nothing. */
  function Get(fields: map<string, Json>, key: string): Option<Json> {
    if key in fields then Some(fields[key]) else None
  }

  /** The JSON object the widget sends for one message. */
  function MessageJson(m: Message): Json {
    Object(map["role" := Str(RoleName(m.role)), "content" := Str(m.content)])
  }

  /** The request body `{"messages": [...]}` the widget posts. */
  function RequestPayload(conversation: seq<Message>): map<string, Json> {
    map["messages" := Array(seq(|conversation|, i requires 0 <= i < |conversation| => MessageJson(conversation[i])))]
  }

  /** One frame of the reply stream: a JSON object whose `delta`, `reply`
      and `error` members are strings when present; `done` marks the last
      frame the server sends. */
  datatype Frame = Frame(delta: Option<string>, reply: Option<string>, error: Option<string>, done: bool)

  /** `{"delta": text}` */
  function DeltaFrame(text: string): Frame {
    Frame(Some(text), None, None, false)
  }

  /** `{"reply": text, "done": true}` */
  function ReplyFrame(text: string): Frame {
    Frame(None, Some(text), None, true)
  }

  /** `{"error": message, "done": true}` */
  function ErrorFrame(message: string): Frame {
    Frame(None, None, Some(message), true)
  }

  /** JavaScript truthiness of an optional string member: present and non-empty. */
  predicate Truthy(s: Option<string>) {
    s.Some? && s.value != ""
  }
}
