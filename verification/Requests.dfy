/** The provider-agnostic request model (`parcus.model`) and JSON values. */
module Requests {
  import opened Spans

  datatype Option<+T> = None | Some(value: T)

  /** A decoded JSON value; a number is a decimal, and objects compare without regard to key order. */
  datatype Json =
    | Null
    | Bool(b: bool)
    | Num(mantissa: int, exponent: int)
    | Str(s: string)
    | Arr(items: seq<Json>)
    | Obj(fields: map<string, Json>)

  datatype Role = System | User | Assistant | Tool

  datatype Dialect = Anthropic | OpenAI | Gemini | Unknown

  /** A turn: spans of text, or structured content carried verbatim. */
  datatype Message =
    | Plain(role: Role, spans: seq<Span>)
    | Structured(role: Role, raw: map<string, Json>)
  {
    function Spans(): seq<Span> {
      if Plain? then spans else []
    }

    /** The body; `dump` is the stable JSON view of structured content. */
    function Text(dump: Json -> string): string {
      if Plain? then Concat(spans) else dump(Obj(raw))
    }
  }

  datatype Request = Request(
    dialect: Dialect,
    model: Json,
    messages: seq<Message>,
    system: Option<string>,
    stream: bool,
    tools: Option<string>,
    breakpoint: Option<int>)

  function MessagesText(messages: seq<Message>, dump: Json -> string): string {
    if messages == [] then "" else messages[0].Text(dump) + MessagesText(messages[1..], dump)
  }

  /** Everything a request says, for measurement. */
  function RequestText(r: Request, dump: Json -> string): string {
    (if r.system.Some? then r.system.value else "") + MessagesText(r.messages, dump)
  }

  /** That is the system prompt and then message after message: text as it is, structured content as its JSON. */
  lemma {:induction false} TextAppends(r: Request, dump: Json -> string)
    ensures RequestText(r, dump) ==
            if r.messages == [] then (if r.system.Some? then r.system.value else "")
            else
              var n := |r.messages| - 1;
              RequestText(r.(messages := r.messages[..n]), dump) +
              match r.messages[n]
              case Plain(_, spans) => Concat(spans)
              case Structured(_, raw) => dump(Obj(raw))
  {
    if r.messages != [] {
      var n := |r.messages| - 1;
      MessagesTextAppends(r.messages[..n], r.messages[n], dump);
      assert r.messages == r.messages[..n] + [r.messages[n]];
    }
  }

  lemma {:induction false} MessagesTextAppends(ms: seq<Message>, m: Message, dump: Json -> string)
    ensures MessagesText(ms + [m], dump) == MessagesText(ms, dump) + m.Text(dump)
  {
    if ms == [] {
      assert [m][1..] == [] && MessagesText([], dump) == "";
    } else {
      assert (ms + [m])[1..] == ms[1..] + [m];
      MessagesTextAppends(ms[1..], m, dump);
    }
  }
}
