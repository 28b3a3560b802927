/** Parsing provider bodies into requests and writing them back (`parcus.proxy.dialects`). */
module Dialects {
  import opened Spans
  import opened Requests

  type Body = map<string, Json>

  /** `d.get(key)`: a missing key reads as null. */
  function Get(d: Body, key: string): Json {
    if key in d then d[key] else Null
  }

  /** `bool(v)`. */
  predicate Truthy(v: Json) {
    match v
    case Null => false
    case Bool(b) => b
    case Num(mantissa, _) => mantissa != 0
    case Str(s) => s != ""
    case Arr(items) => items != []
    case Obj(fields) => fields != map[]
  }

  // ----- Roles ---------------------------------------------------------------

  function RoleName(role: Role): string {
    match role
    case System => "system"
    case User => "user"
    case Assistant => "assistant"
    case Tool => "tool"
  }

  function RoleOf(v: Json): (role: Option<Role>)
    ensures role.Some? ==> v == Str(RoleName(role.value))
    ensures forall r: Role :: v == Str(RoleName(r)) ==> role == Some(r)
  {
    if v == Str("system") then Some(System)
    else if v == Str("user") then Some(User)
    else if v == Str("assistant") then Some(Assistant)
    else if v == Str("tool") then Some(Tool)
    else None
  }

  function GeminiRoleName(role: Role): string {
    if role == Assistant then "model" else "user"
  }

  function GeminiRoleOf(v: Json): Option<Role> {
    if v == Str("user") then Some(User) else if v == Str("model") then Some(Assistant) else None
  }

  /** The roles whose plain text a dialect decomposes into spans. */
  function TextRoles(dialect: Dialect): set<Role> {
    if dialect == OpenAI then {System, User, Assistant} else {User, Assistant}
  }

  // ----- Messages in ---------------------------------------------------------

  function ParseMessage(role: Role, item: Body, textRoles: set<Role>, structured: bool): Option<Message> {
    if role in textRoles && item.Keys == {"role", "content"} && item["content"].Str? then
      Some(Plain(role, Classify(item["content"].s)))
    else if structured then Some(Structured(role, item))
    else None
  }

  /** One entry of `messages`, or nothing if it cannot be round-tripped. */
  function ParseEntry(entry: Json, textRoles: set<Role>, structured: bool): Option<Message> {
    if !entry.Obj? then None
    else
      var role := RoleOf(Get(entry.fields, "role"));
      if role.None? then None else ParseMessage(role.value, entry.fields, textRoles, structured)
  }

  function GeminiText(content: Json): (text: Option<string>)
    ensures text.Some? ==>
              content.Obj? && (content.fields.Keys == {"parts"} || content.fields.Keys == {"role", "parts"}) &&
              content.fields["parts"] == Arr([Obj(map["text" := Str(text.value)])])
  {
    if !content.Obj? || !(content.fields.Keys == {"parts"} || content.fields.Keys == {"role", "parts"}) then None
    else
      var parts := content.fields["parts"];
      if !parts.Arr? || |parts.items| != 1 then None
      else
        var part := parts.items[0];
        if part.Obj? && part.fields.Keys == {"text"} && part.fields["text"].Str? then
          assert part.fields == map["text" := part.fields["text"]];
          Some(part.fields["text"].s)
        else None
  }

  function ParseGeminiEntry(entry: Json, structured: bool): Option<Message> {
    if !entry.Obj? then None
    else
      var role := GeminiRoleOf(Get(entry.fields, "role"));
      var text := GeminiText(entry);
      if entry.fields.Keys == {"role", "parts"} && role.Some? && text.Some? then
        Some(Plain(role.value, Classify(text.value)))
      else if structured then
        Some(Structured(if role.Some? then role.value else User, entry.fields))
      else None
  }

  function ParseAnyEntry(dialect: Dialect, entry: Json, structured: bool): Option<Message> {
    if dialect == Gemini then ParseGeminiEntry(entry, structured)
    else ParseEntry(entry, TextRoles(dialect), structured)
  }

  /** All entries, or nothing if any of them is refused. */
  function ParseEntries(dialect: Dialect, entries: seq<Json>, structured: bool): (out: Option<seq<Message>>)
    ensures out.Some? <==> forall e <- entries :: ParseAnyEntry(dialect, e, structured).Some?
    ensures out.Some? ==>
              |out.value| == |entries| &&
              forall k :: 0 <= k < |entries| ==> ParseAnyEntry(dialect, entries[k], structured) == Some(out.value[k])
  {
    if entries == [] then Some([])
    else
      var first := ParseAnyEntry(dialect, entries[0], structured);
      var rest := ParseEntries(dialect, entries[1..], structured);
      assert forall e <- entries :: e == entries[0] || e in entries[1..];
      if first.Some? && rest.Some? then Some([first.value] + rest.value) else None
  }

  /** `_parse_messages` and the loop of `_parse_gemini`. */
  method ParseMessages(dialect: Dialect, raw: Json, structured: bool) returns (messages: Option<seq<Message>>)
    ensures messages == if raw.Arr? then ParseEntries(dialect, raw.items, structured) else None
  {
    if !raw.Arr? { return None; }
    var out: seq<Message> := [];
    for k := 0 to |raw.items|
      invariant |out| == k
      invariant forall j :: 0 <= j < k ==> ParseAnyEntry(dialect, raw.items[j], structured) == Some(out[j])
    {
      var message := ParseAnyEntry(dialect, raw.items[k], structured);
      if message.None? {
        assert raw.items[k] in raw.items;
        return None;
      }
      out := out + [message.value];
    }
    var spec := ParseEntries(dialect, raw.items, structured);
    assert spec.Some? && spec.value == out;
    return Some(out);
  }

  // ----- Requests in ---------------------------------------------------------

  function Tools(body: Body, dump: Json -> string): Option<string> {
    if Get(body, "tools") == Null then None else Some(dump(Get(body, "tools")))
  }

  /** The system prompt: nothing if absent, an error if it is not text. */
  function ParseSystem(dialect: Dialect, body: Body): Option<Option<string>> {
    match dialect
    case Anthropic =>
      var system := Get(body, "system");
      if system == Null then Some(None) else if system.Str? then Some(Some(system.s)) else None
    case Gemini =>
      var system := Get(body, "systemInstruction");
      if system == Null then Some(None)
      else
        var text := GeminiText(system);
        if text.Some? then Some(text) else None
    case _ => Some(None)
  }

  function EntriesKey(dialect: Dialect): string {
    if dialect == Gemini then "contents" else "messages"
  }

  /** `parse`; `model` is the one named in a Gemini URL. */
  function Parse(dialect: Dialect, body: Body, structured: bool, model: Json, dump: Json -> string): Option<Request> {
    if dialect == Unknown then None
    else
      var system, raw := ParseSystem(dialect, body), Get(body, EntriesKey(dialect));
      if system.None? || !raw.Arr? then None
      else
        var messages := ParseEntries(dialect, raw.items, structured);
        if messages.None? then None
        else Some(Request(dialect,
                          if dialect == Gemini then model else Get(body, "model"),
                          messages.value,
                          system.value,
                          dialect != Gemini && Truthy(Get(body, "stream")),
                          Tools(body, dump),
                          None))
  }

  method ParseBody(dialect: Dialect, body: Body, structured: bool, model: Json, dump: Json -> string)
    returns (r: Option<Request>)
    ensures r == Parse(dialect, body, structured, model, dump)
  {
    if dialect == Unknown { return None; }
    var system := ParseSystem(dialect, body);
    if system.None? { return None; }
    var messages := ParseMessages(dialect, Get(body, EntriesKey(dialect)), structured);
    if messages.None? { return None; }
    return Some(Request(dialect,
                        if dialect == Gemini then model else Get(body, "model"),
                        messages.value,
                        system.value,
                        dialect != Gemini && Truthy(Get(body, "stream")),
                        Tools(body, dump),
                        None));
  }

  // ----- Requests out --------------------------------------------------------

  const EPHEMERAL: Json := Obj(map["type" := Str("ephemeral")])

  /** `_anthropic_breakpoint_index`. */
  function BreakpointIndex(r: Request): Option<int> {
    if r.dialect == Anthropic && r.breakpoint.Some? && 0 <= r.breakpoint.value < |r.messages| then r.breakpoint
    else None
  }

  /** `_mark_raw`: a breakpoint on the last content block, if there is one to mark. */
  function MarkRaw(raw: Body): Body {
    var content := Get(raw, "content");
    if !content.Arr? || content.items == [] then raw
    else
      var n := |content.items| - 1;
      var last := content.items[n];
      if !last.Obj? then raw
      else raw["content" := Arr(content.items[..n] + [Obj(last.fields["cache_control" := EPHEMERAL])])]
  }

  function RenderEntry(dialect: Dialect, m: Message, marked: bool): Json {
    match m
    case Structured(_, raw) => Obj(if marked then MarkRaw(raw) else raw)
    case Plain(role, spans) =>
      var text := Str(Concat(spans));
      if dialect == Gemini then
        Obj(map["role" := Str(GeminiRoleName(role)), "parts" := Arr([Obj(map["text" := text])])])
      else if marked then
        Obj(map["role" := Str(RoleName(role)),
                "content" := Arr([Obj(map["type" := Str("text"), "text" := text, "cache_control" := EPHEMERAL])])])
      else
        Obj(map["role" := Str(RoleName(role)), "content" := text])
  }

  function RenderEntries(r: Request): (out: seq<Json>)
    ensures |out| == |r.messages|
    ensures forall i :: 0 <= i < |r.messages| ==>
              out[i] == RenderEntry(r.dialect, r.messages[i], BreakpointIndex(r) == Some(i))
  {
    seq(|r.messages|, i requires 0 <= i < |r.messages| =>
      RenderEntry(r.dialect, r.messages[i], BreakpointIndex(r) == Some(i)))
  }

  /** `serialize`: only the text fields are rewritten, the rest of the body stays. */
  function Serialize(r: Request, original: Body): Body {
    var body := original[EntriesKey(r.dialect) := Arr(RenderEntries(r))];
    if r.system.None? then body
    else if r.dialect == Anthropic then body["system" := Str(r.system.value)]
    else if r.dialect == Gemini then
      body["systemInstruction" := Obj(map["parts" := Arr([Obj(map["text" := Str(r.system.value)])])])]
    else body
  }

  method SerializeBody(r: Request, original: Body) returns (newBody: Body)
    ensures newBody == Serialize(r, original)
  {
    newBody := original;
    var breakpointAt := BreakpointIndex(r);
    var entries: seq<Json> := [];
    for i := 0 to |r.messages|
      invariant entries == RenderEntries(r)[..i]
    {
      entries := entries + [RenderEntry(r.dialect, r.messages[i], breakpointAt == Some(i))];
    }
    assert entries == RenderEntries(r);
    newBody := newBody[EntriesKey(r.dialect) := Arr(entries)];
    if r.system.Some? {
      if r.dialect == Anthropic {
        newBody := newBody["system" := Str(r.system.value)];
      } else if r.dialect == Gemini {
        newBody := newBody["systemInstruction" := Obj(map["parts" := Arr([Obj(map["text" := Str(r.system.value)])])])];
      }
    }
  }

  // ----- Parsing and serialising undo each other -----------------------------

  lemma GeminiEntryRoundTrip(entry: Json, structured: bool)
    requires ParseGeminiEntry(entry, structured).Some?
    ensures RenderEntry(Gemini, ParseGeminiEntry(entry, structured).value, false) == entry
  {
    hide Classify, Concat, GeminiText;
    var m, fields := ParseGeminiEntry(entry, structured).value, entry.fields;
    if m.Plain? {
      ClassifySpells(GeminiText(entry).value);
      assert fields == map["role" := fields["role"], "parts" := fields["parts"]];
    }
  }

  lemma TextEntryRoundTrip(dialect: Dialect, entry: Json, structured: bool)
    requires dialect != Gemini && ParseEntry(entry, TextRoles(dialect), structured).Some?
    ensures RenderEntry(dialect, ParseEntry(entry, TextRoles(dialect), structured).value, false) == entry
  {
    hide Classify, Concat;
    var m, fields := ParseEntry(entry, TextRoles(dialect), structured).value, entry.fields;
    if m.Plain? {
      ClassifySpells(fields["content"].s);
      assert fields == map["role" := fields["role"], "content" := fields["content"]];
    }
  }

  lemma EntryRoundTrip(dialect: Dialect, entry: Json, structured: bool)
    requires ParseAnyEntry(dialect, entry, structured).Some?
    ensures RenderEntry(dialect, ParseAnyEntry(dialect, entry, structured).value, false) == entry
  {
    hide RenderEntry, ParseGeminiEntry, ParseEntry;
    if dialect == Gemini { GeminiEntryRoundTrip(entry, structured); } else { TextEntryRoundTrip(dialect, entry, structured); }
  }

  /** A Gemini system instruction that names a role. */
  predicate SystemNamesRole(dialect: Dialect, body: Body) {
    dialect == Gemini && Get(body, "systemInstruction").Obj? && "role" in body["systemInstruction"].fields
  }

  /** Whatever `parse` accepts is written back unchanged, unless a Gemini instruction names a role. */
  lemma SerializeUndoesParse(dialect: Dialect, body: Body, structured: bool, model: Json, dump: Json -> string)
    requires Parse(dialect, body, structured, model, dump).Some?
    ensures Serialize(Parse(dialect, body, structured, model, dump).value, body) == body
            <==> !SystemNamesRole(dialect, body)
  {
    var r, raw := Parse(dialect, body, structured, model, dump).value, Get(body, EntriesKey(dialect));
    forall k | 0 <= k < |raw.items| ensures RenderEntries(r)[k] == raw.items[k] {
      EntryRoundTrip(dialect, raw.items[k], structured);
    }
    assert RenderEntries(r) == raw.items;
    assert body[EntriesKey(dialect) := raw] == body;
    if r.system.Some? {
      if dialect == Anthropic {
        assert body["system" := body["system"]] == body;
      } else {
        var fields := body["systemInstruction"].fields;
        var written := map["parts" := Arr([Obj(map["text" := Str(r.system.value)])])];
        if "role" in fields {
          assert "role" !in written;
          assert body["systemInstruction" := Obj(written)]["systemInstruction"] != Obj(fields);
        } else {
          assert fields == written;
          assert body["systemInstruction" := Obj(fields)] == body;
        }
      }
    }
  }

  /** Written out and parsed again a message keeps its role and text, and structured content itself. */
  predicate Rereads(dialect: Dialect, m: Message, structured: bool) {
    match m
    case Plain(role, _) => role in TextRoles(dialect)
    case Structured(_, raw) => ParseAnyEntry(dialect, Obj(raw), structured) == Some(m)
  }

  /** A request that `parse` could have read from a body like this one. */
  predicate IsReadable(r: Request, body: Body, structured: bool, model: Json, dump: Json -> string) {
    r.dialect != Unknown && r.breakpoint.None? &&
    (forall i :: 0 <= i < |r.messages| ==> Rereads(r.dialect, r.messages[i], structured)) &&
    r.model == (if r.dialect == Gemini then model else Get(body, "model")) &&
    r.stream == (r.dialect != Gemini && Truthy(Get(body, "stream"))) &&
    r.tools == Tools(body, dump) &&
    (ParseSystem(r.dialect, body) == Some(None) <==> r.system.None?)
  }

  /** The message as it is read back: its text classified afresh. */
  function Reread(m: Message): Message {
    match m
    case Plain(role, spans) => Plain(role, Classify(Concat(spans)))
    case Structured(_, _) => m
  }

  lemma TextIsGeminiText(fields: Body, text: string)
    requires fields.Keys == {"parts"} || fields.Keys == {"role", "parts"}
    requires fields["parts"] == Arr([Obj(map["text" := Str(text)])])
    ensures GeminiText(Obj(fields)) == Some(text)
  {
    var part: Body := map["text" := Str(text)];
    assert part.Keys == {"text"};
  }

  lemma RenderedEntryParses(dialect: Dialect, m: Message, structured: bool)
    requires dialect != Unknown && Rereads(dialect, m, structured)
    ensures ParseAnyEntry(dialect, RenderEntry(dialect, m, false), structured) == Some(Reread(m))
  {
    hide Classify, Concat, GeminiText;
    if m.Plain? {
      var text := Concat(m.spans);
      if dialect == Gemini {
        var fields: Body := map["role" := Str(GeminiRoleName(m.role)), "parts" := Arr([Obj(map["text" := Str(text)])])];
        assert fields.Keys == {"role", "parts"};
        TextIsGeminiText(fields, text);
      } else {
        var fields: Body := map["role" := Str(RoleName(m.role)), "content" := Str(text)];
        assert fields.Keys == {"role", "content"};
      }
    }
  }

  lemma WrittenSystemParses(r: Request, body: Body)
    requires r.dialect != Unknown && (ParseSystem(r.dialect, body) == Some(None) <==> r.system.None?)
    ensures ParseSystem(r.dialect, Serialize(r, body)) == Some(r.system)
  {
    hide GeminiText, RenderEntries;
    if r.dialect == Anthropic {
      assert Get(Serialize(r, body), "system") == if r.system.None? then Get(body, "system") else Str(r.system.value);
    } else if r.dialect == Gemini {
      var text := if r.system.Some? then r.system.value else "";
      var parts: Body := map["parts" := Arr([Obj(map["text" := Str(text)])])];
      assert parts.Keys == {"parts"};
      TextIsGeminiText(parts, text);
      assert Get(Serialize(r, body), "systemInstruction") ==
             if r.system.None? then Get(body, "systemInstruction") else Obj(parts);
    }
  }

  lemma WrittenFields(r: Request, body: Body)
    ensures Get(Serialize(r, body), EntriesKey(r.dialect)) == Arr(RenderEntries(r))
    ensures Get(Serialize(r, body), "model") == Get(body, "model")
    ensures Get(Serialize(r, body), "stream") == Get(body, "stream")
    ensures Get(Serialize(r, body), "tools") == Get(body, "tools")
  {
  }

  /** Re-reading what was written gives the same request, its texts classified afresh. */
  lemma ParseUndoesSerialize(r: Request, body: Body, structured: bool, model: Json, dump: Json -> string)
    requires IsReadable(r, body, structured, model, dump)
    ensures var again := Parse(r.dialect, Serialize(r, body), structured, model, dump);
            again.Some? &&
            again.value == r.(messages := again.value.messages) &&
            |again.value.messages| == |r.messages| &&
            forall i :: 0 <= i < |r.messages| ==>
              again.value.messages[i] == Reread(r.messages[i]) &&
              again.value.messages[i].Text(dump) == r.messages[i].Text(dump)
  {
    hide Serialize, ParseSystem, RenderEntry, ParseAnyEntry, Classify, EntriesKey, ParseEntries, Rereads;
    WrittenFields(r, body);
    WrittenSystemParses(r, body);
    forall i | 0 <= i < |r.messages|
      ensures ParseAnyEntry(r.dialect, RenderEntries(r)[i], structured) == Some(Reread(r.messages[i]))
      ensures Reread(r.messages[i]).Text(dump) == r.messages[i].Text(dump)
    {
      RenderedEntryParses(r.dialect, r.messages[i], structured);
      ClassifySpells(Concat(r.messages[i].Spans()));
    }
  }

  lemma ParsedEntryRereads(dialect: Dialect, entry: Json, structured: bool)
    requires ParseAnyEntry(dialect, entry, structured).Some?
    ensures Rereads(dialect, ParseAnyEntry(dialect, entry, structured).value, structured)
  {
    hide GeminiText, Classify;
  }

  /** What was parsed can be written and read again. */
  lemma ParsedIsReadable(dialect: Dialect, body: Body, structured: bool, model: Json, dump: Json -> string)
    requires Parse(dialect, body, structured, model, dump).Some?
    ensures IsReadable(Parse(dialect, body, structured, model, dump).value, body, structured, model, dump)
  {
    hide ParseAnyEntry, Rereads, EntriesKey, GeminiText, Truthy, ParseEntries;
    var r, raw := Parse(dialect, body, structured, model, dump).value, Get(body, EntriesKey(dialect));
    forall i | 0 <= i < |r.messages| ensures Rereads(dialect, r.messages[i], structured) {
      ParsedEntryRereads(dialect, raw.items[i], structured);
    }
  }

  // ----- Cache breakpoints ---------------------------------------------------

  /** Whether the message ends in a content block that can be marked. */
  predicate EndsInBlock(m: Message) {
    m.Structured? && "content" in m.raw && m.raw["content"].Arr? && m.raw["content"].items != [] &&
    m.raw["content"].items[|m.raw["content"].items| - 1].Obj?
  }

  /**
    * A breakpoint is written for Anthropic only, into the entry it names and no other: text becomes
    * one marked block, structured content keeps all its blocks and fields and has the last one marked.
    */
  lemma BreakpointMarksOneEntry(r: Request, k: nat)
    requires k < |r.messages|
    ensures var mark := Obj(map["type" := Str("ephemeral")]);
            var m, bare, out := r.messages[k], RenderEntry(r.dialect, r.messages[k], false), RenderEntries(r)[k];
            if r.dialect != Anthropic || r.breakpoint != Some(k) then out == bare
            else if m.Plain? then
              out == Obj(map["role" := bare.fields["role"],
                             "content" := Arr([Obj(map["type" := Str("text"), "text" := Str(Concat(m.spans)),
                                                       "cache_control" := mark])])])
            else if EndsInBlock(m) then
              var blocks := m.raw["content"].items;
              var last := |blocks| - 1;
              out.Obj? && out.fields.Keys == m.raw.Keys &&
              (forall key :: key in m.raw && key != "content" ==> out.fields[key] == m.raw[key]) &&
              out.fields["content"].Arr? && |out.fields["content"].items| == |blocks| &&
              (forall j :: 0 <= j < last ==> out.fields["content"].items[j] == blocks[j]) &&
              out.fields["content"].items[last] == Obj(blocks[last].fields["cache_control" := mark])
            else out == bare == Obj(m.raw)
  {
    hide Concat;
  }

  // ----- A body that does not come back --------------------------------------

  const NAMED_INSTRUCTION: Body :=
    map["contents" := Arr([]),
        "systemInstruction" := Obj(map["role" := Str("user"), "parts" := Arr([Obj(map["text" := Str("be brief")])])])]

  /** A Gemini instruction that names a role is accepted and written back without it. */
  lemma NamedInstructionIsRewritten(structured: bool, model: Json, dump: Json -> string)
    ensures var r := Parse(Gemini, NAMED_INSTRUCTION, structured, model, dump);
            r.Some? && r.value.system == Some("be brief") && Serialize(r.value, NAMED_INSTRUCTION) != NAMED_INSTRUCTION
  {
    var fields: Body := map["role" := Str("user"), "parts" := Arr([Obj(map["text" := Str("be brief")])])];
    assert NAMED_INSTRUCTION["systemInstruction"] == Obj(fields) && NAMED_INSTRUCTION["contents"] == Arr([]);
    assert fields.Keys == {"role", "parts"};
    TextIsGeminiText(fields, "be brief");
    SerializeUndoesParse(Gemini, NAMED_INSTRUCTION, structured, model, dump);
  }
}
