/**
  * What a provider body says, in the body's own terms (`parcus.proxy.dialects`), and when two
  * bodies share a cache key (`parcus.cache.key`).
  */
module BodyKeys {
  import opened Spans
  import opened Requests
  import opened Dialects
  import opened CacheKeys

  // ----- Which bodies are accepted, and as what ------------------------------

  /** A message of text alone: nothing but a role and a string, from a speaker whose text is read. */
  predicate IsTextEntry(dialect: Dialect, fields: Body) {
    if dialect == Gemini then
      fields.Keys == {"role", "parts"} && (fields["role"] == Str("user") || fields["role"] == Str("model")) &&
      fields["parts"].Arr? && |fields["parts"].items| == 1 && fields["parts"].items[0].Obj? &&
      fields["parts"].items[0].fields.Keys == {"text"} && fields["parts"].items[0].fields["text"].Str?
    else
      fields.Keys == {"role", "content"} && fields["content"].Str? &&
      (fields["role"] == Str("user") || fields["role"] == Str("assistant") ||
       (dialect == OpenAI && fields["role"] == Str("system")))
  }

  function TextOf(dialect: Dialect, fields: Body): string
    requires IsTextEntry(dialect, fields)
  {
    if dialect == Gemini then fields["parts"].items[0].fields["text"].s else fields["content"].s
  }

  /** Gemini takes any speaker, and whoever is not the model for the user. */
  predicate HasRole(dialect: Dialect, fields: Body) {
    dialect == Gemini ||
    ("role" in fields && fields["role"] in {Str("system"), Str("user"), Str("assistant"), Str("tool")})
  }

  function RoleIn(dialect: Dialect, fields: Body): Role
    requires HasRole(dialect, fields)
  {
    if dialect == Gemini then (if "role" in fields && fields["role"] == Str("model") then Assistant else User)
    else if fields["role"] == Str("system") then System
    else if fields["role"] == Str("assistant") then Assistant
    else if fields["role"] == Str("tool") then Tool
    else User
  }

  /** A message is read as its text, or else, where structured content is let in, as it stands. */
  lemma EntryIsRead(dialect: Dialect, entry: Json, structured: bool)
    requires dialect != Unknown
    ensures var m := ParseAnyEntry(dialect, entry, structured);
            (m.Some? <==> entry.Obj? && HasRole(dialect, entry.fields) && (structured || IsTextEntry(dialect, entry.fields))) &&
            (m.Some? ==>
              m.value == if IsTextEntry(dialect, entry.fields)
                         then Plain(RoleIn(dialect, entry.fields), Classify(TextOf(dialect, entry.fields)))
                         else Structured(RoleIn(dialect, entry.fields), entry.fields))
  {
    hide Classify;
  }

  /** The system prompt, where the dialect has one, is text or left out. */
  predicate SystemIsText(dialect: Dialect, body: Body) {
    match dialect
    case Anthropic => "system" !in body || body["system"] == Null || body["system"].Str?
    case Gemini =>
      "systemInstruction" !in body || body["systemInstruction"] == Null ||
      (body["systemInstruction"].Obj? &&
       var fields := body["systemInstruction"].fields;
       (fields.Keys == {"parts"} || fields.Keys == {"role", "parts"}) &&
       fields["parts"].Arr? && |fields["parts"].items| == 1 && fields["parts"].items[0].Obj? &&
       fields["parts"].items[0].fields.Keys == {"text"} && fields["parts"].items[0].fields["text"].Str?)
    case _ => true
  }

  function SystemIn(dialect: Dialect, body: Body): Option<string>
    requires SystemIsText(dialect, body)
  {
    match dialect
    case Anthropic => if "system" in body && body["system"] != Null then Some(body["system"].s) else None
    case Gemini =>
      if "systemInstruction" in body && body["systemInstruction"] != Null then
        Some(body["systemInstruction"].fields["parts"].items[0].fields["text"].s)
      else None
    case _ => None
  }

  lemma SystemIsRead(dialect: Dialect, body: Body)
    ensures ParseSystem(dialect, body) == if SystemIsText(dialect, body) then Some(SystemIn(dialect, body)) else None
  {
  }

  predicate HasEntries(dialect: Dialect, body: Body) {
    var key := if dialect == Gemini then "contents" else "messages";
    key in body && body[key].Arr?
  }

  function EntriesIn(dialect: Dialect, body: Body): seq<Json>
    requires HasEntries(dialect, body)
  {
    body[if dialect == Gemini then "contents" else "messages"].items
  }

  /** A body is accepted exactly when its system prompt, its list and each message in it can be read. */
  lemma BodyIsAccepted(dialect: Dialect, body: Body, structured: bool, model: Json, dump: Json -> string)
    ensures Parse(dialect, body, structured, model, dump).Some? <==>
            dialect != Unknown && SystemIsText(dialect, body) && HasEntries(dialect, body) &&
            forall e <- EntriesIn(dialect, body) ::
              e.Obj? && HasRole(dialect, e.fields) && (structured || IsTextEntry(dialect, e.fields))
  {
    hide ParseSystem, ParseAnyEntry, Classify, SystemIsText, SystemIn, IsTextEntry, HasRole, Truthy, Tools;
    SystemIsRead(dialect, body);
    if dialect != Unknown && HasEntries(dialect, body) {
      forall e | e in EntriesIn(dialect, body)
        ensures ParseAnyEntry(dialect, e, structured).Some? <==>
                e.Obj? && HasRole(dialect, e.fields) && (structured || IsTextEntry(dialect, e.fields))
      {
        EntryIsRead(dialect, e, structured);
      }
    }
  }

  /** What the request carries of an accepted body, field by field. */
  lemma FieldsAreRead(dialect: Dialect, body: Body, structured: bool, model: Json, dump: Json -> string)
    requires Parse(dialect, body, structured, model, dump).Some?
    ensures var r := Parse(dialect, body, structured, model, dump).value;
            r.dialect == dialect && r.breakpoint == None &&
            SystemIsText(dialect, body) && r.system == SystemIn(dialect, body) &&
            r.model == (if dialect == Gemini then model else if "model" in body then body["model"] else Null) &&
            r.tools == (if "tools" in body && body["tools"] != Null then Some(dump(body["tools"])) else None) &&
            (r.stream <==> dialect != Gemini && "stream" in body &&
                           body["stream"] !in {Null, Bool(false), Str(""), Arr([]), Obj(map[])} &&
                           !(body["stream"].Num? && body["stream"].mantissa == 0))
    ensures var r := Parse(dialect, body, structured, model, dump).value;
            HasEntries(dialect, body) && |r.messages| == |EntriesIn(dialect, body)| &&
            forall i :: 0 <= i < |r.messages| ==>
              ParseAnyEntry(dialect, EntriesIn(dialect, body)[i], structured) == Some(r.messages[i])
  {
    hide ParseSystem, ParseAnyEntry, SystemIsText, SystemIn;
    SystemIsRead(dialect, body);
  }

  // ----- When two bodies share a key -----------------------------------------

  /** `json.dumps` with sorted keys: different values differ in writing. */
  ghost predicate IsStableJson(dump: Json -> string) {
    forall a, b :: dump(a) == dump(b) ==> a == b
  }

  /** The entry is carried as it stands, and its JSON is exactly the text of the other. */
  predicate SpelledOut(dialect: Dialect, entry: Json, text: Json, dump: Json -> string) {
    entry.Obj? && text.Obj? && !IsTextEntry(dialect, entry.fields) && IsTextEntry(dialect, text.fields) &&
    HasRole(dialect, entry.fields) && HasRole(dialect, text.fields) &&
    RoleIn(dialect, entry.fields) == RoleIn(dialect, text.fields) &&
    TextOf(dialect, text.fields) == dump(entry)
  }

  /** Two messages count the same for a key when they are equal or one spells the other out as text. */
  predicate SameToKey(dialect: Dialect, a: Json, b: Json, dump: Json -> string) {
    a == b || SpelledOut(dialect, a, b, dump) || SpelledOut(dialect, b, a, dump)
  }

  lemma TextEntryIsItsText(dialect: Dialect, a: Body, b: Body)
    requires dialect != Unknown && IsTextEntry(dialect, a) && IsTextEntry(dialect, b)
    requires HasRole(dialect, a) && HasRole(dialect, b)
    ensures a == b <==> RoleIn(dialect, a) == RoleIn(dialect, b) && TextOf(dialect, a) == TextOf(dialect, b)
  {
    if dialect == Gemini {
      assert a == map["role" := a["role"], "parts" := a["parts"]] && b == map["role" := b["role"], "parts" := b["parts"]];
      var p, q := a["parts"].items[0].fields, b["parts"].items[0].fields;
      assert p == map["text" := p["text"]] && q == map["text" := q["text"]];
      assert a["parts"] == Arr([Obj(p)]) && b["parts"] == Arr([Obj(q)]);
    } else {
      assert a == map["role" := a["role"], "content" := a["content"]];
      assert b == map["role" := b["role"], "content" := b["content"]];
    }
  }

  lemma MessagesSayTheSame(dialect: Dialect, a: Json, b: Json, sa: bool, sb: bool, dump: Json -> string)
    requires dialect != Unknown && IsStableJson(dump)
    requires ParseAnyEntry(dialect, a, sa).Some? && ParseAnyEntry(dialect, b, sb).Some?
    ensures var m, n := ParseAnyEntry(dialect, a, sa).value, ParseAnyEntry(dialect, b, sb).value;
            m.role == n.role && m.Text(dump) == n.Text(dump) <==> SameToKey(dialect, a, b, dump)
  {
    hide ParseAnyEntry, Classify, Concat, IsTextEntry, HasRole, RoleIn;
    EntryIsRead(dialect, a, sa);
    EntryIsRead(dialect, b, sb);
    if IsTextEntry(dialect, a.fields) { ClassifySpells(TextOf(dialect, a.fields)); }
    if IsTextEntry(dialect, b.fields) { ClassifySpells(TextOf(dialect, b.fields)); }
    if IsTextEntry(dialect, a.fields) && IsTextEntry(dialect, b.fields) {
      TextEntryIsItsText(dialect, a.fields, b.fields);
    }
  }

  /** What of a body, besides its dialect, its key depends on. */
  predicate SameInBody(dialect: Dialect, a: Body, b: Body, modelA: Json, modelB: Json, dump: Json -> string) {
    (if dialect == Gemini then modelA == modelB else Get(a, "model") == Get(b, "model")) &&
    Get(a, "tools") == Get(b, "tools") &&
    SystemIsText(dialect, a) && SystemIsText(dialect, b) && SystemIn(dialect, a) == SystemIn(dialect, b) &&
    HasEntries(dialect, a) && HasEntries(dialect, b) &&
    var xs, ys := EntriesIn(dialect, a), EntriesIn(dialect, b);
    |xs| == |ys| && forall i :: 0 <= i < |xs| ==> SameToKey(dialect, xs[i], ys[i], dump)
  }

  /**
    * Two accepted bodies share a cache key exactly when they come from the same tenant in the same
    * dialect and agree on model, tools, system prompt and every message, a message that spells out
    * another as its text taken for that one. A missing field counts as null.
    */
  lemma BodyKeyIsExact(da: Dialect, a: Body, sa: bool, modelA: Json, ta: string,
                       db: Dialect, b: Body, sb: bool, modelB: Json, tb: string,
                       salt: string, dump: Json -> string, dumps: Payload -> string)
    requires IsStableJson(dump) && IsCanonicalJson(dumps)
    requires Parse(da, a, sa, modelA, dump).Some? && Parse(db, b, sb, modelB, dump).Some?
    ensures ComputeKey(Parse(da, a, sa, modelA, dump).value, TenantSalt(salt, ta), dump, dumps) ==
            ComputeKey(Parse(db, b, sb, modelB, dump).value, TenantSalt(salt, tb), dump, dumps)
            <==> ta == tb && da == db && SameInBody(da, a, b, modelA, modelB, dump)
  {
    hide ComputeKey, TenantSalt, Parse, ParseAnyEntry, SameToKey, IsCanonicalJson, SystemIsText, SystemIn;
    var r, q := Parse(da, a, sa, modelA, dump).value, Parse(db, b, sb, modelB, dump).value;
    KeyIsExact(r, q, salt, ta, tb, dump, dumps);
    FieldsAreRead(da, a, sa, modelA, dump);
    FieldsAreRead(db, b, sb, modelB, dump);
    BodyIsAccepted(da, a, sa, modelA, dump);
    if da == db {
      var xs, ys := EntriesIn(da, a), EntriesIn(da, b);
      forall i | 0 <= i < |xs| && i < |ys|
        ensures r.messages[i].role == q.messages[i].role && r.messages[i].Text(dump) == q.messages[i].Text(dump)
                <==> SameToKey(da, xs[i], ys[i], dump)
      {
        MessagesSayTheSame(da, xs[i], ys[i], sa, sb, dump);
      }
    }
  }

  /** Where only text is let in, the messages of two bodies that share a key are equal. */
  lemma TextBodyKeyIsExact(da: Dialect, a: Body, modelA: Json, ta: string, db: Dialect, b: Body, modelB: Json, tb: string,
                           salt: string, dump: Json -> string, dumps: Payload -> string)
    requires IsStableJson(dump) && IsCanonicalJson(dumps)
    requires Parse(da, a, false, modelA, dump).Some? && Parse(db, b, false, modelB, dump).Some?
    ensures SystemIsText(da, a) && SystemIsText(db, b) && HasEntries(da, a) && HasEntries(db, b)
    ensures ComputeKey(Parse(da, a, false, modelA, dump).value, TenantSalt(salt, ta), dump, dumps) ==
            ComputeKey(Parse(db, b, false, modelB, dump).value, TenantSalt(salt, tb), dump, dumps)
            <==> ta == tb && da == db && SystemIn(da, a) == SystemIn(db, b) && EntriesIn(da, a) == EntriesIn(db, b) &&
                 Get(a, "tools") == Get(b, "tools") &&
                 if da == Gemini then modelA == modelB else Get(a, "model") == Get(b, "model")
  {
    hide ComputeKey, TenantSalt, Parse, IsCanonicalJson, IsStableJson, SystemIsText, SystemIn, IsTextEntry, HasRole;
    BodyKeyIsExact(da, a, false, modelA, ta, db, b, false, modelB, tb, salt, dump, dumps);
    BodyIsAccepted(da, a, false, modelA, dump);
    BodyIsAccepted(db, b, false, modelB, dump);
    if da == db {
      var xs, ys := EntriesIn(da, a), EntriesIn(da, b);
      forall i | 0 <= i < |xs| && i < |ys| ensures SameToKey(da, xs[i], ys[i], dump) <==> xs[i] == ys[i] {
        assert xs[i] in xs && ys[i] in ys;
      }
    }
  }

  const PICTURE: Body :=
    map["role" := Str("user"), "content" := Arr([Obj(map["type" := Str("image")])])]

  const PICTURE_ASKED: Body := map["messages" := Arr([Obj(PICTURE)])]

  /** A message that spells out a picture's JSON as its text shares its key with the picture itself. */
  lemma SpelledOutSharesKey(salt: string, tenant: string, dump: Json -> string, dumps: Payload -> string)
    requires IsStableJson(dump) && IsCanonicalJson(dumps)
    ensures var spelled: Body := map["role" := Str("user"), "content" := Str(dump(Obj(PICTURE)))];
            var body: Body := map["messages" := Arr([Obj(spelled)])];
            var r, q := Parse(OpenAI, PICTURE_ASKED, true, Null, dump), Parse(OpenAI, body, true, Null, dump);
            body != PICTURE_ASKED && r.Some? && q.Some? &&
            ComputeKey(r.value, TenantSalt(salt, tenant), dump, dumps) ==
            ComputeKey(q.value, TenantSalt(salt, tenant), dump, dumps)
  {
    hide ComputeKey, TenantSalt, Parse, IsCanonicalJson, IsStableJson;
    var spelled: Body := map["role" := Str("user"), "content" := Str(dump(Obj(PICTURE)))];
    var body: Body := map["messages" := Arr([Obj(spelled)])];
    PictureIsSpelledOut(spelled, dump);
    assert EntriesIn(OpenAI, PICTURE_ASKED) == [Obj(PICTURE)] && EntriesIn(OpenAI, body) == [Obj(spelled)];
    BodyIsAccepted(OpenAI, PICTURE_ASKED, true, Null, dump);
    BodyIsAccepted(OpenAI, body, true, Null, dump);
    BodyKeyIsExact(OpenAI, PICTURE_ASKED, true, Null, tenant, OpenAI, body, true, Null, tenant, salt, dump, dumps);
  }

  lemma PictureIsSpelledOut(spelled: Body, dump: Json -> string)
    requires spelled == map["role" := Str("user"), "content" := Str(dump(Obj(PICTURE)))]
    ensures HasRole(OpenAI, PICTURE) && HasRole(OpenAI, spelled) && SameToKey(OpenAI, Obj(PICTURE), Obj(spelled), dump)
    ensures PICTURE != spelled && PICTURE_ASKED["messages"] != Arr([Obj(spelled)])
  {
    assert spelled.Keys == {"role", "content"} && spelled["content"].Str? && PICTURE["content"].Arr?;
    assert Arr([Obj(PICTURE)]).items[0] != Arr([Obj(spelled)]).items[0];
  }
}
