/**
  * A request on its way out (`ProxyEngine._compress_request`): parsed, compressed, kept only if it
  * costs no more, and written back into the body it came from.
  */
module Pipeline {
  import opened Spans
  import opened Requests
  import opened Removal
  import opened Compression
  import opened Chains
  import opened Dialects
  import Dedup

  /** The token counter, of which nothing is assumed. */
  type Tokenizer = (string, Json) -> nat

  function Tokens(count: Tokenizer, r: Request, dump: Json -> string): nat {
    count(RequestText(r, dump), r.model)
  }

  /** The never-cost-more guard. */
  function Cheaper(count: Tokenizer, working: Request, compressed: Request, dump: Json -> string): (chosen: Request)
    ensures chosen == working || chosen == compressed
    ensures Tokens(count, chosen, dump) <= Tokens(count, working, dump)
    ensures chosen == compressed <== count(RequestText(compressed, dump), compressed.model) <= count(RequestText(working, dump), working.model)
  {
    if Tokens(count, compressed, dump) > Tokens(count, working, dump) then working else compressed
  }

  function Outbound(passes: seq<Pass>, norm: string -> string, count: Tokenizer, working: Request, dump: Json -> string): Request {
    Cheaper(count, working, RunChain(passes, norm, working), dump)
  }

  /** `_compress_request`, without a cache breakpoint. */
  method CompressRequest(passes: seq<Pass>, norm: string -> string, count: Tokenizer, working: Request, original: Body, dump: Json -> string)
    returns (body: Body, chosen: Request)
    ensures chosen == Outbound(passes, norm, count, working, dump)
    ensures body == Serialize(chosen, original)
    ensures Tokens(count, chosen, dump) <= Tokens(count, working, dump)
  {
    var compressed, _ := ChainCompress(passes, norm, working);
    if count(RequestText(compressed, dump), compressed.model) > count(RequestText(working, dump), working.model) {
      chosen := working;
    } else {
      chosen := compressed;
    }
    body := SerializeBody(chosen, original);
  }

  // ----- What reaches the provider -------------------------------------------

  /** Rewriting prose leaves a message readable. */
  lemma RewriteRereads(prose: string -> string, dialect: Dialect, m: Message, structured: bool)
    requires Rereads(dialect, m, structured)
    ensures Rereads(dialect, RewriteMessage(prose, m), structured)
  {
    hide RewriteBlocks, Classify, GeminiText;
    if m.Structured? {
      var raw := RewriteRaw(prose, m.raw);
      assert raw.Keys == m.raw.Keys;
      assert "role" in raw ==> raw["role"] == m.raw["role"];
      if dialect == Gemini && raw.Keys == {"role", "parts"} { assert "content" !in raw; }
    }
  }

  lemma {:induction false} RunRereads(passes: seq<Pass>, norm: string -> string, dialect: Dialect, m: Message, structured: bool)
    requires Rereads(dialect, m, structured)
    ensures Rereads(dialect, RunMessage(passes, norm, m), structured)
  {
    hide Rereads, RewriteMessage;
    if passes != [] {
      RewriteRereads(ProseOf(passes[0], norm), dialect, m, structured);
      RunRereads(passes[1..], norm, dialect, RewriteMessage(ProseOf(passes[0], norm), m), structured);
    }
  }

  /** A compressed request is still one that could have been read from the body. */
  lemma ChainKeepsReadable(passes: seq<Pass>, norm: string -> string, r: Request, body: Body, structured: bool, model: Json, dump: Json -> string)
    requires IsReadable(r, body, structured, model, dump)
    ensures IsReadable(RunChain(passes, norm, r), body, structured, model, dump)
  {
    hide RunChain, ParseSystem, Rereads, RunMessage, RunText;
    RunChainParts(passes, norm, r);
    forall i | 0 <= i < |r.messages| ensures Rereads(r.dialect, RunMessage(passes, norm, r.messages[i]), structured) {
      RunRereads(passes, norm, r.dialect, r.messages[i], structured);
    }
  }

  /** The same request, its texts perhaps cut into other spans. */
  predicate SameTexts(a: Request, b: Request, dump: Json -> string) {
    a == b.(messages := a.messages) && |a.messages| == |b.messages| &&
    forall i :: 0 <= i < |b.messages| ==>
      a.messages[i].role == b.messages[i].role && a.messages[i].Text(dump) == b.messages[i].Text(dump) &&
      (b.messages[i].Structured? ==> a.messages[i] == b.messages[i])
  }

  function SystemKey(dialect: Dialect): string {
    if dialect == Gemini then "systemInstruction" else "system"
  }

  lemma OnlyTextFieldsChange(dialect: Dialect, body: Body, structured: bool, model: Json, dump: Json -> string, sent: Request)
    requires Parse(dialect, body, structured, model, dump).Some?
    requires sent.dialect == dialect && (sent.system.Some? ==> Parse(dialect, body, structured, model, dump).value.system.Some?)
    ensures Serialize(sent, body).Keys == body.Keys
    ensures forall key <- body :: key != EntriesKey(dialect) && key != SystemKey(dialect) ==> Serialize(sent, body)[key] == body[key]
  {
    hide ParseEntries, RenderEntries;
    assert EntriesKey(dialect) in body;
    assert sent.system.Some? ==> SystemKey(dialect) in body;
  }

  /** What the provider reads from a request sent in a body. */
  predicate ReadsBack(dialect: Dialect, body: Body, structured: bool, model: Json, dump: Json -> string, out: Request) {
    var sent := Serialize(out, body);
    var read := Parse(dialect, sent, structured, model, dump);
    read.Some? && SameTexts(read.value, out, dump) && sent.Keys == body.Keys &&
    forall key <- body :: key != EntriesKey(dialect) && key != SystemKey(dialect) ==> sent[key] == body[key]
  }

  /** It reads back, and counts the same. */
  lemma OutboundIsReadable(dialect: Dialect, body: Body, structured: bool, model: Json, dump: Json -> string, out: Request, count: Tokenizer)
    requires Parse(dialect, body, structured, model, dump).Some?
    requires IsReadable(out, body, structured, model, dump) && out.dialect == dialect
    requires out.system.None? == Parse(dialect, body, structured, model, dump).value.system.None?
    ensures ReadsBack(dialect, body, structured, model, dump, out)
    ensures Tokens(count, Parse(dialect, Serialize(out, body), structured, model, dump).value, dump) == Tokens(count, out, dump)
  {
    hide Parse, Serialize, EntriesKey, SystemKey, Rereads;
    ParseUndoesSerialize(out, body, structured, model, dump);
    OnlyTextFieldsChange(dialect, body, structured, model, dump, out);
    SameMessagesText(Parse(dialect, Serialize(out, body), structured, model, dump).value.messages, out.messages, dump);
  }

  /**
    * End to end, for every body that is accepted and whose system prompt is absent or safe for the
    * chain: what the provider reads differs from what the client wrote by droppable words and
    * whitespace of prose alone, costs no more tokens, and is no longer if all turns are text.
    */
  lemma ProviderReadsAllowedText(dialect: Dialect, body: Body, structured: bool, model: Json, passes: seq<Pass>,
                                 norm: string -> string, drop: string -> bool, count: Tokenizer, dump: Json -> string)
    requires Parse(dialect, body, structured, model, dump).Some?
    requires var r := Parse(dialect, body, structured, model, dump).value;
             r.system.Some? ==> SafeFor(passes, norm, drop, r.system.value)
    requires forall w :: DropsWithin(passes, norm, drop, w)
    ensures var r := Parse(dialect, body, structured, model, dump).value;
            var out := Outbound(passes, norm, count, r, dump);
            ReadsBack(dialect, body, structured, model, dump, out) &&
            KeepsMeaning(r, out, drop, t => SafeFor(passes, norm, drop, t)) &&
            (AllPlain(r) ==> |RequestText(out, dump)| <= |RequestText(r, dump)|) &&
            Tokens(count, Parse(dialect, Serialize(out, body), structured, model, dump).value, dump) <= Tokens(count, r, dump)
  {
    hide Parse, Serialize, RunChain, KeepsMeaning, SafeFor, ReadsBack, MessagesText, IsReadable, RunText, RunMessage;
    var r := Parse(dialect, body, structured, model, dump).value;
    var out := Outbound(passes, norm, count, r, dump);
    ParsedIsReadable(dialect, body, structured, model, dump);
    ParsedDialect(dialect, body, structured, model, dump);
    RunChainParts(passes, norm, r);
    ChainKeepsReadable(passes, norm, r, body, structured, model, dump);
    ChainKeepsMeaning(passes, norm, drop, r);
    KeepsMeaningReflexive(r, drop, t => SafeFor(passes, norm, drop, t));
    if AllPlain(r) { ChainNeverLengthens(passes, norm, r, dump); }
    OutboundIsReadable(dialect, body, structured, model, dump, out, count);
  }

  lemma ParsedDialect(dialect: Dialect, body: Body, structured: bool, model: Json, dump: Json -> string)
    requires Parse(dialect, body, structured, model, dump).Some?
    ensures Parse(dialect, body, structured, model, dump).value.dialect == dialect
  {
  }

  lemma {:induction false} SameMessagesText(a: seq<Message>, b: seq<Message>, dump: Json -> string)
    requires |a| == |b| && forall i :: 0 <= i < |a| ==> a[i].Text(dump) == b[i].Text(dump)
    ensures MessagesText(a, dump) == MessagesText(b, dump)
  {
    if a != [] { SameMessagesText(a[1..], b[1..], dump); }
  }

  /** When the guard discards the compression, the body goes out as it came in. */
  lemma DiscardedCompressionChangesNothing(dialect: Dialect, body: Body, structured: bool, model: Json, passes: seq<Pass>,
                                           norm: string -> string, count: Tokenizer, dump: Json -> string)
    requires Parse(dialect, body, structured, model, dump).Some? && !SystemNamesRole(dialect, body)
    requires var r := Parse(dialect, body, structured, model, dump).value;
             Tokens(count, RunChain(passes, norm, r), dump) > Tokens(count, r, dump)
    ensures Serialize(Outbound(passes, norm, count, Parse(dialect, body, structured, model, dump).value, dump), body) == body
  {
    hide Parse, Serialize, RunChain;
    SerializeUndoesParse(dialect, body, structured, model, dump);
  }

  // ----- Deduplicating what was parsed ---------------------------------------

  lemma {:induction false} ParsedFlags(dialect: Dialect, entries: seq<Json>, structured: bool)
    requires ParseEntries(dialect, entries, structured).Some?
    ensures Dedup.FlagsFollowText(Dedup.PlainSpans(ParseEntries(dialect, entries, structured).value))
  {
    hide Classify, IsClosedFence, TextRoles;
    if entries != [] {
      ParsedFlags(dialect, entries[1..], structured);
      var ms := ParseEntries(dialect, entries, structured).value;
      assert ms[1..] == ParseEntries(dialect, entries[1..], structured).value;
      EntryFlags(dialect, entries[0], structured);
    }
  }

  lemma EntryFlags(dialect: Dialect, entry: Json, structured: bool)
    requires ParseAnyEntry(dialect, entry, structured).Some?
    ensures Dedup.FlagsFollowText(ParseAnyEntry(dialect, entry, structured).value.Spans())
  {
    hide Classify, IsClosedFence, TextRoles;
    var m := ParseAnyEntry(dialect, entry, structured).value;
    if m.Plain? {
      Dedup.ClassifiedFlags(if dialect == Gemini then GeminiText(entry).value else entry.fields["content"].s);
    }
  }

  /** The blocks of any parsed request can be put back in place, each as it was classified. */
  lemma DedupOfParsedIsReversible(c: Dedup.Config, dialect: Dialect, body: Body, structured: bool, model: Json, dump: Json -> string)
    requires Parse(dialect, body, structured, model, dump).Some?
    ensures var r := Parse(dialect, body, structured, model, dump).value;
            var spans, out := Dedup.PlainSpans(r.messages), Dedup.PlainSpans(Dedup.DedupRequest(c, r).messages);
            var p := Dedup.BackPointers(c, spans);
            |out| == |p| && (forall k :: 0 <= k < |p| && p[k].Some? ==> p[k].value < |out|) &&
            Dedup.RestoreSpans(out, p) == spans
  {
    hide ParseEntries, ParseSystem, EntriesKey;
    var r := Parse(dialect, body, structured, model, dump).value;
    ParsedFlags(dialect, Get(body, EntriesKey(dialect)).items, structured);
    Dedup.PlainSpansDedup(c, [], r.messages);
    Dedup.RestoreSpansIsExact(c, Dedup.PlainSpans(r.messages));
  }
}
