/** The lossless and filler passes over whole requests, and chains of them. */
module Compression {
  import opened Text
  import opened Spans
  import opened Rewriting
  import opened Removal
  import opened Requests
  import opened Invariants
  import opened Seams
  import opened SafeSeams
  import opened SeamCounts
  import Lossless
  import Filler

  // ----- One rewriting of prose over a request -------------------------------

  predicate IsTextBlock(block: Json) {
    block.Obj? && "type" in block.fields && block.fields["type"] == Str("text") &&
    "text" in block.fields && block.fields["text"].Str?
  }

  function RewriteBlock(prose: string -> string, block: Json): Json {
    if IsTextBlock(block) then Obj(block.fields["text" := Str(CodeAware(prose, block.fields["text"].s))]) else block
  }

  function RewriteBlocks(prose: string -> string, blocks: seq<Json>): (out: seq<Json>)
    ensures |out| == |blocks|
    ensures forall k :: 0 <= k < |blocks| ==> out[k] == RewriteBlock(prose, blocks[k])
  {
    if blocks == [] then [] else [RewriteBlock(prose, blocks[0])] + RewriteBlocks(prose, blocks[1..])
  }

  /** Text blocks are rewritten, every other block stays verbatim. */
  function RewriteRaw(prose: string -> string, raw: map<string, Json>): map<string, Json> {
    if "content" in raw && raw["content"].Arr? then
      raw["content" := Arr(RewriteBlocks(prose, raw["content"].items))]
    else raw
  }

  function RewriteMessage(prose: string -> string, m: Message): Message {
    match m
    case Plain(role, spans) => Plain(role, RespanAll(prose, spans))
    case Structured(role, raw) => Structured(role, RewriteRaw(prose, raw))
  }

  function RewriteMessages(prose: string -> string, ms: seq<Message>): (out: seq<Message>)
    ensures |out| == |ms|
    ensures forall i :: 0 <= i < |ms| ==> out[i] == RewriteMessage(prose, ms[i])
  {
    if ms == [] then [] else [RewriteMessage(prose, ms[0])] + RewriteMessages(prose, ms[1..])
  }

  /** The request with its prose rewritten; a cache breakpoint is not carried over. */
  function Rewrite(prose: string -> string, r: Request): Request {
    r.(messages := RewriteMessages(prose, r.messages),
       system := if r.system.Some? then Some(CodeAware(prose, r.system.value)) else None,
       breakpoint := None)
  }

  lemma {:induction false} RespanAt(prose: string -> string, spans: seq<Span>)
    ensures |RespanAll(prose, spans)| == |spans|
    ensures forall k :: 0 <= k < |spans| ==> RespanAll(prose, spans)[k] == Respan(prose, spans[k])
  {
    if spans != [] { RespanAt(prose, spans[1..]); }
  }

  lemma {:induction false} RespanAppend(prose: string -> string, a: seq<Span>, s: Span)
    ensures RespanAll(prose, a + [s]) == RespanAll(prose, a) + [Respan(prose, s)]
  {
    RespanAt(prose, a + [s]);
    RespanAt(prose, a);
  }

  // ----- The loops -----------------------------------------------------------

  method RewriteSpans(prose: string -> string, spans: seq<Span>) returns (out: seq<Span>, touched: nat)
    ensures out == RespanAll(prose, spans)
    ensures touched == 0 <==> out == spans
  {
    out, touched := [], 0;
    for k := 0 to |spans|
      invariant out == RespanAll(prose, spans[..k])
      invariant touched == 0 <==> out == spans[..k]
    {
      assert spans[..k + 1] == spans[..k] + [spans[k]];
      RespanAppend(prose, spans[..k], spans[k]);
      RespanAt(prose, spans[..k]);
      var span := spans[k];
      if span.mutable {
        var rewritten := prose(span.text);
        if rewritten != span.text {
          touched := touched + 1;
          span := span.(text := rewritten);
        }
      }
      assert span == Respan(prose, spans[k]);
      AppendSame(out, spans[..k], span, spans[k]);
      out := out + [span];
    }
    assert spans[..|spans|] == spans;
  }

  lemma TextBlockChanges(prose: string -> string, block: Json)
    requires IsTextBlock(block)
    ensures var s := block.fields["text"].s;
            RewriteBlock(prose, block) == block <==> CodeAware(prose, s) == s
  {
    var fields, t := block.fields, CodeAware(prose, block.fields["text"].s);
    assert fields["text" := Str(t)]["text"] == Str(t);
    if t == fields["text"].s { assert fields["text" := Str(t)] == fields; }
  }

  /** One block, and whether it counts as touched. */
  method RewriteOneBlock(prose: string -> string, block: Json) returns (out: Json, touched: nat)
    ensures out == RewriteBlock(prose, block)
    ensures touched <= 1 && (touched == 0 <==> out == block)
  {
    hide CodeAware;
    out, touched := block, 0;
    if IsTextBlock(block) {
      var rewritten := CodeAware(prose, block.fields["text"].s);
      TextBlockChanges(prose, block);
      if rewritten != block.fields["text"].s {
        touched := 1;
        out := Obj(block.fields["text" := Str(rewritten)]);
      }
    }
  }

  method RewriteBlockList(prose: string -> string, content: seq<Json>) returns (newContent: seq<Json>, touched: nat)
    ensures newContent == RewriteBlocks(prose, content)
    ensures touched == 0 <==> newContent == content
  {
    hide RewriteBlock;
    newContent, touched := [], 0;
    for k := 0 to |content|
      invariant |newContent| == k
      invariant forall j :: 0 <= j < k ==> newContent[j] == RewriteBlock(prose, content[j])
      invariant touched == 0 <==> newContent == content[..k]
    {
      var block, changed := RewriteOneBlock(prose, content[k]);
      touched := touched + changed;
      assert content[..k + 1] == content[..k] + [content[k]];
      AppendSame(newContent, content[..k], block, content[k]);
      newContent := newContent + [block];
    }
    assert content[..|content|] == content;
  }

  /** Blocks of type "text" with a string for their text have it rewritten; all other content stays. */
  lemma TextBlocksAreRewritten(prose: string -> string, raw: map<string, Json>)
    ensures var out := RewriteRaw(prose, raw);
            out.Keys == raw.Keys &&
            (forall key :: key in raw && (key != "content" || !raw[key].Arr?) ==> out[key] == raw[key]) &&
            ("content" in raw && raw["content"].Arr? ==>
              out["content"].Arr? && |out["content"].items| == |raw["content"].items| &&
              forall k :: 0 <= k < |raw["content"].items| ==>
                var block := raw["content"].items[k];
                out["content"].items[k] ==
                if block.Obj? && "type" in block.fields && block.fields["type"] == Str("text") &&
                   "text" in block.fields && block.fields["text"].Str?
                then Obj(block.fields["text" := Str(CodeAware(prose, block.fields["text"].s))])
                else block)
  {
    hide CodeAware;
  }

  /** `_normalise_text_blocks` and `_strip_text_blocks`. */
  method RewriteTextBlocks(prose: string -> string, raw: map<string, Json>)
    returns (out: map<string, Json>, touched: nat)
    ensures out == RewriteRaw(prose, raw)
    ensures touched == 0 <==> out == raw
  {
    if "content" !in raw || !raw["content"].Arr? {
      return raw, 0;
    }
    var newContent;
    newContent, touched := RewriteBlockList(prose, raw["content"].items);
    out := raw["content" := Arr(newContent)];
    assert out["content"] == Arr(newContent);
    if touched == 0 {
      assert out == raw;
      return raw, 0;
    }
  }

  /** The loop of both passes: every message in turn, then the system prompt. */
  method RewriteRequest(prose: string -> string, r: Request) returns (out: Request, touched: nat)
    ensures out == Rewrite(prose, r)
    ensures touched == 0 <==> out == r.(breakpoint := None)
  {
    hide RespanAll, RewriteRaw, CodeAware;
    touched := 0;
    var newMessages: seq<Message> := [];
    for i := 0 to |r.messages|
      invariant |newMessages| == i
      invariant forall j :: 0 <= j < i ==> newMessages[j] == RewriteMessage(prose, r.messages[j])
      invariant touched == 0 <==> newMessages == r.messages[..i]
    {
      var m := r.messages[i];
      match m {
        case Structured(role, raw) =>
          var newRaw, blocks := RewriteTextBlocks(prose, raw);
          touched := touched + blocks;
          m := Structured(role, newRaw);
        case Plain(role, spans) =>
          var newSpans, changed := RewriteSpans(prose, spans);
          touched := touched + changed;
          m := Plain(role, newSpans);
      }
      assert r.messages[..i + 1] == r.messages[..i] + [r.messages[i]];
      AppendSame(newMessages, r.messages[..i], m, r.messages[i]);
      newMessages := newMessages + [m];
    }
    assert r.messages[..|r.messages|] == r.messages;
    assert newMessages == RewriteMessages(prose, r.messages);
    var newSystem := r.system;
    if r.system.Some? {
      var rebuilt := CodeAware(prose, r.system.value);
      if rebuilt != r.system.value {
        touched := touched + 1;
        newSystem := Some(rebuilt);
      }
    }
    out := Request(r.dialect, r.model, newMessages, newSystem, r.stream, r.tools, None);
  }

  // ----- Lossless: the self-check is exact -----------------------------------

  /** What a pass reports: the prose it changed, and whether its own check held. */
  datatype Stats = Stats(touched: nat, ok: bool)

  /** The self-check holds exactly when the system prompt is absent or its fences are set off. */
  lemma LosslessCheckIsExact(r: Request)
    ensures Equivalent(r, Rewrite(Lossless.NormaliseWhitespace, r), SameWords())
            <==> (r.system.Some? ==> Lossless.FencesSetOff("", Scan(r.system.value)))
  {
    var out := Rewrite(Lossless.NormaliseWhitespace, r);
    forall i | 0 <= i < |r.messages| ensures MessageAgrees(r.messages[i], out.messages[i], SameWords()) {
      forall t ensures SameWords()(t, Lossless.NormaliseWhitespace(t)) { Lossless.NormaliseKeepsWords(t); }
      RewriteAgrees(Lossless.NormaliseWhitespace, r.messages[i], SameWords());
    }
    if r.system.Some? { Lossless.WordsSurviveNormalisation(r.system.value); }
  }

  lemma RewriteAgrees(prose: string -> string, m: Message, same: Comparison)
    requires forall t :: same(t, prose(t))
    ensures MessageAgrees(m, RewriteMessage(prose, m), same)
  {
    RespanAt(prose, m.Spans());
  }

  /** `LosslessCompressor.compress` with its live self-check. */
  method LosslessCompress(r: Request) returns (out: Request, stats: Stats)
    ensures out == Rewrite(Lossless.NormaliseWhitespace, r)
    ensures stats.touched == 0 <==> out == r.(breakpoint := None)
    ensures stats.ok <==> (r.system.Some? ==> Lossless.FencesSetOff("", Scan(r.system.value)))
  {
    var touched;
    out, touched := RewriteRequest(Lossless.NormaliseWhitespace, r);
    var issues := Violations(r, out, SameWords());
    LosslessCheckIsExact(r);
    stats := Stats(touched, issues == []);
  }

  // ----- Fillers -------------------------------------------------------------

  /** Whether the system prompt's seams are safe for a pass that drops these words. */
  predicate SystemIsSafe(r: Request, drop: string -> bool) {
    r.system.Some? ==> SeamsSafe(drop, drop, drop, false, Scan(r.system.value))
  }

  /** No word of the system prompt that holds a fence may be dropped. */
  ghost predicate SystemFencesHeld(r: Request, drop: string -> bool) {
    r.system.Some? ==> FencesHeld(Words(r.system.value), drop)
  }

  /**
    * The filler pass's check holds when the system prompt is absent or its seams are safe, and on
    * prompts none of whose fence-holding words is droppable only then. Messages always pass.
    */
  lemma FillerCheckIsExact(r: Request, drop: string -> bool)
    ensures var ok := Equivalent(r, Rewrite(Filler.Filtering(drop), r), OnlyRemoved(drop));
            (SystemIsSafe(r, drop) ==> ok) && (SystemFencesHeld(r, drop) ==> (ok <==> SystemIsSafe(r, drop)))
  {
    hide Embeds, Filler.FilterProse, GreedyFrom, SeamsSafe, Words, FencesHeld;
    var out := Rewrite(Filler.Filtering(drop), r);
    forall i | 0 <= i < |r.messages| ensures MessageAgrees(r.messages[i], out.messages[i], OnlyRemoved(drop)) {
      forall t ensures OnlyRemoved(drop)(t, Filler.Filtering(drop)(t)) {
        Filler.FilterProseIsEmbedded(t, drop);
        OnlyRemovedIsEmbeds(drop, t, Filler.FilterProse(t, drop));
      }
      RewriteAgrees(Filler.Filtering(drop), r.messages[i], OnlyRemoved(drop));
    }
    if r.system.Some? {
      var t := r.system.value;
      OnlyRemovedIsEmbeds(drop, t, Filler.StripFillers(t, drop));
      if SystemIsSafe(r, drop) { FillingIsSafe(t, drop); }
      if SystemFencesHeld(r, drop) { FillingIsSafeIff(t, drop); }
    }
  }

  /** `FillerCompressor.compress` with its live self-check. */
  method FillerCompress(r: Request, norm: string -> string, fillers: set<string>) returns (out: Request, stats: Stats)
    ensures out == Rewrite(Filler.Filtering(Among(norm, fillers)), r)
    ensures stats.touched == 0 <==> out == r.(breakpoint := None)
    ensures stats.ok <==> Equivalent(r, out, OnlyRemoved(Among(norm, fillers)))
    ensures SystemIsSafe(r, Among(norm, fillers)) ==> stats.ok
    ensures SystemFencesHeld(r, Among(norm, fillers)) ==> (stats.ok <==> SystemIsSafe(r, Among(norm, fillers)))
  {
    var prose := Filler.Filtering(Among(norm, fillers));
    var touched;
    out, touched := RewriteRequest(prose, r);
    var issues := Violations(r, out, OnlyRemoved(Among(norm, fillers)));
    stats := Stats(touched, issues == []);
    FillerCheckIsExact(r, Among(norm, fillers));
  }
}
