/** Chains of passes (`parcus.compress.chain`) and why they preserve meaning. */
module Chains {
  import opened Text
  import opened Spans
  import opened Rewriting
  import opened Removal
  import opened Requests
  import opened Invariants
  import opened Seams
  import opened SafeSeams
  import opened Compression
  import Lossless
  import Filler

  datatype Pass = LosslessPass | FillerPass(fillers: set<string>)

  function ProseOf(pass: Pass, norm: string -> string): string -> string {
    match pass
    case LosslessPass => Lossless.NormaliseWhitespace
    case FillerPass(fillers) => Filler.Filtering(Among(norm, fillers))
  }

  /** The words a pass drops. */
  function DropsOf(pass: Pass, norm: string -> string): string -> bool {
    match pass
    case LosslessPass => Nothing()
    case FillerPass(fillers) => Among(norm, fillers)
  }

  function RunChain(passes: seq<Pass>, norm: string -> string, r: Request): Request {
    if passes == [] then r else RunChain(passes[1..], norm, Rewrite(ProseOf(passes[0], norm), r))
  }

  /** What a chain makes of one text that every pass classifies afresh. */
  function RunText(passes: seq<Pass>, norm: string -> string, t: string): string {
    if passes == [] then t else RunText(passes[1..], norm, CodeAware(ProseOf(passes[0], norm), t))
  }

  // ----- Which texts are safe ------------------------------------------------

  predicate Fills(passes: seq<Pass>) {
    passes != [] && (passes[0].FillerPass? || Fills(passes[1..]))
  }

  /** What the first filler pass drops. */
  function FirstDrops(passes: seq<Pass>, norm: string -> string): string -> bool {
    if passes == [] then Nothing()
    else if passes[0].FillerPass? then DropsOf(passes[0], norm)
    else FirstDrops(passes[1..], norm)
  }

  function AllFillers(passes: seq<Pass>): set<string> {
    if passes == [] then {}
    else (if passes[0].FillerPass? then passes[0].fillers else {}) + AllFillers(passes[1..])
  }

  /**
    * The seams of a text are safe for a chain that drops words of `drop` at most. A word that touches
    * a fence must stay; other words on a fence's line must be gone after the first filler pass, those
    * before the fence after the first pass. A chain without fillers only needs fences set off.
    */
  predicate SafeFor(passes: seq<Pass>, norm: string -> string, drop: string -> bool, t: string) {
    if passes == [] then true
    else if !Fills(passes) then Lossless.FencesSetOff("", Scan(t))
    else SeamsSafe(FirstDrops(passes, norm), DropsOf(passes[0], norm), drop, false, Scan(t))
  }

  predicate ChainSafe(passes: seq<Pass>, norm: string -> string, t: string) {
    SafeFor(passes, norm, Among(norm, AllFillers(passes)), t)
  }

  predicate DropsWithin(passes: seq<Pass>, norm: string -> string, drop: string -> bool, w: string) {
    forall p <- passes :: DropsOf(p, norm)(w) ==> drop(w)
  }

  lemma {:induction false} FillersAreDropped(passes: seq<Pass>, norm: string -> string, w: string)
    ensures DropsWithin(passes, norm, Among(norm, AllFillers(passes)), w)
  {
    if passes != [] {
      FillersAreDropped(passes[1..], norm, w);
      forall p | p in passes ensures DropsOf(p, norm)(w) ==> Among(norm, AllFillers(passes))(w) {
        if p != passes[0] { assert p in passes[1..]; }
      }
    }
  }

  /** The first pass finds the text safe, keeps all but the words it drops, and leaves it safe for the rest. */
  lemma SafeStep(passes: seq<Pass>, norm: string -> string, drop: string -> bool, t: string)
    requires passes != [] && SafeFor(passes, norm, drop, t) && forall w :: DropsWithin(passes, norm, drop, w)
    ensures var gone, u := DropsOf(passes[0], norm), CodeAware(ProseOf(passes[0], norm), t);
            Embeds(Words(t), Words(u), gone) && SafeFor(passes[1..], norm, drop, u) &&
            (if passes[0].LosslessPass? then Lossless.FencesSetOff("", Scan(t))
             else SeamsSafe(gone, gone, gone, false, Scan(t)))
  {
    hide SeamsSafe, Lossless.FencesSetOff, Words, Embeds, CodeAware, FirstDrops, ScanFrom;
    var gone, rest, first := DropsOf(passes[0], norm), passes[1..], FirstDrops(passes, norm);
    FirstOfFirst(passes, norm);
    forall w ensures gone(w) ==> drop(w) {
      assert DropsWithin(passes, norm, drop, w) && passes[0] in passes;
    }
    match passes[0]
    case LosslessPass =>
      if Fills(rest) {
        NormalisedSeamsAreSafe(t, first, drop);
        SeamsSafeMonotone(first, Nothing(), drop, first, DropsOf(rest[0], norm), drop, false, Scan(Lossless.NormaliseCodeAware(t)));
      } else {
        StaysSetOff(t);
      }
      EmbedsReflexive(Words(t), gone);
    case FillerPass(fillers) =>
      SeamsSafeMonotone(gone, gone, drop, gone, gone, gone, false, Scan(t));
      FillingIsSafe(t, gone);
      FilledSeamsAreSafe(t, gone, drop);
      var u := Filler.StripFillers(t, gone);
      if Fills(rest) {
        SeamsSafeMonotone(Nothing(), Nothing(), drop, FirstDrops(rest, norm), DropsOf(rest[0], norm), drop, false, Scan(u));
      } else {
        NormalisedSeamsAreSafe(u, Nothing(), drop);
      }
  }

  lemma FirstOfFirst(passes: seq<Pass>, norm: string -> string)
    requires passes != []
    ensures FirstDrops(passes, norm) == if passes[0].FillerPass? then DropsOf(passes[0], norm) else FirstDrops(passes[1..], norm)
  {
  }

  /** Fences set off stay so, and the words with them. */
  lemma StaysSetOff(t: string)
    requires Lossless.FencesSetOff("", Scan(t))
    ensures Words(Lossless.NormaliseCodeAware(t)) == Words(t)
    ensures Lossless.FencesSetOff("", Scan(Lossless.NormaliseCodeAware(t)))
  {
    hide Lossless.NormaliseCodeAware, Words, ScanFrom;
    ScanIsCanonical(t, 0);
    Lossless.WordsSurviveNormalisation(t);
    Lossless.SetOffMeansNoTick("", Scan(t));
    Lossless.NormaliseCodeAwareIdempotent(t);
    Lossless.WordsSurviveNormalisation(Lossless.NormaliseCodeAware(t));
  }

  /** A chain removes droppable words of a safe text and nothing else. */
  lemma {:induction false} TextKeepsMeaning(passes: seq<Pass>, norm: string -> string, drop: string -> bool, t: string)
    requires SafeFor(passes, norm, drop, t) && forall w :: DropsWithin(passes, norm, drop, w)
    ensures Embeds(Words(t), Words(RunText(passes, norm, t)), drop)
  {
    hide Embeds, Words, CodeAware, SafeFor, SeamsSafe;
    if passes == [] {
      EmbedsReflexive(Words(t), drop);
    } else {
      var gone, u := DropsOf(passes[0], norm), CodeAware(ProseOf(passes[0], norm), t);
      SafeStep(passes, norm, drop, t);
      forall w ensures (gone(w) ==> drop(w)) && DropsWithin(passes[1..], norm, drop, w) {
        assert DropsWithin(passes, norm, drop, w) && passes[0] in passes;
      }
      EmbedsMonotone(Words(t), Words(u), gone, drop);
      TextKeepsMeaning(passes[1..], norm, drop, u);
      EmbedsTransitive(Words(t), Words(u), Words(RunText(passes, norm, t)), drop);
    }
  }

  /** Fences that stand on lines of their own are safe for every chain. */
  predicate FencesStandAlone(prev: bool, spans: seq<Span>)
    decreases |spans|
  {
    spans == [] ||
    ((spans[0].mutable ==>
        (prev ==> AllBlank(FirstLine(spans[0].text))) && (|spans| > 1 ==> AllBlank(LastLine(spans[0].text))) &&
        (prev && |spans| > 1 ==> '\n' in spans[0].text)) &&
     FencesStandAlone(!spans[0].mutable, spans[1..]))
  }

  lemma {:induction false} StandAloneIsSafe(left: string -> bool, right: string -> bool, drop: string -> bool, prev: bool, spans: seq<Span>)
    requires FencesStandAlone(prev, spans)
    ensures SeamsSafe(left, right, drop, prev, spans)
    decreases |spans|
  {
    hide IsSpace, Words;
    if spans != [] {
      var m := spans[0].text;
      StandAloneIsSafe(left, right, drop, !spans[0].mutable, spans[1..]);
      FirstLineWords(m);
      LastLineWords(m);
      if AllBlank(FirstLine(m)) { WordsOfBlank(FirstLine(m)); }
      if AllBlank(LastLine(m)) { WordsOfBlank(LastLine(m)); }
    }
  }

  // ----- Chains over requests ------------------------------------------------

  lemma SystemStep(passes: seq<Pass>, norm: string -> string, drop: string -> bool, r: Request)
    requires passes != [] && forall w :: DropsWithin(passes, norm, drop, w)
    requires r.system.Some? ==> SafeFor(passes, norm, drop, r.system.value)
    ensures var next := Rewrite(ProseOf(passes[0], norm), r);
            next.system.Some? ==> SafeFor(passes[1..], norm, drop, next.system.value)
    ensures if passes[0].LosslessPass? then r.system.Some? ==> Lossless.FencesSetOff("", Scan(r.system.value))
            else SystemIsSafe(r, DropsOf(passes[0], norm))
  {
    hide SafeFor;
    if r.system.Some? { SafeStep(passes, norm, drop, r.system.value); }
  }

  /**
    * `ChainCompressor.compress`: thread the request through every pass and keep all the stats. When
    * the system prompt is safe for the chain every pass finds its own check to hold.
    */
  method ChainCompress(passes: seq<Pass>, norm: string -> string, r: Request) returns (current: Request, stats: seq<Stats>)
    ensures current == RunChain(passes, norm, r)
    ensures |stats| == |passes|
    ensures (r.system.Some? ==> ChainSafe(passes, norm, r.system.value)) ==> forall s <- stats :: s.ok
  {
    hide SafeFor, SystemIsSafe, SystemFencesHeld, Lossless.FencesSetOff, Rewrite;
    ghost var drop := Among(norm, AllFillers(passes));
    ghost var safe := r.system.Some? ==> ChainSafe(passes, norm, r.system.value);
    current, stats := r, [];
    assert passes[0..] == passes;
    forall w ensures DropsWithin(passes, norm, drop, w) { FillersAreDropped(passes, norm, w); }
    for k := 0 to |passes|
      invariant RunChain(passes[k..], norm, current) == RunChain(passes, norm, r)
      invariant |stats| == k
      invariant safe ==> forall s <- stats :: s.ok
      invariant safe ==> (current.system.Some? ==> SafeFor(passes[k..], norm, drop, current.system.value))
    {
      assert passes[k..][1..] == passes[k + 1..] && passes[k..][0] == passes[k];
      if safe {
        forall w ensures DropsWithin(passes[k..], norm, drop, w) { assert DropsWithin(passes, norm, drop, w); }
        SystemStep(passes[k..], norm, drop, current);
      }
      var passStats;
      match passes[k] {
        case LosslessPass => current, passStats := LosslessCompress(current);
        case FillerPass(fillers) => current, passStats := FillerCompress(current, norm, fillers);
      }
      stats := stats + [passStats];
    }
  }

  // ----- What a chain makes of each part -------------------------------------

  function RunBlock(passes: seq<Pass>, norm: string -> string, b: Json): Json {
    if IsTextBlock(b) then Obj(b.fields["text" := Str(RunText(passes, norm, b.fields["text"].s))]) else b
  }

  function RunMessage(passes: seq<Pass>, norm: string -> string, m: Message): Message {
    if passes == [] then m else RunMessage(passes[1..], norm, RewriteMessage(ProseOf(passes[0], norm), m))
  }

  lemma {:induction false} RunChainParts(passes: seq<Pass>, norm: string -> string, r: Request)
    ensures var out := RunChain(passes, norm, r);
            |out.messages| == |r.messages| &&
            (forall i :: 0 <= i < |r.messages| ==> out.messages[i] == RunMessage(passes, norm, r.messages[i])) &&
            out.system == (if r.system.Some? then Some(RunText(passes, norm, r.system.value)) else None) &&
            out == r.(messages := out.messages, system := out.system, breakpoint := out.breakpoint) &&
            out.breakpoint == (if passes == [] then r.breakpoint else None)
  {
    hide RewriteMessage, CodeAware;
    if passes != [] { RunChainParts(passes[1..], norm, Rewrite(ProseOf(passes[0], norm), r)); }
  }

  lemma RunBlockStep(passes: seq<Pass>, norm: string -> string, b: Json)
    requires passes != []
    ensures RunBlock(passes, norm, b) == RunBlock(passes[1..], norm, RewriteBlock(ProseOf(passes[0], norm), b))
  {
    hide CodeAware;
    if IsTextBlock(b) {
      var s := CodeAware(ProseOf(passes[0], norm), b.fields["text"].s);
      var fields := b.fields["text" := Str(s)];
      var last := Str(RunText(passes[1..], norm, s));
      assert fields["text" := last] == b.fields["text" := last];
    }
  }

  lemma RunNothing(norm: string -> string, b: Json)
    ensures RunBlock([], norm, b) == b
  {
    if IsTextBlock(b) { assert b.fields["text" := Str(b.fields["text"].s)] == b.fields; }
  }

  /** A chain changes nothing of structured content but the text of its text blocks. */
  lemma {:induction false} RunStructured(passes: seq<Pass>, norm: string -> string, role: Role, raw: map<string, Json>)
    ensures var out := RunMessage(passes, norm, Structured(role, raw));
            out.Structured? && out.role == role && out.raw.Keys == raw.Keys &&
            (forall key :: key in raw && key != "content" ==> out.raw[key] == raw[key]) &&
            ("content" in raw ==>
              if raw["content"].Arr? then
                out.raw["content"].Arr? && |out.raw["content"].items| == |raw["content"].items| &&
                forall k :: 0 <= k < |raw["content"].items| ==>
                  out.raw["content"].items[k] == RunBlock(passes, norm, raw["content"].items[k])
              else out.raw["content"] == raw["content"])
    decreases |passes|
  {
    hide RewriteBlock, RunBlock;
    if passes == [] {
      forall b ensures RunBlock([], norm, b) == b { RunNothing(norm, b); }
    } else {
      var prose := ProseOf(passes[0], norm);
      RunStructured(passes[1..], norm, role, RewriteRaw(prose, raw));
      forall b ensures RunBlock(passes, norm, b) == RunBlock(passes[1..], norm, RewriteBlock(prose, b)) {
        RunBlockStep(passes, norm, b);
      }
    }
  }

  /** A block of type "text" with a string for its text has that text run through the chain; all others stay. */
  lemma TextBlocksAreRun(passes: seq<Pass>, norm: string -> string, role: Role, raw: map<string, Json>, k: nat)
    requires "content" in raw && raw["content"].Arr? && k < |raw["content"].items|
    ensures var block, out := raw["content"].items[k], RunMessage(passes, norm, Structured(role, raw));
            out.Structured? && "content" in out.raw && out.raw["content"].Arr? && k < |out.raw["content"].items| &&
            out.raw["content"].items[k] ==
            if block.Obj? && "type" in block.fields && block.fields["type"] == Str("text") &&
               "text" in block.fields && block.fields["text"].Str?
            then Obj(block.fields["text" := Str(RunText(passes, norm, block.fields["text"].s))])
            else block
  {
    hide RunMessage, RunText;
    RunStructured(passes, norm, role, raw);
  }

  // ----- Meaning -------------------------------------------------------------

  /** A text block changes in its text only, and there as `same` says if the text is safe. */
  predicate BlockKept(o: Json, c: Json, same: Comparison, safe: string -> bool) {
    if !IsTextBlock(o) then c == o
    else IsTextBlock(c) && c.fields == o.fields["text" := c.fields["text"]] &&
         (safe(o.fields["text"].s) ==> same(o.fields["text"].s, c.fields["text"].s))
  }

  predicate ContentKept(o: Json, c: Json, same: Comparison, safe: string -> bool) {
    if !o.Arr? then c == o
    else c.Arr? && |c.items| == |o.items| && forall k :: 0 <= k < |o.items| ==> BlockKept(o.items[k], c.items[k], same, safe)
  }

  /** Same role and shape: code and other content as they were, prose as `same` says. */
  predicate MessageKept(o: Message, c: Message, same: Comparison, safe: string -> bool) {
    MessageAgrees(o, c, same) && o.Plain? == c.Plain? &&
    (forall k :: 0 <= k < |o.Spans()| ==> o.Spans()[k].mutable == c.Spans()[k].mutable) &&
    (o.Structured? && c.Structured? ==>
      o.raw.Keys == c.raw.Keys && (forall key :: key in o.raw && key != "content" ==> c.raw[key] == o.raw[key]) &&
      ("content" in o.raw ==> ContentKept(o.raw["content"], c.raw["content"], same, safe)))
  }

  /** Only allowed words are gone; roles, span flags, code and all other content are as they were. */
  predicate KeepsMeaning(o: Request, c: Request, drop: string -> bool, safe: string -> bool) {
    Equivalent(o, c, OnlyRemoved(drop)) &&
    forall i :: 0 <= i < |o.messages| ==> MessageKept(o.messages[i], c.messages[i], OnlyRemoved(drop), safe)
  }

  lemma ProseThins(pass: Pass, norm: string -> string, t: string)
    ensures var u := ProseOf(pass, norm)(t); Embeds(Words(t), Words(u), DropsOf(pass, norm)) && |u| <= |t|
    ensures ProseOf(pass, norm)("") == ""
  {
    hide Embeds, Words, Lossless.NormaliseWhitespace, Filler.FilterProse;
    match pass
    case LosslessPass =>
      Lossless.NormaliseKeepsWords(t);
      Lossless.NormaliseEmpty();
      EmbedsReflexive(Words(t), DropsOf(pass, norm));
    case FillerPass(fillers) =>
      Filler.FilterProseIsEmbedded(t, Among(norm, fillers));
      Filler.FilterProseIsEmbedded("", Among(norm, fillers));
  }

  predicate SpanKept(o: Span, c: Span, drop: string -> bool) {
    o.mutable == c.mutable && SpanAgrees(o, c, OnlyRemoved(drop))
  }

  lemma SpanKeptOnce(pass: Pass, norm: string -> string, drop: string -> bool, s: Span)
    requires forall w :: DropsOf(pass, norm)(w) ==> drop(w)
    ensures SpanKept(s, Respan(ProseOf(pass, norm), s), drop)
  {
    hide Embeds, Words, GreedyFrom;
    var u := ProseOf(pass, norm)(s.text);
    ProseThins(pass, norm, s.text);
    EmbedsMonotone(Words(s.text), Words(u), DropsOf(pass, norm), drop);
    OnlyRemovedIsEmbeds(drop, s.text, u);
  }

  lemma SpanKeptTransitive(a: Span, b: Span, c: Span, drop: string -> bool)
    requires SpanKept(a, b, drop) && SpanKept(b, c, drop)
    ensures SpanKept(a, c, drop)
  {
    hide Embeds, Words, GreedyFrom;
    if a.mutable {
      OnlyRemovedIsEmbeds(drop, a.text, b.text);
      OnlyRemovedIsEmbeds(drop, b.text, c.text);
      OnlyRemovedIsEmbeds(drop, a.text, c.text);
      EmbedsTransitive(Words(a.text), Words(b.text), Words(c.text), drop);
    }
  }

  lemma SpanKeptReflexive(s: Span, drop: string -> bool)
    ensures SpanKept(s, s, drop)
  {
    EmbedsReflexive(Words(s.text), drop);
    OnlyRemovedIsEmbeds(drop, s.text, s.text);
  }

  lemma {:induction false} RunPlain(passes: seq<Pass>, norm: string -> string, drop: string -> bool, m: Message)
    requires m.Plain? && forall w :: DropsWithin(passes, norm, drop, w)
    ensures var out := RunMessage(passes, norm, m);
            out.Plain? && out.role == m.role && |out.spans| == |m.spans| &&
            forall k :: 0 <= k < |m.spans| ==> SpanKept(m.spans[k], out.spans[k], drop)
    decreases |passes|
  {
    hide SpanKept;
    if passes == [] {
      forall s ensures SpanKept(s, s, drop) { SpanKeptReflexive(s, drop); }
    } else {
      var prose := ProseOf(passes[0], norm);
      var next := RewriteMessage(prose, m);
      forall w ensures (DropsOf(passes[0], norm)(w) ==> drop(w)) && DropsWithin(passes[1..], norm, drop, w) {
        assert DropsWithin(passes, norm, drop, w) && passes[0] in passes;
      }
      RespanAt(prose, m.spans);
      RunPlain(passes[1..], norm, drop, next);
      var out := RunMessage(passes, norm, m);
      forall k | 0 <= k < |m.spans| ensures SpanKept(m.spans[k], out.spans[k], drop) {
        SpanKeptOnce(passes[0], norm, drop, m.spans[k]);
        SpanKeptTransitive(m.spans[k], next.spans[k], out.spans[k], drop);
      }
    }
  }

  lemma BlockKeepsMeaning(passes: seq<Pass>, norm: string -> string, drop: string -> bool, b: Json)
    requires forall w :: DropsWithin(passes, norm, drop, w)
    ensures BlockKept(b, RunBlock(passes, norm, b), OnlyRemoved(drop), t => SafeFor(passes, norm, drop, t))
  {
    hide SafeFor, Embeds, Words, GreedyFrom, RunText;
    if IsTextBlock(b) {
      var t := b.fields["text"].s;
      OnlyRemovedIsEmbeds(drop, t, RunText(passes, norm, t));
      if SafeFor(passes, norm, drop, t) { TextKeepsMeaning(passes, norm, drop, t); }
    }
  }

  lemma MessageKeepsMeaning(passes: seq<Pass>, norm: string -> string, drop: string -> bool, m: Message)
    requires forall w :: DropsWithin(passes, norm, drop, w)
    ensures MessageKept(m, RunMessage(passes, norm, m), OnlyRemoved(drop), t => SafeFor(passes, norm, drop, t))
  {
    hide SafeFor, GreedyFrom, RunText, BlockKept, RunMessage, RunBlock;
    match m
    case Plain(_, _) => RunPlain(passes, norm, drop, m);
    case Structured(role, raw) =>
      RunStructured(passes, norm, role, raw);
      forall b ensures BlockKept(b, RunBlock(passes, norm, b), OnlyRemoved(drop), t => SafeFor(passes, norm, drop, t)) {
        BlockKeepsMeaning(passes, norm, drop, b);
      }
  }

  /**
    * A chain of lossless and filler passes whose allow-lists lie within `drop` removes allowed words
    * and nothing else, of every request whose system prompt is absent or safe for the chain; a text
    * block keeps its meaning when it is safe itself.
    */
  lemma ChainKeepsMeaning(passes: seq<Pass>, norm: string -> string, drop: string -> bool, r: Request)
    requires forall w :: DropsWithin(passes, norm, drop, w)
    requires r.system.Some? ==> SafeFor(passes, norm, drop, r.system.value)
    ensures KeepsMeaning(r, RunChain(passes, norm, r), drop, t => SafeFor(passes, norm, drop, t))
  {
    hide SafeFor, GreedyFrom, RunText, RunMessage, MessageAgrees, ContentKept, Words, Embeds;
    RunChainParts(passes, norm, r);
    forall m ensures MessageKept(m, RunMessage(passes, norm, m), OnlyRemoved(drop), t => SafeFor(passes, norm, drop, t)) {
      MessageKeepsMeaning(passes, norm, drop, m);
    }
    if r.system.Some? {
      var t := r.system.value;
      TextKeepsMeaning(passes, norm, drop, t);
      OnlyRemovedIsEmbeds(drop, t, RunText(passes, norm, t));
    }
  }

  lemma KeepsMeaningReflexive(r: Request, drop: string -> bool, safe: string -> bool)
    ensures KeepsMeaning(r, r, drop, safe)
  {
    hide GreedyFrom;
    forall t ensures OnlyRemoved(drop)(t, t) {
      EmbedsReflexive(Words(t), drop);
      OnlyRemovedIsEmbeds(drop, t, t);
    }
    forall b ensures BlockKept(b, b, OnlyRemoved(drop), safe) {
      if IsTextBlock(b) { assert b.fields["text" := b.fields["text"]] == b.fields; }
    }
  }

  /** One pass is a chain of one: its own exact condition is enough. */
  lemma PassKeepsMeaning(pass: Pass, norm: string -> string, r: Request)
    requires r.system.Some? ==>
               if pass.LosslessPass? then Lossless.FencesSetOff("", Scan(r.system.value))
               else SystemIsSafe(r, DropsOf(pass, norm))
    ensures var drop := DropsOf(pass, norm);
            KeepsMeaning(r, Rewrite(ProseOf(pass, norm), r), drop, t => SafeFor([pass], norm, drop, t))
  {
    hide KeepsMeaning, Rewrite, SeamsSafe, Lossless.FencesSetOff;
    var drop := DropsOf(pass, norm);
    assert [pass][1..] == [];
    if r.system.Some? { SafeForOne(pass, norm, r.system.value); }
    ChainKeepsMeaning([pass], norm, drop, r);
  }

  lemma SafeForOne(pass: Pass, norm: string -> string, t: string)
    ensures var drop := DropsOf(pass, norm);
            SafeFor([pass], norm, drop, t) <==>
            if pass.LosslessPass? then Lossless.FencesSetOff("", Scan(t)) else SeamsSafe(drop, drop, drop, false, Scan(t))
  {
    hide SeamsSafe, Lossless.FencesSetOff;
    var passes := [pass];
    assert passes[1..] == [] && passes[0] == pass && !Fills(passes[1..]);
    FirstOfFirst(passes, norm);
  }

  // ----- Length --------------------------------------------------------------

  predicate AllPlain(r: Request) {
    forall i :: 0 <= i < |r.messages| ==> r.messages[i].Plain?
  }

  /** No pass lengthens a text request, and so no chain does. */
  lemma {:induction false} ChainNeverLengthens(passes: seq<Pass>, norm: string -> string, r: Request, dump: Json -> string)
    requires AllPlain(r)
    ensures AllPlain(RunChain(passes, norm, r))
    ensures |RequestText(RunChain(passes, norm, r), dump)| <= |RequestText(r, dump)|
  {
    if passes != [] {
      hide MessagesText, CodeAware, Embeds;
      var prose := ProseOf(passes[0], norm);
      forall t ensures |prose(t)| <= |t| { ProseThins(passes[0], norm, t); }
      MessagesShrink(prose, r.messages, dump);
      if r.system.Some? { CodeAwareShrinks(prose, r.system.value); }
      ChainNeverLengthens(passes[1..], norm, Rewrite(prose, r), dump);
    }
  }

  lemma CodeAwareShrinks(prose: string -> string, t: string)
    requires forall u :: |prose(u)| <= |u|
    ensures |CodeAware(prose, t)| <= |t|
  {
    ClassifySpells(t);
    ConcatSettled(prose, Classify(t));
  }

  lemma {:induction false} MessagesShrink(prose: string -> string, ms: seq<Message>, dump: Json -> string)
    requires forall i :: 0 <= i < |ms| ==> ms[i].Plain?
    requires forall u :: |prose(u)| <= |u|
    ensures |MessagesText(RewriteMessages(prose, ms), dump)| <= |MessagesText(ms, dump)|
  {
    if ms != [] {
      ConcatSettled(prose, ms[0].spans);
      MessagesShrink(prose, ms[1..], dump);
      assert RewriteMessages(prose, ms)[1..] == RewriteMessages(prose, ms[1..]);
    }
  }
}
