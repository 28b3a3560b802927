/** Which requests a pass leaves as they are, and so when a second pass changes nothing. */
module SettledPasses {
  import opened Text
  import opened Spans
  import opened Rewriting
  import opened Removal
  import opened Requests
  import opened Seams
  import opened SafeSeams
  import opened Compression
  import opened Chains
  import Lossless
  import Filler

  /** Prose a pass leaves alone: tidy, or evenly spaced without a droppable word. */
  predicate Leaves(pass: Pass, norm: string -> string, m: string) {
    match pass
    case LosslessPass => Lossless.Tidy(m)
    case FillerPass(fillers) => Filler.Spare(m, Among(norm, fillers))
  }

  predicate LeavesSpans(pass: Pass, norm: string -> string, spans: seq<Span>) {
    forall s <- spans :: s.mutable ==> Leaves(pass, norm, s.text)
  }

  predicate LeavesBlock(pass: Pass, norm: string -> string, b: Json) {
    IsTextBlock(b) ==> LeavesSpans(pass, norm, Scan(b.fields["text"].s))
  }

  predicate LeavesMessage(pass: Pass, norm: string -> string, m: Message) {
    match m
    case Plain(_, spans) => LeavesSpans(pass, norm, spans)
    case Structured(_, raw) =>
      "content" in raw && raw["content"].Arr? ==> forall b <- raw["content"].items :: LeavesBlock(pass, norm, b)
  }

  predicate LeavesRequest(pass: Pass, norm: string -> string, r: Request) {
    r.breakpoint.None? && (r.system.Some? ==> LeavesSpans(pass, norm, Scan(r.system.value))) &&
    forall i :: 0 <= i < |r.messages| ==> LeavesMessage(pass, norm, r.messages[i])
  }

  lemma LeavesIsFixed(pass: Pass, norm: string -> string, m: string)
    ensures Leaves(pass, norm, m) <==> ProseOf(pass, norm)(m) == m
  {
    hide Lossless.NormaliseWhitespace, Filler.FilterProse, Lossless.Tidy, Filler.Spare;
    match pass
    case LosslessPass => Lossless.NormalisedIsTidy(m);
    case FillerPass(fillers) => Filler.FilterProseSettled(m, Among(norm, fillers));
  }

  lemma LeavesIsSettled(pass: Pass, norm: string -> string, spans: seq<Span>)
    ensures LeavesSpans(pass, norm, spans) <==> Settled(ProseOf(pass, norm), spans)
  {
    hide Leaves;
    forall m ensures Leaves(pass, norm, m) <==> ProseOf(pass, norm)(m) == m { LeavesIsFixed(pass, norm, m); }
  }

  lemma TextIsSettled(pass: Pass, norm: string -> string, t: string)
    ensures CodeAware(ProseOf(pass, norm), t) == t <==> LeavesSpans(pass, norm, Scan(t))
  {
    hide LeavesSpans, CodeAware, Settled, Embeds;
    forall u ensures |ProseOf(pass, norm)(u)| <= |u| { ProseThins(pass, norm, u); }
    ProseThins(pass, norm, "");
    CodeAwareSettled(ProseOf(pass, norm), t);
    LeavesIsSettled(pass, norm, Scan(t));
  }

  lemma SpansAreSettled(pass: Pass, norm: string -> string, spans: seq<Span>)
    ensures RespanAll(ProseOf(pass, norm), spans) == spans <==> LeavesSpans(pass, norm, spans)
  {
    hide LeavesSpans;
    var prose := ProseOf(pass, norm);
    RespanAt(prose, spans);
    LeavesIsSettled(pass, norm, spans);
    if RespanAll(prose, spans) == spans {
      forall s | s in spans ensures s.mutable ==> prose(s.text) == s.text {
        var k :| 0 <= k < |spans| && spans[k] == s;
        assert Respan(prose, spans[k]) == spans[k];
      }
    }
  }

  lemma BlockIsSettled(pass: Pass, norm: string -> string, b: Json)
    ensures RewriteBlock(ProseOf(pass, norm), b) == b <==> LeavesBlock(pass, norm, b)
  {
    hide LeavesSpans, CodeAware;
    if IsTextBlock(b) {
      TextBlockChanges(ProseOf(pass, norm), b);
      TextIsSettled(pass, norm, b.fields["text"].s);
    }
  }

  lemma MessageIsSettled(pass: Pass, norm: string -> string, m: Message)
    ensures RewriteMessage(ProseOf(pass, norm), m) == m <==> LeavesMessage(pass, norm, m)
  {
    hide LeavesSpans, LeavesBlock, RewriteBlock;
    match m
    case Plain(_, spans) => SpansAreSettled(pass, norm, spans);
    case Structured(_, raw) =>
      if "content" in raw && raw["content"].Arr? {
        var items := raw["content"].items;
        var out := RewriteBlocks(ProseOf(pass, norm), items);
        forall b ensures RewriteBlock(ProseOf(pass, norm), b) == b <==> LeavesBlock(pass, norm, b) {
          BlockIsSettled(pass, norm, b);
        }
        BlocksAreSettled(pass, norm, items);
        assert raw["content" := Arr(out)]["content"] == Arr(out);
        if out == items { assert raw["content" := raw["content"]] == raw; }
      }
  }

  lemma BlocksAreSettled(pass: Pass, norm: string -> string, items: seq<Json>)
    requires forall b :: RewriteBlock(ProseOf(pass, norm), b) == b <==> LeavesBlock(pass, norm, b)
    ensures RewriteBlocks(ProseOf(pass, norm), items) == items <==> forall b <- items :: LeavesBlock(pass, norm, b)
  {
    hide LeavesBlock, RewriteBlock;
    var out := RewriteBlocks(ProseOf(pass, norm), items);
    if out == items {
      forall b | b in items ensures LeavesBlock(pass, norm, b) {
        var k :| 0 <= k < |items| && items[k] == b;
        assert RewriteBlock(ProseOf(pass, norm), items[k]) == items[k];
      }
    }
    if forall b <- items :: LeavesBlock(pass, norm, b) {
      forall k | 0 <= k < |items| ensures out[k] == items[k] { assert items[k] in items; }
    }
  }

  /** A pass returns a request unchanged exactly when it leaves all its prose alone and drops no breakpoint. */
  lemma PassIsSettled(pass: Pass, norm: string -> string, r: Request)
    ensures Rewrite(ProseOf(pass, norm), r) == r <==> LeavesRequest(pass, norm, r)
  {
    hide LeavesSpans, LeavesMessage, CodeAware, RewriteMessage;
    var out := RewriteMessages(ProseOf(pass, norm), r.messages);
    forall m ensures RewriteMessage(ProseOf(pass, norm), m) == m <==> LeavesMessage(pass, norm, m) {
      MessageIsSettled(pass, norm, m);
    }
    if r.system.Some? { TextIsSettled(pass, norm, r.system.value); }
    if out == r.messages {
      forall i | 0 <= i < |r.messages| ensures LeavesMessage(pass, norm, r.messages[i]) {
        assert out[i] == r.messages[i];
      }
    }
    if forall i :: 0 <= i < |r.messages| ==> LeavesMessage(pass, norm, r.messages[i]) {
      assert forall i :: 0 <= i < |r.messages| ==> out[i] == r.messages[i];
      assert out == r.messages;
    }
  }

  // ----- A second pass -------------------------------------------------------

  predicate TextBlocksLendNoTick(prose: string -> string, raw: map<string, Json>) {
    "content" in raw && raw["content"].Arr? ==>
      forall b <- raw["content"].items :: IsTextBlock(b) ==> LendsNoTick(prose, Scan(b.fields["text"].s))
  }

  /**
    * No prose of the system prompt or of a text block, once rewritten, hands a backtick to the
    * fence after it. The spans of plain messages are not classified again and need no condition.
    */
  predicate LendsNothing(prose: string -> string, r: Request) {
    (r.system.Some? ==> LendsNoTick(prose, Scan(r.system.value))) &&
    forall m <- r.messages :: m.Structured? ==> TextBlocksLendNoTick(prose, m.raw)
  }

  lemma ProseIsIdempotent(pass: Pass, norm: string -> string)
    ensures var prose := ProseOf(pass, norm);
            prose("") == "" && (forall u :: Gentle(prose, u)) && (forall u :: prose(prose(u)) == prose(u))
  {
    hide Gentle, Lossless.NormaliseWhitespace, Filler.FilterProse;
    match pass
    case LosslessPass =>
      NormalisingIsGentle();
      forall u { Lossless.NormaliseIdempotent(u); }
    case FillerPass(fillers) =>
      FilteringIsGentle(Among(norm, fillers));
      forall u { Filler.FilterProseIdempotent(u, Among(norm, fillers)); }
  }

  lemma MessageIdempotent(prose: string -> string, m: Message)
    requires prose("") == "" && (forall u :: Gentle(prose, u)) && (forall u :: prose(prose(u)) == prose(u))
    requires m.Structured? ==> TextBlocksLendNoTick(prose, m.raw)
    ensures RewriteMessage(prose, RewriteMessage(prose, m)) == RewriteMessage(prose, m)
  {
    hide Gentle, LendsNoTick, RewriteBlock;
    match m
    case Plain(_, spans) => RespanTwice(prose, spans);
    case Structured(_, raw) =>
      if "content" in raw && raw["content"].Arr? {
        var items := raw["content"].items;
        var once := RewriteBlocks(prose, items);
        forall k | 0 <= k < |items| ensures RewriteBlock(prose, once[k]) == once[k] {
          assert items[k] in items;
          BlockIdempotent(prose, items[k]);
        }
        assert RewriteBlocks(prose, once) == once;
        assert RewriteRaw(prose, raw)["content"] == Arr(once);
      }
  }

  lemma BlockIdempotent(prose: string -> string, b: Json)
    requires prose("") == "" && (forall u :: Gentle(prose, u)) && (forall u :: prose(prose(u)) == prose(u))
    requires IsTextBlock(b) ==> LendsNoTick(prose, Scan(b.fields["text"].s))
    ensures RewriteBlock(prose, RewriteBlock(prose, b)) == RewriteBlock(prose, b)
  {
    hide Gentle, LendsNoTick, CodeAware;
    if IsTextBlock(b) {
      CodeAwareIdempotent(prose, b.fields["text"].s);
    }
  }

  lemma LendsNothingIsIdempotent(pass: Pass, norm: string -> string, r: Request)
    requires LendsNothing(ProseOf(pass, norm), r)
    ensures var prose := ProseOf(pass, norm);
            Rewrite(prose, Rewrite(prose, r)) == Rewrite(prose, r)
  {
    hide Gentle, LendsNoTick, CodeAware, TextBlocksLendNoTick, RewriteMessage;
    var prose := ProseOf(pass, norm);
    ProseIsIdempotent(pass, norm);
    var once := RewriteMessages(prose, r.messages);
    forall i | 0 <= i < |once| ensures RewriteMessage(prose, once[i]) == once[i] {
      assert r.messages[i] in r.messages;
      MessageIdempotent(prose, r.messages[i]);
    }
    assert RewriteMessages(prose, once) == once;
    if r.system.Some? { CodeAwareIdempotent(prose, r.system.value); }
  }

  /**
    * Running a pass a second time changes nothing exactly when it leaves the prose of its own output,
    * classified again, alone; so it is when no rewritten prose hands a backtick to a fence.
    */
  lemma PassIdempotent(pass: Pass, norm: string -> string, r: Request)
    ensures var prose := ProseOf(pass, norm);
            (Rewrite(prose, Rewrite(prose, r)) == Rewrite(prose, r) <==> LeavesRequest(pass, norm, Rewrite(prose, r))) &&
            (LendsNothing(prose, r) ==> LeavesRequest(pass, norm, Rewrite(prose, r)))
  {
    hide LeavesRequest, Rewrite, LendsNothing;
    PassIsSettled(pass, norm, Rewrite(ProseOf(pass, norm), r));
    if LendsNothing(ProseOf(pass, norm), r) { LendsNothingIsIdempotent(pass, norm, r); }
  }

  /** Safe seams lend nothing to a filler pass. */
  lemma SafeLendsNothing(fillers: set<string>, norm: string -> string, r: Request)
    requires AllPlain(r) && SystemIsSafe(r, Among(norm, fillers))
    ensures LendsNothing(ProseOf(FillerPass(fillers), norm), r)
  {
    hide SeamsSafe, LendsNoTick;
    if r.system.Some? {
      ScanIsCanonical(r.system.value, 0);
      SafeLendsNoTick(Among(norm, fillers), false, Scan(r.system.value));
    }
  }
}
