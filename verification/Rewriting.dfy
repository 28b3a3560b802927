/**
  * Rewriting the prose of a text and leaving its fenced code alone: the shape shared by
  * `normalise_code_aware` and `strip_fillers`, for any rewriting of prose.
  */
module Rewriting {
  import opened Text
  import opened Spans

  function Respan(prose: string -> string, span: Span): Span {
    if span.mutable then span.(text := prose(span.text)) else span
  }

  function RespanAll(prose: string -> string, spans: seq<Span>): seq<Span> {
    if spans == [] then [] else [Respan(prose, spans[0])] + RespanAll(prose, spans[1..])
  }

  /** Classify, rewrite the mutable spans, and join the result. */
  function CodeAware(prose: string -> string, t: string): string {
    Concat(RespanAll(prose, Classify(t)))
  }

  function DropEmpty(spans: seq<Span>): seq<Span> {
    if spans == [] then []
    else if spans[0].text == "" then DropEmpty(spans[1..])
    else [spans[0]] + DropEmpty(spans[1..])
  }

  /** A classification is never empty: nothing at all is one empty prose span. */
  function OrBlank(spans: seq<Span>): seq<Span> {
    if spans == [] then [Span("", true)] else spans
  }

  /** The rewriting puts no fence and no closed pair of fences where there was none. */
  ghost predicate Gentle(prose: string -> string, t: string) {
    (HasFence(prose(t)) ==> HasFence(t)) && (HasClosedPair(prose(t)) ==> HasClosedPair(t))
  }

  /** No rewritten prose hands a backtick to the fence after it. */
  predicate LendsNoTick(prose: string -> string, spans: seq<Span>) {
    spans == [] ||
    ((spans[0].mutable && |spans| > 1 ==> !EndsInTick(prose(spans[0].text))) &&
     LendsNoTick(prose, spans[1..]))
  }

  lemma {:induction false} ConcatDropEmpty(spans: seq<Span>)
    ensures Concat(DropEmpty(spans)) == Concat(spans)
  {
    if spans != [] {
      ConcatDropEmpty(spans[1..]);
      var rest := DropEmpty(spans[1..]);
      assert ([spans[0]] + rest)[1..] == rest;
    }
  }

  lemma {:induction false} RespanCanonical(prose: string -> string, spans: seq<Span>)
    requires Canonical(spans) && forall t :: Gentle(prose, t)
    ensures Canonical(DropEmpty(RespanAll(prose, spans))) <==> LendsNoTick(prose, spans)
  {
    hide IsClosedFence, HasFence, HasClosedPair, EndsInTick;
    if spans != [] {
      RespanCanonical(prose, spans[1..]);
      var s, rest := Respan(prose, spans[0]), RespanAll(prose, spans[1..]);
      assert RespanAll(prose, spans)[1..] == rest;
      var kept := DropEmpty(rest);
      assert ([s] + kept)[1..] == kept;
      assert Gentle(prose, spans[0].text);
      if |spans| == 1 {
        assert spans[1..] == [] && kept == [];
      } else if s.mutable {
        assert rest[0] == spans[1];
        assert spans[1..][0] == spans[1] && kept[0] == spans[1];
        TickNeedsText(s.text);
      }
    }
  }

  lemma TickNeedsText(t: string)
    ensures EndsInTick(t) ==> t != ""
  {
  }

  lemma CodeAwareSpells(prose: string -> string, t: string)
    requires prose("") == ""
    ensures CodeAware(prose, t) == Concat(DropEmpty(RespanAll(prose, Scan(t))))
    ensures Classify(t) == OrBlank(Scan(t))
  {
    ConcatDropEmpty(RespanAll(prose, Scan(t)));
    ClassifySpells(t);
    if t == "" {
      assert RespanAll(prose, [Span("", true)]) == [Span("", true)];
    }
  }

  /**
    * Classifying the rewritten text gives the rewritten spans, empty ones dropped, exactly when
    * no prose hands a backtick to the fence after it.
    */
  lemma ClassifyCommutes(prose: string -> string, t: string)
    requires prose("") == "" && forall u :: Gentle(prose, u)
    ensures Classify(CodeAware(prose, t)) == OrBlank(DropEmpty(RespanAll(prose, Scan(t))))
            <==> LendsNoTick(prose, Scan(t))
  {
    var out := DropEmpty(RespanAll(prose, Scan(t)));
    CodeAwareSpells(prose, t);
    CodeAwareSpells(prose, Concat(out));
    ScanIsCanonical(t, 0);
    RespanCanonical(prose, Scan(t));
    DropEmptyLeavesText(RespanAll(prose, Scan(t)));
    if LendsNoTick(prose, Scan(t)) {
      CanonicalIsUnique(out);
    } else if Classify(Concat(out)) == OrBlank(out) {
      ScanIsCanonical(Concat(out), 0);
    }
  }

  lemma {:induction false} DropEmptyLeavesText(spans: seq<Span>)
    ensures forall s <- DropEmpty(spans) :: s.text != ""
  {
    if spans != [] { DropEmptyLeavesText(spans[1..]); }
  }

  /** Rewriting twice is rewriting once, when that holds of prose and no tick is lent. */
  lemma CodeAwareIdempotent(prose: string -> string, t: string)
    requires prose("") == "" && (forall u :: Gentle(prose, u)) && (forall u :: prose(prose(u)) == prose(u))
    requires LendsNoTick(prose, Scan(t))
    ensures CodeAware(prose, CodeAware(prose, t)) == CodeAware(prose, t)
  {
    var once := RespanAll(prose, Scan(t));
    ClassifyCommutes(prose, t);
    CodeAwareSpells(prose, t);
    RespanTwice(prose, Scan(t));
    RespanDropEmpty(prose, once);
    ConcatDropEmpty(once);
    if DropEmpty(once) == [] {
      assert RespanAll(prose, [Span("", true)]) == [Span("", true)];
    }
  }

  lemma {:induction false} RespanTwice(prose: string -> string, spans: seq<Span>)
    requires forall u :: prose(prose(u)) == prose(u)
    ensures RespanAll(prose, RespanAll(prose, spans)) == RespanAll(prose, spans)
  {
    if spans != [] {
      RespanTwice(prose, spans[1..]);
      assert RespanAll(prose, spans)[1..] == RespanAll(prose, spans[1..]);
    }
  }

  lemma {:induction false} RespanDropEmpty(prose: string -> string, spans: seq<Span>)
    requires prose("") == ""
    ensures Concat(RespanAll(prose, DropEmpty(spans))) == Concat(RespanAll(prose, spans))
  {
    if spans != [] {
      RespanDropEmpty(prose, spans[1..]);
      var kept := DropEmpty(spans[1..]);
      assert ([spans[0]] + kept)[1..] == kept;
      assert RespanAll(prose, spans)[1..] == RespanAll(prose, spans[1..]);
      assert RespanAll(prose, [spans[0]] + kept)[1..] == RespanAll(prose, kept);
    }
  }

  // ----- Texts left as they are ----------------------------------------------

  /** The rewriting leaves every prose span alone. */
  predicate Settled(prose: string -> string, spans: seq<Span>) {
    forall s <- spans :: s.mutable ==> prose(s.text) == s.text
  }

  lemma {:induction false} ConcatSettled(prose: string -> string, spans: seq<Span>)
    requires forall u :: |prose(u)| <= |u|
    ensures |Concat(RespanAll(prose, spans))| <= |Concat(spans)|
    ensures Concat(RespanAll(prose, spans)) == Concat(spans) <==> Settled(prose, spans)
  {
    if spans != [] {
      var a, b := spans[0].text, Concat(spans[1..]);
      var a', b' := Respan(prose, spans[0]).text, Concat(RespanAll(prose, spans[1..]));
      ConcatSettled(prose, spans[1..]);
      assert RespanAll(prose, spans)[1..] == RespanAll(prose, spans[1..]);
      SameHalves(a, b, a', b');
      assert forall s <- spans :: s == spans[0] || s in spans[1..];
      assert spans[0] in spans && forall s <- spans[1..] :: s in spans;
    }
  }

  lemma SameHalves(a: string, b: string, a': string, b': string)
    requires |a'| <= |a| && |b'| <= |b|
    ensures a' + b' == a + b <==> a' == a && b' == b
  {
    if a' + b' == a + b {
      assert |a' + b'| == |a + b|;
      assert (a' + b')[..|a|] == a' && (a + b)[..|a|] == a;
      assert (a' + b')[|a|..] == b' && (a + b)[|a|..] == b;
    }
  }

  /** A rewriting that never lengthens leaves a text alone exactly when it leaves its prose alone. */
  lemma CodeAwareSettled(prose: string -> string, t: string)
    requires prose("") == "" && forall u :: |prose(u)| <= |u|
    ensures CodeAware(prose, t) == t <==> Settled(prose, Scan(t))
  {
    CodeAwareSpells(prose, t);
    ConcatDropEmpty(RespanAll(prose, Scan(t)));
    ConcatSettled(prose, Scan(t));
    ScanIsCanonical(t, 0);
    assert t[0..] == t;
  }

  // ----- One fence in prose --------------------------------------------------

  lemma CanonicalProse(t: string)
    requires !HasClosedPair(t)
    ensures Concat(Prose(t)) == t && Canonical(Prose(t))
  {
    hide HasClosedPair;
    if t != "" { assert Prose(t)[1..] == [] && t + "" == t; }
  }

  lemma ScanOfFenced(m: string, f: string, tail: string)
    requires m != "" && !HasFence(m) && !EndsInTick(m) && IsClosedFence(f) && !HasClosedPair(tail)
    ensures Scan(m + f + tail) == [Span(m, true)] + ([Span(f, false)] + Prose(tail))
  {
    hide HasFence, HasClosedPair, EndsInTick, IsClosedFence, Scan;
    var rest := Prose(tail);
    CanonicalProse(tail);
    CanonicalCons(m, f, rest);
    CanonicalIsUnique(Cut(m, f) + rest);
    assert Cut(m, f) + rest == [Span(m, true)] + ([Span(f, false)] + rest);
  }

  lemma RespanProse(prose: string -> string, t: string)
    ensures Concat(RespanAll(prose, Prose(t))) == if t == "" then "" else prose(t)
  {
    if t != "" {
      var spans := Prose(t);
      assert spans[1..] == [] && RespanAll(prose, spans[1..]) == [];
      var out := RespanAll(prose, spans);
      assert out == [Span(prose(t), true)] && out[1..] == [];
      assert prose(t) + "" == prose(t);
    }
  }

  /** Prose before and after a fence is rewritten, the fence is not. */
  lemma CodeAwareFenced(prose: string -> string, m: string, f: string, tail: string)
    requires prose("") == ""
    requires m != "" && !HasFence(m) && !EndsInTick(m) && IsClosedFence(f) && !HasClosedPair(tail)
    ensures CodeAware(prose, m + f + tail) == prose(m) + f + prose(tail)
  {
    hide HasFence, HasClosedPair, EndsInTick, IsClosedFence, Scan;
    ScanOfFenced(m, f, tail);
    ClassifySpells(m + f + tail);
    RespanProse(prose, tail);
    var rest, y := Prose(tail), RespanAll(prose, Prose(tail));
    assert ([Span(m, true)] + ([Span(f, false)] + rest))[1..] == [Span(f, false)] + rest;
    assert ([Span(f, false)] + rest)[1..] == rest;
    var out := [Span(prose(m), true)] + ([Span(f, false)] + y);
    assert RespanAll(prose, [Span(m, true)] + ([Span(f, false)] + rest)) == out;
    assert out[1..] == [Span(f, false)] + y && out[1..][1..] == y;
    CatAssociative(prose(m), f, Concat(y));
    assert m + f + tail != "" && Concat(out) == prose(m) + (f + Concat(y));
  }
}
