/** Splitting text into mutable prose and immutable fenced code (`parcus.spans`). */
module Spans {
  import opened Text

  /** A run of message text; only mutable runs may be rewritten. */
  datatype Span = Span(text: string, mutable: bool)

  /** The text a list of spans spells. */
  function Concat(spans: seq<Span>): string {
    if spans == [] then "" else spans[0].text + Concat(spans[1..])
  }

  lemma {:induction false} ConcatAppend(a: seq<Span>, b: seq<Span>)
    ensures Concat(a + b) == Concat(a) + Concat(b)
  {
    if a == [] {
      assert a + b == b;
    } else {
      assert (a + b)[1..] == a[1..] + b;
      ConcatAppend(a[1..], b);
    }
  }

  // ----- Fences --------------------------------------------------------------

  predicate FenceAt(t: string, i: int) {
    0 <= i && i + 3 <= |t| && t[i] == '`' && t[i + 1] == '`' && t[i + 2] == '`'
  }

  ghost predicate HasFence(t: string) {
    exists i :: FenceAt(t, i)
  }

  /** An opening fence with a closing one after it. */
  ghost predicate HasClosedPair(t: string) {
    exists i, j :: FenceAt(t, i) && FenceAt(t, j) && i + 3 <= j
  }

  /** A fence, anything, and the nearest closing fence: one lazy match. */
  predicate IsClosedFence(f: string) {
    |f| >= 6 && FenceAt(f, 0) && FenceAt(f, |f| - 3) &&
    forall j :: 3 <= j < |f| - 3 ==> !FenceAt(f, j)
  }

  predicate EndsInTick(t: string) {
    t != "" && t[|t| - 1] == '`'
  }

  /** The leftmost fence at or after `from`, or the end of the text. */
  function FindFence(t: string, from: nat): (r: nat)
    requires from <= |t|
    ensures from <= r <= |t|
    ensures r < |t| ==> FenceAt(t, r)
    ensures forall i :: from <= i < r ==> !FenceAt(t, i)
    decreases |t| - from
  {
    if from == |t| || FenceAt(t, from) then from else FindFence(t, from + 1)
  }

  /** The leftmost lazy match of the fence pattern at or after `pos`. */
  datatype Match = NoMatch | Match(start: nat, end: nat)

  function NextMatch(t: string, pos: nat): (m: Match)
    requires pos <= |t|
    ensures m.Match? ==> pos <= m.start < m.end <= |t|
  {
    var i := FindFence(t, pos);
    if i == |t| then NoMatch
    else
      var j := FindFence(t, i + 3);
      if j == |t| then NoMatch else Match(i, j + 3)
  }

  lemma ProseBeforeMatch(t: string, pos: nat, i: nat)
    requires pos <= i <= |t| && FenceAt(t, i) && forall k :: pos <= k < i ==> !FenceAt(t, k)
    ensures !HasFence(t[pos..i]) && !EndsInTick(t[pos..i])
  {
    var m := t[pos..i];
    forall k ensures !FenceAt(m, k) {
      assert FenceAt(m, k) ==> FenceAt(t, pos + k);
    }
    if EndsInTick(m) { assert FenceAt(t, i - 1); assert false; }
  }

  lemma FenceMatched(t: string, i: nat, j: nat)
    requires i + 3 <= j && FenceAt(t, i) && FenceAt(t, j) && forall k :: i + 3 <= k < j ==> !FenceAt(t, k)
    ensures IsClosedFence(t[i..j + 3])
  {
    var f := t[i..j + 3];
    forall k | 3 <= k < |f| - 3 ensures !FenceAt(f, k) {
      assert !FenceAt(t, i + k);
    }
  }

  lemma MatchIsClosedFence(t: string, pos: nat)
    requires pos <= |t| && NextMatch(t, pos).Match?
    ensures var m := NextMatch(t, pos);
            IsClosedFence(t[m.start..m.end]) && !HasFence(t[pos..m.start]) && !EndsInTick(t[pos..m.start])
    ensures HasClosedPair(t[pos..])
  {
    hide IsClosedFence, HasFence, EndsInTick, FindFence;
    var i := FindFence(t, pos);
    var j := FindFence(t, i + 3);
    ProseBeforeMatch(t, pos, i);
    FenceMatched(t, i, j);
    assert FenceAt(t[pos..], i - pos) && FenceAt(t[pos..], j - pos);
  }

  lemma NoMatchNoPair(t: string, pos: nat)
    requires pos <= |t| && NextMatch(t, pos).NoMatch?
    ensures !HasClosedPair(t[pos..])
  {
    forall a, b | FenceAt(t[pos..], a) && FenceAt(t[pos..], b) ensures b < a + 3 {
      assert FenceAt(t, pos + a) && FenceAt(t, pos + b);
    }
  }

  // ----- The scanner ---------------------------------------------------------

  function Prose(t: string): seq<Span> {
    if t == "" then [] else [Span(t, true)]
  }

  /** A fence and the prose before it. */
  function Cut(m: string, f: string): seq<Span> {
    if m == "" then [Span(f, false)] else [Span(m, true), Span(f, false)]
  }

  /** The matched fences from `pos` on and the prose between them, from left to right. */
  function ScanFrom(t: string, pos: nat): seq<Span>
    requires pos <= |t|
    decreases |t| - pos
  {
    match NextMatch(t, pos)
    case NoMatch => Prose(t[pos..])
    case Match(start, end) => Cut(t[pos..start], t[start..end]) + ScanFrom(t, end)
  }

  function Scan(t: string): seq<Span> {
    ScanFrom(t, 0)
  }

  function Classify(t: string): seq<Span> {
    if t == "" then [Span("", true)] else Scan(t)
  }

  lemma AppendCut(spans: seq<Span>, m: string, f: string)
    ensures (if m == "" then spans else spans + [Span(m, true)]) + [Span(f, false)] == spans + Cut(m, f)
  {
  }

  lemma ScanFromStep(spans: seq<Span>, t: string, pos: nat)
    requires pos <= |t| && NextMatch(t, pos).Match?
    ensures var m := NextMatch(t, pos);
            (spans + Cut(t[pos..m.start], t[m.start..m.end])) + ScanFrom(t, m.end) == spans + ScanFrom(t, pos)
  {
    var m := NextMatch(t, pos);
    CatAssociative(spans, Cut(t[pos..m.start], t[m.start..m.end]), ScanFrom(t, m.end));
  }

  lemma ScanEnd(t: string, pos: nat)
    requires pos <= |t| && NextMatch(t, pos).NoMatch?
    ensures ScanFrom(t, pos) == if pos < |t| then [Span(t[pos..], true)] else []
  {
    if pos < |t| { assert |t[pos..]| > 0; }
  }

  /** `classify_spans`: the loop over matches, appending spans and advancing `pos`. */
  method ClassifySpans(text: string) returns (spans: seq<Span>)
    ensures spans == Classify(text)
    ensures spans != [] && Concat(spans) == text
  {
    hide ScanFrom, NextMatch, FindFence, Concat;
    spans := [];
    var pos := 0;
    var m := NextMatch(text, pos);
    assert [] + Scan(text) == Scan(text);
    while m.Match?
      invariant pos <= |text| && m == NextMatch(text, pos)
      invariant spans + ScanFrom(text, pos) == Scan(text)
      decreases |text| - pos
    {
      ScanFromStep(spans, text, pos);
      AppendCut(spans, text[pos..m.start], text[m.start..m.end]);
      if m.start > pos {
        spans := spans + [Span(text[pos..m.start], true)];
      }
      spans := spans + [Span(text[m.start..m.end], false)];
      pos := m.end;
      m := NextMatch(text, pos);
    }
    ScanEnd(text, pos);
    assert spans + [] == spans;
    if pos < |text| {
      spans := spans + [Span(text[pos..], true)];
    }
    ClassifySpells(text);
    if spans == [] {
      spans := spans + [Span(text, true)];
    }
  }

  // ----- The answer is canonical ---------------------------------------------

  /**
    * Every immutable span is a shortest closed fence; prose before a fence holds no fence and
    * cannot lend it a backtick; trailing prose holds no closed pair; no prose touches prose.
    */
  ghost predicate Canonical(spans: seq<Span>) {
    spans == [] ||
    (spans[0].text != "" &&
     (if !spans[0].mutable then IsClosedFence(spans[0].text)
      else if |spans| == 1 then !HasClosedPair(spans[0].text)
      else !spans[1].mutable && !HasFence(spans[0].text) && !EndsInTick(spans[0].text)) &&
     Canonical(spans[1..]))
  }

  lemma {:induction false} ScanIsCanonical(t: string, pos: nat)
    requires pos <= |t|
    ensures Concat(ScanFrom(t, pos)) == t[pos..]
    ensures Canonical(ScanFrom(t, pos))
    decreases |t| - pos
  {
    match NextMatch(t, pos)
    case NoMatch =>
      NoMatchNoPair(t, pos);
      if t[pos..] != "" { assert Prose(t[pos..])[1..] == []; }
    case Match(start, end) =>
      ScanIsCanonical(t, end);
      MatchIsClosedFence(t, pos);
      CanonicalCons(t[pos..start], t[start..end], ScanFrom(t, end));
      CutInThree(t, pos, start, end);
  }

  lemma ClassifySpells(t: string)
    ensures Concat(Classify(t)) == t && Classify(t) != []
    ensures t == "" ==> Scan(t) == []
  {
    ScanIsCanonical(t, 0);
    if t == "" {
      assert Concat([Span("", true)]) == "";
      assert Scan(t) == Prose(t[0..]);
    } else {
      assert t[0..] == t;
    }
  }

  lemma CanonicalCons(m: string, f: string, rest: seq<Span>)
    requires !HasFence(m) && !EndsInTick(m) && IsClosedFence(f) && Canonical(rest)
    ensures Canonical(Cut(m, f) + rest)
    ensures Concat(Cut(m, f) + rest) == m + f + Concat(rest)
  {
    var all, tail := Cut(m, f) + rest, [Span(f, false)] + rest;
    assert tail[1..] == rest;
    if m == "" {
      assert all == tail;
    } else {
      assert all[0] == Span(m, true) && all[1..] == tail;
      assert m + f + Concat(rest) == m + (f + Concat(rest));
    }
  }

  /** No other canonical list spells the same text. */
  lemma CanonicalIsUnique(spans: seq<Span>)
    requires Canonical(spans)
    ensures spans == Scan(Concat(spans))
  {
    CanonicalIsScan(spans, Concat(spans), 0);
  }

  lemma NoPairNoMatch(t: string, pos: nat)
    requires pos <= |t| && !HasClosedPair(t[pos..])
    ensures ScanFrom(t, pos) == Prose(t[pos..])
  {
    if NextMatch(t, pos).Match? { MatchIsClosedFence(t, pos); }
  }

  lemma {:induction false} CanonicalIsScan(spans: seq<Span>, t: string, pos: nat)
    requires Canonical(spans) && pos <= |t| && t[pos..] == Concat(spans)
    ensures spans == ScanFrom(t, pos)
    decreases |spans|
  {
    hide NextMatch, FindFence, FenceAt;
    if spans == [] {
      NothingToMatch(t);
      assert pos == |t|;
    } else if spans[0].mutable && |spans| == 1 {
      assert spans[1..] == [] && spans == [spans[0]];
      assert t[pos..] == spans[0].text;
      NoPairNoMatch(t, pos);
      assert ScanFrom(t, pos) == [spans[0]];
    } else {
      var m, f, rest := CutFirst(spans);
      ScanStep(m, f, Concat(rest), t, pos);
      CanonicalIsScan(rest, t, pos + |m| + |f|);
      assert ScanFrom(t, pos) == Cut(m, f) + rest;
    }
  }

  lemma NothingToMatch(t: string)
    ensures ScanFrom(t, |t|) == []
  {
  }

  lemma CutFirst(spans: seq<Span>) returns (m: string, f: string, rest: seq<Span>)
    requires Canonical(spans) && spans != [] && (spans[0].mutable ==> |spans| > 1)
    ensures !HasFence(m) && !EndsInTick(m) && IsClosedFence(f)
    ensures Canonical(rest) && |rest| < |spans|
    ensures spans == Cut(m, f) + rest && Concat(spans) == m + f + Concat(rest)
  {
    if spans[0].mutable {
      m, f, rest := spans[0].text, spans[1].text, spans[2..];
      assert spans[1..][1..] == rest;
      assert m + f + Concat(rest) == m + (f + Concat(rest));
    } else {
      m, f, rest := "", spans[0].text, spans[1..];
    }
  }

  /** The scanner takes off exactly one stretch of prose and one fence. */
  lemma ScanStep(m: string, f: string, rest: string, t: string, pos: nat)
    requires !HasFence(m) && !EndsInTick(m) && IsClosedFence(f)
    requires pos <= |t| && t[pos..] == m + f + rest
    ensures pos + |m| + |f| <= |t| && t[pos + |m| + |f|..] == rest
    ensures ScanFrom(t, pos) == Cut(m, f) + ScanFrom(t, pos + |m| + |f|)
  {
    hide FenceAt, FindFence;
    var u, i, k := t[pos..], pos + |m|, pos + |m| + |f|;
    assert u[..|m|] == m && u[|m|..|m| + |f|] == f && u[|m| + |f|..] == rest;
    assert t[pos..i] == m && t[i..k] == f && t[k..] == rest;
    MatchAt(t, pos, i, k);
  }

  lemma MatchAt(t: string, pos: nat, i: nat, k: nat)
    requires pos <= i <= k <= |t|
    requires !HasFence(t[pos..i]) && !EndsInTick(t[pos..i]) && IsClosedFence(t[i..k])
    ensures NextMatch(t, pos) == Match(i, k)
  {
    var m, f := t[pos..i], t[i..k];
    assert FenceAt(f, 0) && FenceAt(f, |f| - 3);
    assert FenceAt(t, i) && FenceAt(t, k - 3);
    forall a | pos <= a < i ensures !FenceAt(t, a) {
      if a + 3 <= i {
        assert !FenceAt(m, a - pos);
      } else {
        assert t[i - 1] == m[|m| - 1];
      }
    }
    forall a | i + 3 <= a < k - 3 ensures !FenceAt(t, a) {
      assert !FenceAt(f, a - i);
    }
  }

  // ----- Fences live inside words --------------------------------------------

  ghost predicate WordsHaveFence(ws: seq<string>) {
    ws != [] && (HasFence(ws[0]) || WordsHaveFence(ws[1..]))
  }

  ghost predicate WordsHavePair(ws: seq<string>) {
    ws != [] &&
    (HasClosedPair(ws[0]) || (HasFence(ws[0]) && WordsHaveFence(ws[1..])) || WordsHavePair(ws[1..]))
  }

  /** Whether a text holds a fence, or a closed pair, depends on its words alone. */
  lemma {:induction false} FencesAreInWords(t: string)
    ensures HasFence(t) <==> WordsHaveFence(Words(t))
    ensures HasClosedPair(t) <==> WordsHavePair(Words(t))
    decreases |t|
  {
    hide FenceAt;
    if Words(t) == [] {
      NoWordsNoFence(t);
    } else {
      var blank, w, rest := FirstWord(t);
      FencesAreInWords(rest);
      WordsOfBlank(blank);
      NoWordsNoFence(blank);
      FencesApart(blank, w);
      FencesApart(blank + w, rest);
      assert Words(t)[1..] == Words(rest);
    }
  }

  lemma {:induction false} NoWordsNoFence(t: string)
    requires Words(t) == []
    ensures !HasFence(t)
  {
    AllBlankIfNoWords(t);
  }

  lemma {:induction false} AllBlankIfNoWords(t: string)
    requires Words(t) == []
    ensures AllBlank(t)
  {
    if t != "" {
      AllBlankIfNoWords(t[1..]);
      assert t == [t[0]] + t[1..];
    }
  }

  /** A fence cannot straddle a seam that has a blank on one side. */
  lemma FencesApart(a: string, b: string)
    requires (a != "" ==> IsSpace(a[|a| - 1])) || (b != "" ==> IsSpace(b[0]))
    ensures HasFence(a + b) <==> HasFence(a) || HasFence(b)
    ensures HasClosedPair(a + b) <==> HasClosedPair(a) || HasClosedPair(b) || (HasFence(a) && HasFence(b))
  {
    var t := a + b;
    forall i ensures FenceAt(t, i) <==> FenceAt(a, i) || FenceAt(b, i - |a|) {
    }
    if HasClosedPair(b) {
      var i, j :| FenceAt(b, i) && FenceAt(b, j) && i + 3 <= j;
      assert FenceAt(t, |a| + i) && FenceAt(t, |a| + j);
    }
    if HasFence(b) {
      var j :| FenceAt(b, j);
      assert FenceAt(t, |a| + j);
    }
  }
}
