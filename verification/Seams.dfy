/**
  * Where prose meets a fence, and when a pass that drops words leaves every such seam as it was.
  */
module Seams {
  import opened Text
  import opened Spans
  import opened Rewriting
  import opened Removal
  import Lossless
  import Filler

  // ----- Both ends of a text -------------------------------------------------

  /** The word a text begins in, or nothing, and the words after it. */
  function Tip(t: string): string {
    if StartsWord(t) then Words(t)[0] else ""
  }

  function Rest(t: string): seq<string> {
    if StartsWord(t) then Words(t)[1..] else Words(t)
  }

  /** The word a text ends in, or nothing, and the words before it. */
  function Tail(t: string): string {
    if EndsInWord(t) && Words(t) != [] then Words(t)[|Words(t)| - 1] else ""
  }

  function Stem(t: string): seq<string> {
    if EndsInWord(t) && Words(t) != [] then Words(t)[..|Words(t)| - 1] else Words(t)
  }

  /** The word at the seam of two texts, if there is one. */
  function Meet(a: string, b: string): seq<string> {
    if EndsInWord(a) || StartsWord(b) then [Tail(a) + Tip(b)] else []
  }

  lemma WordsMeet(a: string, b: string)
    ensures Words(a + b) == Stem(a) + Meet(a, b) + Rest(b)
  {
    hide IsSpace, Words;
    var u, v := Words(a), Words(b);
    WordsConcat(a, b);
    if EndsInWord(a) {
      if StartsWord(b) {
      } else {
        assert u == u[..|u| - 1] + [u[|u| - 1]] && u[|u| - 1] + "" == u[|u| - 1];
      }
    } else if StartsWord(b) {
      assert v == [v[0]] + v[1..] && "" + v[0] == v[0];
      CatAssociative(u, [v[0]], v[1..]);
    } else {
      assert u + [] == u;
    }
  }

  /** A text splits into its end word and what stands before it. */
  lemma StemAndTail(t: string)
    ensures Words(t) == if EndsInWord(t) then Stem(t) + [Tail(t)] else Stem(t)
    ensures EndsInWord(t) ==> Tail(t) != ""
  {
    hide IsSpace, Words;
    if EndsInWord(t) {
      EndsInWordHasWords(t);
      var ws := Words(t);
      assert ws == ws[..|ws| - 1] + [ws[|ws| - 1]] && IsWord(ws[|ws| - 1]);
    }
  }

  lemma TipAndRest(t: string)
    ensures Words(t) == if StartsWord(t) then [Tip(t)] + Rest(t) else Rest(t)
    ensures StartsWord(t) ==> Tip(t) != ""
  {
  }

  /** The last character of a text that ends in a word is the last one of that word. */
  lemma TailEnds(t: string)
    requires EndsInWord(t)
    ensures Tail(t) != "" && Tail(t)[|Tail(t)| - 1] == t[|t| - 1]
  {
    var n := |t| - 1;
    var a, c := t[..n], [t[n]];
    assert t == a + c;
    WordsOfWord(c);
    WordsConcat(a, c);
  }

  // ----- Lines at the ends ---------------------------------------------------

  lemma {:induction false} FirstLineWords(t: string)
    ensures StartsWord(t) <==> StartsWord(FirstLine(t))
    ensures StartsWord(t) ==> Words(FirstLine(t))[0] == Words(t)[0]
    ensures '\n' !in FirstLine(t)
  {
    assert IsSpace('\n');
    if '\n' in t {
      var line, rest := Filler.CutLine(t);
      Filler.OuterLines(line, rest);
      Filler.WordsAcrossNewline(line, rest);
    } else {
      OneLine(t);
    }
  }

  lemma {:induction false} CutLastLine(t: string) returns (before: string)
    requires '\n' in t
    ensures t == before + "\n" + LastLine(t) && '\n' !in LastLine(t)
  {
    var n := |t| - 1;
    assert t == t[..n] + [t[n]];
    if t[n] == '\n' {
      before := t[..n];
      assert before + "\n" + "" == t;
    } else {
      before := CutLastLine(t[..n]);
      assert t == before + "\n" + (LastLine(t[..n]) + [t[n]]);
    }
  }

  lemma LastLineWords(t: string)
    ensures EndsInWord(t) <==> EndsInWord(LastLine(t))
    ensures EndsInWord(t) ==> Tail(LastLine(t)) == Tail(t) != ""
    ensures '\n' !in LastLine(t)
  {
    Lossless.LastLineEnd(t);
    if '\n' in t {
      var before := CutLastLine(t);
      Filler.WordsAcrossNewline(before, LastLine(t));
    } else {
      OneLine(t);
    }
    if EndsInWord(t) {
      EndsInWordHasWords(t);
      EndsInWordHasWords(LastLine(t));
    }
  }

  // ----- When a seam is safe -------------------------------------------------

  /** A pass that drops no word. */
  function Nothing(): string -> bool {
    w => false
  }

  predicate AllDropped(ws: seq<string>, gone: string -> bool) {
    forall w <- ws :: gone(w)
  }

  /**
    * Prose after a fence: the word that touches the fence may not be dropped, or nothing touches it
    * and the words on the rest of the fence's line are all `gone`.
    */
  predicate LeftSafe(gone: string -> bool, drop: string -> bool, m: string) {
    if StartsWord(m) then !drop(Tip(m)) else AllDropped(Words(FirstLine(m)), gone)
  }

  /** The same for prose before a fence. */
  predicate RightSafe(gone: string -> bool, drop: string -> bool, m: string) {
    if EndsInWord(m) then !drop(Tail(m)) else AllDropped(Words(LastLine(m)), gone)
  }

  /** Both seams of a stretch of prose; on one line between two fences it must touch both. */
  predicate ProseSafe(left: string -> bool, right: string -> bool, drop: string -> bool, prev: bool, next: bool, m: string) {
    (prev ==> LeftSafe(left, drop, m)) &&
    (next ==> RightSafe(right, drop, m)) &&
    (prev && next && '\n' !in m ==> StartsWord(m) && EndsInWord(m))
  }

  /**
    * Every seam of a text is safe. `drop` says which words may ever be dropped, `left` and `right`
    * which are gone before the space after, and before, a fence is; `prev` that a fence came before.
    */
  predicate SeamsSafe(left: string -> bool, right: string -> bool, drop: string -> bool, prev: bool, spans: seq<Span>)
    decreases |spans|
  {
    spans == [] ||
    ((spans[0].mutable ==> ProseSafe(left, right, drop, prev, |spans| > 1, spans[0].text)) &&
     SeamsSafe(left, right, drop, !spans[0].mutable, spans[1..]))
  }

  /** More may be gone beforehand, and fewer words may be dropped. */
  lemma {:induction false} SeamsSafeMonotone(left: string -> bool, right: string -> bool, drop: string -> bool,
                                             left': string -> bool, right': string -> bool, drop': string -> bool,
                                             prev: bool, spans: seq<Span>)
    requires SeamsSafe(left, right, drop, prev, spans)
    requires forall w :: (left(w) ==> left'(w)) && (right(w) ==> right'(w)) && (drop'(w) ==> drop(w))
    ensures SeamsSafe(left', right', drop', prev, spans)
    decreases |spans|
  {
    if spans != [] {
      SeamsSafeMonotone(left, right, drop, left', right', drop', !spans[0].mutable, spans[1..]);
    }
  }

  // ----- Structure -----------------------------------------------------------

  /** Begins and ends in a fence. */
  predicate IsSolid(f: string) {
    StartsWord(f) && EndsInWord(f) && FenceAt(f, 0) && FenceAt(f, |f| - 3)
  }

  /** No two prose spans touch, and the others are solid. */
  predicate Alternates(spans: seq<Span>) {
    spans == [] ||
    ((if spans[0].mutable then |spans| > 1 ==> !spans[1].mutable else IsSolid(spans[0].text)) &&
     Alternates(spans[1..]))
  }

  lemma FenceIsSolid(f: string)
    requires IsClosedFence(f)
    ensures IsSolid(f)
  {
    assert FenceAt(f, 0) && FenceAt(f, |f| - 3);
  }

  lemma {:induction false} CanonicalAlternates(spans: seq<Span>)
    requires Canonical(spans)
    ensures Alternates(spans)
  {
    hide HasFence, HasClosedPair, IsClosedFence, IsSolid;
    if spans != [] {
      CanonicalAlternates(spans[1..]);
      if !spans[0].mutable { FenceIsSolid(spans[0].text); }
    }
  }
}
