/**
  * Exactly when the filler pass removes droppable words only. Word by word nothing can be told,
  * for words move and merge at the seams; but characters and words are counted, and a seam that is
  * not safe lets the count drop.
  */
module SeamCounts {
  import opened Text
  import opened Spans
  import opened Rewriting
  import opened Removal
  import opened Seams
  import opened SafeSeams
  import Filler

  // ----- The count of a text -------------------------------------------------

  /** What a text adds to the count of a fence in front of it, the word at the seam held. */
  function Load(t: string, drop: string -> bool): nat {
    2 * |Tip(t)| + 1 + Filler.Held(Rest(t), drop)
  }

  /** What a piece adds in front of more text, if the words at both its seams are held. */
  function Cost(a: string, drop: string -> bool): nat {
    if a == "" then 0
    else if !StartsWord(a) then 1 + Filler.Held(Stem(a), drop) + 2 * |Tail(a)|
    else if Stem(a) == [] then 2 * |Tail(a)|
    else 2 * |Stem(a)[0]| + 1 + Filler.Held(Stem(a)[1..], drop) + 2 * |Tail(a)|
  }

  lemma StartOfConcat(a: string, b: string)
    requires EndsInWord(a) || StartsWord(b)
    ensures StartsWord(a + b) <==> (if a == "" then StartsWord(b) else StartsWord(a))
    ensures StartsWord(a + b) && Stem(a) == [] ==> Tip(a + b) == Tail(a) + Tip(b) && Rest(a + b) == Rest(b)
    ensures StartsWord(a + b) && Stem(a) != [] ==>
              Tip(a + b) == Stem(a)[0] && Rest(a + b) == Stem(a)[1..] + [Tail(a) + Tip(b)] + Rest(b)
    ensures !StartsWord(a + b) ==> Rest(a + b) == Stem(a) + [Tail(a) + Tip(b)] + Rest(b)
  {
    hide IsSpace, Stem, Tail;
    WordsMeet(a, b);
    if a == "" { assert a + b == b; } else { assert (a + b)[0] == a[0]; }
    var ws := Stem(a) + [Tail(a) + Tip(b)] + Rest(b);
    if Stem(a) == [] {
      assert ws == [Tail(a) + Tip(b)] + Rest(b);
    } else {
      assert ws[1..] == Stem(a)[1..] + [Tail(a) + Tip(b)] + Rest(b);
    }
  }

  /** Counting a piece and what follows it; less only if the word at the seam may be dropped. */
  lemma LoadOfConcat(a: string, b: string, drop: string -> bool)
    requires EndsInWord(a) || StartsWord(b)
    ensures Load(a + b, drop) <= Cost(a, drop) + Load(b, drop)
    ensures (StartsWord(a + b) && Stem(a) == []) || !drop(Tail(a) + Tip(b)) ==>
              Load(a + b, drop) == Cost(a, drop) + Load(b, drop)
  {
    hide IsSpace, Filler.Held, Words, Stem, Tail, Rest;
    var w := Tail(a) + Tip(b);
    StartOfConcat(a, b);
    Filler.HeldOne(w, drop);
    NoEnds(a);
    if StartsWord(a + b) && Stem(a) != [] {
      Filler.HeldConcat(Stem(a)[1..], [w], drop);
      Filler.HeldConcat(Stem(a)[1..] + [w], Rest(b), drop);
    } else if !StartsWord(a + b) {
      Filler.HeldConcat(Stem(a), [w], drop);
      Filler.HeldConcat(Stem(a) + [w], Rest(b), drop);
    }
  }

  lemma NoEnds(a: string)
    ensures a == "" ==> Stem(a) == [] && Tail(a) == ""
  {
  }

  // ----- Filtered prose costs less unless its seams are safe ------------------

  function One(b: bool): nat {
    if b then 1 else 0
  }

  /** The cost of a text, from the count of all its held words. */
  lemma CostOfText(a: string, drop: string -> bool)
    requires a != ""
    ensures var t := Filler.Held(Words(a), drop);
            (StartsWord(a) && drop(Tip(a)) ==> Cost(a, drop) >= t + 2) &&
            (EndsInWord(a) && drop(Tail(a)) && !(StartsWord(a) && drop(Tip(a))) ==>
              Cost(a, drop) >= t + 3 - One(StartsWord(a))) &&
            (!(StartsWord(a) && drop(Tip(a))) && !(EndsInWord(a) && drop(Tail(a))) ==>
              Cost(a, drop) == t + 1 - One(StartsWord(a)) - One(EndsInWord(a)))
  {
    hide IsSpace, Filler.Held, Words, Tip, Rest, Stem, Tail;
    StemAndTail(a);
    TipOfStem(a);
    Filler.HeldOne(Tail(a), drop);
    if EndsInWord(a) { Filler.HeldConcat(Stem(a), [Tail(a)], drop); }
    if StartsWord(a) && Stem(a) != [] {
      var s := Stem(a);
      assert s == [s[0]] + s[1..];
      Filler.HeldOne(s[0], drop);
      Filler.HeldConcat([s[0]], s[1..], drop);
    }
  }

  lemma TipOfStem(a: string)
    ensures StartsWord(a) && Stem(a) != [] ==> Tip(a) == Stem(a)[0] && Tip(a) != ""
    ensures StartsWord(a) && Stem(a) == [] ==> Tip(a) == Tail(a) && EndsInWord(a) && Tip(a) != ""
    ensures EndsInWord(a) <==> Tail(a) != ""
  {
    StemAndTail(a);
  }

  /** Filtered prose holds every word it has. */
  lemma CostOfFiltered(m: string, drop: string -> bool)
    ensures var f, t := Filler.FilterProse(m, drop), Filler.Held(Words(m), drop);
            Cost(f, drop) == if f == "" then 0 else t + 1 - One(StartsWord(f)) - One(EndsInWord(f))
    ensures Filler.FilterProse(m, drop) == "" ==> Filler.Held(Words(m), drop) == 0
  {
    hide IsSpace, Filler.Held, Words, Stem, Filler.FilterProse, Filler.Without;
    var f := Filler.FilterProse(m, drop);
    FilteredEnds(m, drop);
    Filler.HeldWithout(Words(m), drop);
    Filler.HeldOne("", drop);
    if f == "" {
      WordsOfBlank("");
    } else {
      CostOfText(f, drop);
      FilteredEndsHeld(m, drop);
    }
  }

  lemma FilteredEndsHeld(m: string, drop: string -> bool)
    ensures var f := Filler.FilterProse(m, drop);
            (StartsWord(f) ==> !drop(Tip(f))) && (EndsInWord(f) ==> !drop(Tail(f)))
  {
    hide Filler.FilterProse;
    var f := Filler.FilterProse(m, drop);
    FilteredEnds(m, drop);
    if StartsWord(f) { assert Tip(f) in Words(f); }
    if EndsInWord(f) { StemAndTail(f); assert Tail(f) in Words(f); }
  }

  /** Between two fences filtering never costs more, and costs less unless both seams are safe. */
  lemma FilteringCosts(m: string, drop: string -> bool)
    requires m != ""
    ensures Cost(Filler.FilterProse(m, drop), drop) <= Cost(m, drop)
    ensures Cost(Filler.FilterProse(m, drop), drop) == Cost(m, drop) ==> ProseSafe(drop, drop, drop, true, true, m)
  {
    hide IsSpace, Filler.Held, Words, Stem, Cost, Filler.FilterProse, Tip, Tail, AllDropped;
    var f := Filler.FilterProse(m, drop);
    CostOfText(m, drop);
    CostOfFiltered(m, drop);
    FilteredEnds(m, drop);
    EndsStay(m, drop);
    if '\n' !in m { OneLine(m); BlankWhenDropped(m, drop); }
  }

  lemma EndsStay(m: string, drop: string -> bool)
    ensures var f := Filler.FilterProse(m, drop);
            (StartsWord(m) && !drop(Tip(m)) ==> StartsWord(f)) && (EndsInWord(m) && !drop(Tail(m)) ==> EndsInWord(f))
    ensures StartsWord(m) && EndsInWord(m) && Stem(m) == [] ==> Tip(m) == Tail(m)
  {
    hide Filler.FilterProse;
    TipOfStem(m);
    if StartsWord(m) && !drop(Tip(m)) { KeptTip(m, drop); }
    if EndsInWord(m) && !drop(Tail(m)) { KeptTail(m, drop); }
  }

  lemma BlankWhenDropped(m: string, drop: string -> bool)
    requires '\n' !in m
    ensures Filler.FilterProse(m, drop) == "" <==> AllDropped(Words(m), drop)
  {
    hide Filler.FilterProse;
    Filler.FilterProseCons(m, "", drop);
    FilteredLineEnds(m, drop);
  }

  /** At the end of a text the same holds of its one seam. */
  lemma FilteringLoads(m: string, drop: string -> bool)
    ensures Load(Filler.FilterProse(m, drop), drop) <= Load(m, drop)
    ensures Load(Filler.FilterProse(m, drop), drop) == Load(m, drop) ==> LeftSafe(drop, drop, m)
  {
    hide IsSpace, Filler.Held, Words, Filler.FilterProse, AllDropped, Tip, Rest, Filler.Without;
    var f := Filler.FilterProse(m, drop);
    FilteredEnds(m, drop);
    EndsStay(m, drop);
    FilteredEndsHeld(m, drop);
    Filler.HeldWithout(Words(m), drop);
    LoadOfText(m, drop);
    LoadOfText(f, drop);
  }

  lemma LoadOfText(a: string, drop: string -> bool)
    ensures var t := Filler.Held(Words(a), drop);
            Load(a, drop) == if !StartsWord(a) then 1 + t else if drop(Tip(a)) then t + 2 * |Tip(a)| + 1 else t
    ensures StartsWord(a) ==> Tip(a) != ""
  {
    hide Filler.Held;
    TipAndRest(a);
    if StartsWord(a) {
      Filler.HeldOne(Tip(a), drop);
      Filler.HeldConcat([Tip(a)], Rest(a), drop);
    }
  }

  // ----- Whole texts ---------------------------------------------------------

  /** No word of the list that holds a fence may be dropped. */
  ghost predicate FencesHeld(ws: seq<string>, drop: string -> bool) {
    forall w <- ws :: HasFence(w) ==> !drop(w)
  }

  /** A fence ends `a` or begins `b`. */
  predicate FenceMeets(a: string, b: string) {
    (EndsInWord(a) && |a| >= 3 && FenceAt(a, |a| - 3)) || (StartsWord(b) && FenceAt(b, 0))
  }

  lemma SolidMeets(a: string, b: string)
    requires IsSolid(a)
    ensures FenceMeets(a, b)
  {
  }

  lemma FenceInMeet(a: string, b: string)
    requires FenceMeets(a, b)
    ensures HasFence(Tail(a) + Tip(b))
  {
    hide IsSpace, Words, Tail, Tip;
    if StartsWord(b) && FenceAt(b, 0) {
      FenceFront(b);
      var i :| FenceAt(Tip(b), i);
      assert FenceAt(Tail(a) + Tip(b), |Tail(a)| + i);
    } else {
      FenceBack(a);
      var i :| FenceAt(Tail(a), i);
      assert FenceAt(Tail(a) + Tip(b), i);
    }
  }

  lemma FenceWord()
    ensures Words("```") == ["```"] && StartsWord("```") && EndsInWord("```")
  {
    WordsOfWord("```");
  }

  lemma FenceFront(f: string)
    requires StartsWord(f) && FenceAt(f, 0)
    ensures HasFence(Tip(f))
  {
    hide IsSpace, Words;
    assert f == "```" + f[3..];
    FenceWord();
    WordsConcat("```", f[3..]);
    assert Tip(f)[..3] == "```";
    assert FenceAt(Tip(f), 0);
  }

  lemma FenceBack(f: string)
    requires EndsInWord(f) && |f| >= 3 && FenceAt(f, |f| - 3)
    ensures HasFence(Tail(f))
  {
    hide IsSpace, Words;
    var n := |f| - 3;
    assert f == f[..n] + "```";
    FenceWord();
    EndsInWordHasWords(f);
    WordsConcat(f[..n], "```");
    var z := Tail(f);
    assert |z| >= 3 && z[|z| - 3..] == "```";
    assert FenceAt(z, |z| - 3);
  }

  /** The word at a seam with a fence is held, unless it is the first; so are the words after it. */
  lemma HeldAfter(a: string, b: string, drop: string -> bool)
    requires FenceMeets(a, b) && FencesHeld(Rest(a + b), drop)
    ensures FencesHeld(Rest(b), drop)
    ensures (StartsWord(a + b) && Stem(a) == []) || !drop(Tail(a) + Tip(b))
  {
    hide IsSpace, HasFence, Stem, Tail, Rest, FenceAt;
    StartOfConcat(a, b);
    FenceInMeet(a, b);
    forall w | w in Rest(b) ensures w in Rest(a + b) {
    }
    if !(StartsWord(a + b) && Stem(a) == []) { assert Tail(a) + Tip(b) in Rest(a + b); }
  }

  lemma FenceStarts(spans: seq<Span>)
    requires Alternates(spans) && spans != [] && !spans[0].mutable
    ensures StartsWord(Concat(spans)) && FenceAt(Concat(spans), 0)
  {
    var f, t := spans[0].text, Concat(spans);
    assert t[0] == f[0] && t[1] == f[1] && t[2] == f[2];
  }

  /** Counted span after span, filtering never adds, and loses unless every seam is safe. */
  lemma {:induction false} SpansCount(spans: seq<Span>, drop: string -> bool)
    requires Alternates(spans) && (forall s <- spans :: s.text != "") && FencesHeld(Rest(Concat(spans)), drop)
    ensures var out := Concat(RespanAll(Filler.Filtering(drop), spans));
            Load(out, drop) <= Load(Concat(spans), drop) &&
            (Load(out, drop) == Load(Concat(spans), drop) ==> SeamsSafe(drop, drop, drop, true, spans))
    decreases |spans|
  {
    hide IsSpace, HasFence, FencesHeld, Rest, Load, Cost, Filler.FilterProse, LeftSafe, RightSafe, FenceAt;
    if spans != [] {
      var a, rest := spans[0].text, spans[1..];
      var a', rest' := Respan(Filler.Filtering(drop), spans[0]).text, RespanAll(Filler.Filtering(drop), rest);
      var b, b' := Concat(rest), Concat(rest');
      assert spans[0] in spans;
      assert RespanAll(Filler.Filtering(drop), spans)[1..] == rest';
      if spans[0].mutable && rest == [] {
        assert a + "" == a && a' + "" == a';
        FilteringLoads(a, drop);
      } else {
        if spans[0].mutable {
          FilteringCosts(a, drop);
          FenceStarts(rest);
          RespanAlternates(Filler.Filtering(drop), rest);
          FenceStarts(rest');
          FenceFirst(drop, drop, drop, rest);
        } else {
          SolidMeets(a, b);
        }
        HeldAfter(a, b, drop);
        SpansCount(rest, drop);
        LoadOfConcat(a, b, drop);
        LoadOfConcat(a', b', drop);
      }
    }
  }

  /**
    * The filler pass removes droppable words only exactly when every seam is safe, on texts none of
    * whose fence-holding words is droppable; safe seams suffice on all texts.
    */
  lemma FillingIsSafeIff(t: string, drop: string -> bool)
    requires FencesHeld(Words(t), drop)
    ensures Embeds(Words(t), Words(Filler.StripFillers(t, drop)), drop) <==> SeamsSafe(drop, drop, drop, false, Scan(t))
  {
    hide Embeds, SeamsSafe, Words, Filler.FilterProse, IsSolid, Alternates, Canonical, Lead, Concat, RespanAll,
         Filler.StripFillers, ScanFrom, Load, FencesHeld;
    if SeamsSafe(drop, drop, drop, false, Scan(t)) {
      FillingIsSafe(t, drop);
    } else if Embeds(Words(t), Words(Filler.StripFillers(t, drop)), drop) {
      var spans := Scan(t);
      ScanIsCanonical(t, 0);
      CanonicalAlternates(spans);
      CanonicalIsNotEmpty(spans);
      LeadAlternates(spans);
      LeadSafe(drop, drop, drop, spans);
      FilteredText(t, drop);
      LeadConcat(spans);
      LeadFiltered(spans, drop);
      var out := RespanAll(Filler.Filtering(drop), spans);
      LeadConcat(out);
      LoadOfLead(t, drop);
      LoadOfLead(Concat(out), drop);
      Filler.EmbedsKeepsRest(Words(t), Words(Concat(out)), drop);
      SpansCount(Lead(spans), drop);
      assert false;
    }
  }

  lemma LoadOfLead(t: string, drop: string -> bool)
    ensures Load("\n" + t, drop) == 1 + Filler.Held(Words(t), drop) && Rest("\n" + t) == Words(t)
  {
    assert IsSpace('\n') && ("\n" + t)[1..] == t;
  }
}
