/** On texts whose seams are safe a pass removes droppable words only, and the seams stay safe. */
module SafeSeams {
  import opened Text
  import opened Spans
  import opened Rewriting
  import opened Removal
  import opened Seams
  import Lossless
  import Filler

  // ----- The ends of filtered prose ------------------------------------------

  lemma JoinSpacesEnds(ws: seq<string>)
    requires Filler.AllWords(ws) && ws != []
    ensures StartsWord(Filler.JoinSpaces(ws)) && EndsInWord(Filler.JoinSpaces(ws))
    decreases |ws|
  {
    hide IsSpace;
    Filler.JoinSpacesCons(ws[0], ws[1..]);
    assert ws == [ws[0]] + ws[1..];
    var w := ws[0];
    if |ws| > 1 {
      var tail := Filler.JoinSpaces(ws[1..]);
      JoinSpacesEnds(ws[1..]);
      var t := w + " " + tail;
      assert t[|t| - 1] == tail[|tail| - 1] && t[0] == w[0];
    }
  }

  lemma FilteredLineEnds(line: string, gone: string -> bool)
    ensures var f := Filler.FilterLine(line, gone);
            if AllDropped(Words(line), gone) then f == "" else StartsWord(f) && EndsInWord(f)
  {
    hide Words;
    var ws := Filler.Without(Words(line), gone);
    Filler.WithoutIsEmbedded(Words(line), gone);
    if ws == [] {
      Filler.JoinSpacesCons("", ws);
      forall w <- Words(line) ensures gone(w) { assert w !in ws; }
    } else {
      assert ws[0] in ws;
      JoinSpacesEnds(ws);
    }
  }

  /** What filtered prose begins and ends in. */
  lemma FilteredEnds(m: string, gone: string -> bool)
    ensures var f := Filler.FilterProse(m, gone);
            Words(f) == Filler.Without(Words(m), gone) &&
            (StartsWord(f) <==> !AllDropped(Words(FirstLine(m)), gone)) &&
            (EndsInWord(f) <==> !AllDropped(Words(LastLine(m)), gone)) &&
            ('\n' in f <==> '\n' in m)
  {
    hide Words, Filler.FilterLine, Filler.FilterProse, Filler.Without, IsSpace, AllDropped, FirstLine, LastLine, Embeds;
    var f := Filler.FilterProse(m, gone);
    Filler.FilterProseWords(m, gone);
    Filler.FilterProseIsEmbedded(m, gone);
    FilteredLineEnds(FirstLine(m), gone);
    FilteredLineEnds(LastLine(m), gone);
    FirstLineWords(f);
    LastLineWords(f);
  }

  // ----- A safe seam after the pass ------------------------------------------

  /** A kept word that touches a fence still does. */
  lemma KeptTip(m: string, gone: string -> bool)
    requires StartsWord(m) && !gone(Tip(m))
    ensures var f := Filler.FilterProse(m, gone);
            StartsWord(f) && Tip(f) == Tip(m) && Rest(f) == Filler.Without(Rest(m), gone)
  {
    hide Filler.FilterProse, IsSpace, FirstLine, LastLine;
    FilteredEnds(m, gone);
    FirstLineWords(m);
    assert Words(FirstLine(m))[0] in Words(FirstLine(m));
  }

  lemma NoTip(m: string, gone: string -> bool)
    requires !StartsWord(m) && AllDropped(Words(FirstLine(m)), gone)
    ensures var f := Filler.FilterProse(m, gone);
            !StartsWord(f) && Tip(f) == "" && Rest(f) == Filler.Without(Rest(m), gone)
  {
    hide Filler.FilterProse, IsSpace, FirstLine, LastLine, AllDropped;
    FilteredEnds(m, gone);
  }

  lemma {:induction false} WithoutLast(ws: seq<string>, z: string, gone: string -> bool)
    requires !gone(z)
    ensures Filler.Without(ws + [z], gone) == Filler.Without(ws, gone) + [z]
  {
    Filler.WithoutConcat(ws, [z], gone);
    Filler.WithoutOne(z, gone);
  }

  lemma KeptTail(m: string, gone: string -> bool)
    requires EndsInWord(m) && !gone(Tail(m))
    ensures var f := Filler.FilterProse(m, gone);
            EndsInWord(f) && Tail(f) == Tail(m) && Stem(f) == Filler.Without(Stem(m), gone)
  {
    hide Filler.FilterProse, Filler.Without, IsSpace, FirstLine, LastLine;
    FilteredEnds(m, gone);
    LastLineWords(m);
    StemAndTail(LastLine(m));
    assert Tail(m) in Words(LastLine(m));
    StemAndTail(m);
    WithoutLast(Stem(m), Tail(m), gone);
  }

  lemma NoTail(m: string, gone: string -> bool)
    requires !EndsInWord(m) && AllDropped(Words(LastLine(m)), gone)
    ensures var f := Filler.FilterProse(m, gone);
            !EndsInWord(f) && Tail(f) == "" && Stem(f) == Filler.Without(Stem(m), gone)
  {
    hide Filler.FilterProse, IsSpace, FirstLine, LastLine, AllDropped;
    FilteredEnds(m, gone);
  }

  // ----- Nothing but droppable words goes ------------------------------------

  /** Two texts, the second with words removed, that look the same from their right ends. */
  ghost predicate Joined(a: string, b: string, drop: string -> bool) {
    (EndsInWord(a) <==> EndsInWord(b)) && Tail(a) == Tail(b) && Embeds(Stem(a), Stem(b), drop)
  }

  lemma JoinedIsEmbedded(a: string, b: string, drop: string -> bool)
    requires Joined(a, b, drop)
    ensures Embeds(Words(a), Words(b), drop)
  {
    hide Embeds, Stem, Tail;
    StemAndTail(a);
    StemAndTail(b);
    if EndsInWord(a) {
      EmbedsReflexive([Tail(a)], drop);
      EmbedsConcat(Stem(a), [Tail(a)], Stem(b), [Tail(b)], drop);
    }
  }

  /** The same from their left ends. */
  ghost predicate Follows(x: string, y: string, drop: string -> bool) {
    (StartsWord(x) <==> StartsWord(y)) && Tip(x) == Tip(y) && Embeds(Rest(x), Rest(y), drop)
  }

  lemma JoinedThenFollows(a: string, b: string, x: string, y: string, drop: string -> bool)
    requires Joined(a, b, drop) && Follows(x, y, drop)
    ensures Embeds(Words(a + x), Words(b + y), drop)
  {
    hide Embeds, Stem, Tail, Tip, Rest;
    WordsMeet(a, x);
    WordsMeet(b, y);
    EmbedsReflexive(Meet(a, x), drop);
    EmbedsConcat(Stem(a), Meet(a, x), Stem(b), Meet(b, y), drop);
    EmbedsConcat(Stem(a) + Meet(a, x), Rest(x), Stem(b) + Meet(b, y), Rest(y), drop);
  }

  lemma LastOfConcat<T>(u: seq<T>, v: seq<T>)
    requires v != []
    ensures (u + v)[..|u + v| - 1] == u + v[..|v| - 1] && (u + v)[|u + v| - 1] == v[|v| - 1]
  {
  }

  lemma EndOfConcat(a: string, x: string)
    requires x != ""
    ensures EndsInWord(a + x) <==> EndsInWord(x)
    ensures !EndsInWord(x) ==> Stem(a + x) == Words(a + x) && Tail(a + x) == ""
    ensures EndsInWord(x) && Rest(x) != [] ==>
              Tail(a + x) == Rest(x)[|Rest(x)| - 1] && Stem(a + x) == Stem(a) + Meet(a, x) + Rest(x)[..|Rest(x)| - 1]
    ensures EndsInWord(x) && Rest(x) == [] ==> Tail(a + x) == Tail(a) + Tip(x) && Stem(a + x) == Stem(a)
  {
    hide Words, IsSpace;
    assert (a + x)[|a + x| - 1] == x[|x| - 1];
    if EndsInWord(x) { EndOfWords(a, x); }
  }

  lemma EndOfWords(a: string, x: string)
    requires EndsInWord(x) && EndsInWord(a + x)
    ensures Rest(x) != [] ==>
              Tail(a + x) == Rest(x)[|Rest(x)| - 1] && Stem(a + x) == Stem(a) + Meet(a, x) + Rest(x)[..|Rest(x)| - 1]
    ensures Rest(x) == [] ==> Tail(a + x) == Tail(a) + Tip(x) && Stem(a + x) == Stem(a)
  {
    hide Words, IsSpace, Tip, Rest;
    WordsMeet(a, x);
    EndsInWordHasWords(a + x);
    if Rest(x) != [] {
      LastOfConcat(Stem(a) + Meet(a, x), Rest(x));
    } else {
      NoRest(x);
      LastOfConcat(Stem(a), Meet(a, x));
      assert Stem(a) + Meet(a, x) + [] == Stem(a) + Meet(a, x);
      assert Stem(a) + Meet(a, x)[..0] == Stem(a);
    }
  }

  lemma NoRest(x: string)
    requires EndsInWord(x) && Rest(x) == []
    ensures StartsWord(x)
  {
    hide IsSpace, Words;
    EndsInWordHasWords(x);
  }

  lemma FilteredFollows(m: string, gone: string -> bool)
    requires LeftSafe(gone, gone, m)
    ensures Follows(m, Filler.FilterProse(m, gone), gone)
  {
    hide Filler.FilterProse, Embeds, AllDropped, IsSpace;
    if StartsWord(m) { KeptTip(m, gone); } else { NoTip(m, gone); }
    RestIsWords(m);
    Filler.WithoutIsEmbedded(Rest(m), gone);
  }

  lemma RestIsWords(m: string)
    ensures Filler.AllWords(Rest(m)) && Filler.AllWords(Stem(m))
  {
  }

  lemma JoinedFence(a: string, b: string, f: string, drop: string -> bool)
    requires Joined(a, b, drop) && IsSolid(f)
    ensures Joined(a + f, b + f, drop)
  {
    hide Embeds, IsSpace, Words;
    EndOfConcat(a, f);
    EndOfConcat(b, f);
    if Rest(f) != [] {
      var init := Rest(f)[..|Rest(f)| - 1];
      EmbedsReflexive(Meet(a, f), drop);
      EmbedsReflexive(init, drop);
      EmbedsConcat(Stem(a), Meet(a, f), Stem(b), Meet(b, f), drop);
      EmbedsConcat(Stem(a) + Meet(a, f), init, Stem(b) + Meet(b, f), init, drop);
    }
  }

  lemma RestEnds(m: string)
    requires EndsInWord(m) && Rest(m) != []
    ensures Rest(m) == Rest(m)[..|Rest(m)| - 1] + [Tail(m)]
  {
  }

  lemma JoinedProse(a: string, b: string, m: string, gone: string -> bool)
    requires Joined(a, b, gone) && m != "" && ProseSafe(gone, gone, gone, true, true, m)
    ensures Joined(a + m, b + Filler.FilterProse(m, gone), gone)
  {
    hide Embeds, IsSpace, Words, Filler.FilterProse, AllDropped, Tip, Stem, Tail, Rest, Meet, Filler.Without;
    var f := Filler.FilterProse(m, gone);
    FilteredFollows(m, gone);
    FilteredStays(m, gone);
    if EndsInWord(m) {
      KeptTail(m, gone);
      JoinedKept(a, b, m, f, gone);
    } else {
      NoTail(m, gone);
      EndOfConcat(a, m);
      EndOfConcat(b, f);
      JoinedThenFollows(a, b, m, f, gone);
    }
  }

  lemma FilteredStays(m: string, gone: string -> bool)
    requires m != "" && ProseSafe(gone, gone, gone, true, true, m)
    ensures Filler.FilterProse(m, gone) != ""
  {
    hide Filler.FilterProse, AllDropped;
    FilteredEnds(m, gone);
    if '\n' !in m { KeptTip(m, gone); }
  }

  lemma JoinedKept(a: string, b: string, m: string, f: string, gone: string -> bool)
    requires Joined(a, b, gone) && Follows(m, f, gone) && LeftSafe(gone, gone, m) && f == Filler.FilterProse(m, gone)
    requires EndsInWord(m) && EndsInWord(f) && !gone(Tail(m)) && Tail(m) == Tail(f)
    ensures Joined(a + m, b + f, gone)
  {
    hide Embeds, IsSpace, Words, Filler.FilterProse, AllDropped, Tip, Stem, Rest, Filler.Without;
    EndOfConcat(a, m);
    EndOfConcat(b, f);
    FilteredRest(m, gone);
    if Rest(m) == [] {
      Filler.WithoutOne("", gone);
    } else {
      var x := Rest(m)[..|Rest(m)| - 1];
      RestEnds(m);
      RestIsWords(m);
      WithoutLast(x, Tail(m), gone);
      assert Rest(f)[..|Rest(f)| - 1] == Filler.Without(x, gone);
      Filler.WithoutIsEmbedded(x, gone);
      EmbedsReflexive(Meet(a, m), gone);
      EmbedsConcat(Stem(a), Meet(a, m), Stem(b), Meet(b, f), gone);
      EmbedsConcat(Stem(a) + Meet(a, m), x, Stem(b) + Meet(b, f), Filler.Without(x, gone), gone);
    }
  }

  lemma FilteredRest(m: string, gone: string -> bool)
    requires LeftSafe(gone, gone, m)
    ensures Rest(Filler.FilterProse(m, gone)) == Filler.Without(Rest(m), gone)
  {
    hide Filler.FilterProse;
    if StartsWord(m) { KeptTip(m, gone); } else { NoTip(m, gone); }
  }

  /** Filtering lays down the same words, seam after seam, less the droppable ones. */
  lemma {:induction false} FilteredSpansEmbed(a: string, b: string, spans: seq<Span>, gone: string -> bool)
    requires Joined(a, b, gone) && Alternates(spans) && (forall s <- spans :: s.text != "")
    requires SeamsSafe(gone, gone, gone, true, spans)
    ensures Embeds(Words(a + Concat(spans)), Words(b + Concat(RespanAll(Filler.Filtering(gone), spans))), gone)
    decreases |spans|
  {
    hide Joined, IsSolid, Filler.FilterProse, Words, Embeds, LeftSafe, RightSafe;
    if spans == [] {
      assert a + "" == a && b + "" == b;
      JoinedIsEmbedded(a, b, gone);
    } else {
      var x, rest := spans[0].text, spans[1..];
      var y, rest' := Respan(Filler.Filtering(gone), spans[0]).text, RespanAll(Filler.Filtering(gone), rest);
      assert spans[0] in spans;
      assert RespanAll(Filler.Filtering(gone), spans)[1..] == rest';
      CatAssociative(a, x, Concat(rest));
      CatAssociative(b, y, Concat(rest'));
      if !spans[0].mutable {
        JoinedFence(a, b, x, gone);
        FilteredSpansEmbed(a + x, b + x, rest, gone);
      } else if rest == [] {
        FilteredFollows(x, gone);
        JoinedThenFollows(a, b, x, y, gone);
        assert x + "" == x && y + "" == y;
      } else {
        JoinedProse(a, b, x, gone);
        assert SeamsSafe(gone, gone, gone, true, rest) by { FenceFirst(gone, gone, gone, rest); }
        FilteredSpansEmbed(a + x, b + y, rest, gone);
      }
    }
  }

  /** Before a fence it does not matter what came before. */
  lemma FenceFirst(left: string -> bool, right: string -> bool, drop: string -> bool, spans: seq<Span>)
    requires spans != [] && !spans[0].mutable
    ensures SeamsSafe(left, right, drop, false, spans) <==> SeamsSafe(left, right, drop, true, spans)
  {
  }

  // ----- A newline in front --------------------------------------------------

  /** The spans of a text with a newline in front: its first seam then has nothing on the left. */
  function Lead(spans: seq<Span>): seq<Span> {
    if spans != [] && spans[0].mutable then [Span("\n" + spans[0].text, true)] + spans[1..]
    else [Span("\n", true)] + spans
  }

  lemma LeadConcat(spans: seq<Span>)
    ensures Concat(Lead(spans)) == "\n" + Concat(spans)
    ensures Words("\n" + Concat(spans)) == Words(Concat(spans)) && !StartsWord("\n" + Concat(spans))
  {
    var t := Concat(spans);
    assert IsSpace('\n') && ("\n" + t)[1..] == t;
    if spans != [] && spans[0].mutable {
      assert Lead(spans)[1..] == spans[1..];
      CatAssociative("\n", spans[0].text, Concat(spans[1..]));
    } else {
      assert Lead(spans)[1..] == spans;
    }
  }

  lemma LeadFiltered(spans: seq<Span>, gone: string -> bool)
    ensures Concat(RespanAll(Filler.Filtering(gone), Lead(spans))) == "\n" + Concat(RespanAll(Filler.Filtering(gone), spans))
  {
    hide Filler.FilterProse;
    var out := RespanAll(Filler.Filtering(gone), spans);
    var m := if spans != [] && spans[0].mutable then spans[0].text else "";
    FilteredNewline(m, gone);
    if spans != [] && spans[0].mutable {
      assert Lead(spans)[1..] == spans[1..] && out[1..] == RespanAll(Filler.Filtering(gone), spans[1..]);
      assert RespanAll(Filler.Filtering(gone), Lead(spans)) == Lead(out);
    } else {
      assert Lead(spans)[1..] == spans;
      assert RespanAll(Filler.Filtering(gone), Lead(spans)) == [Span("\n", true)] + out;
      assert ([Span("\n", true)] + out)[1..] == out;
    }
    LeadConcat(out);
  }

  lemma FilteredNewline(m: string, gone: string -> bool)
    ensures Filler.FilterProse("\n" + m, gone) == "\n" + Filler.FilterProse(m, gone)
    ensures Filler.FilterProse("\n", gone) == "\n"
  {
    hide Filler.FilterProse, Words;
    Filler.FilterProseCons("", m, gone);
    Filler.FilterProseCons("", "", gone);
    Filler.FilterLineIsEmbedded("", gone);
    assert "" + "\n" + m == "\n" + m && "" + "\n" + "" == "\n";
  }

  lemma LeadProse(left: string -> bool, right: string -> bool, drop: string -> bool, next: bool, m: string)
    ensures ProseSafe(left, right, drop, true, next, "\n" + m) <==> ProseSafe(left, right, drop, false, next, m)
  {
    var t := "\n" + m;
    assert IsSpace('\n') && t[1..] == m;
    assert FirstLine(t) == "" && Words("") == [];
    LastLineCons('\n', m);
    assert m != "" ==> t[|t| - 1] == m[|m| - 1];
  }

  lemma LeadSafe(left: string -> bool, right: string -> bool, drop: string -> bool, spans: seq<Span>)
    ensures SeamsSafe(left, right, drop, true, Lead(spans)) <==> SeamsSafe(left, right, drop, false, spans)
  {
    hide ProseSafe;
    if spans != [] && spans[0].mutable {
      assert Lead(spans)[1..] == spans[1..];
      LeadProse(left, right, drop, |spans| > 1, spans[0].text);
    } else {
      assert Lead(spans)[1..] == spans;
      LeadProse(left, right, drop, spans != [], "");
      assert "\n" + "" == "\n";
      NothingIsSafe(left, right, drop, spans != []);
    }
  }

  lemma NothingIsSafe(left: string -> bool, right: string -> bool, drop: string -> bool, next: bool)
    ensures ProseSafe(left, right, drop, false, next, "")
  {
    assert Words("") == [];
  }

  lemma LeadAlternates(spans: seq<Span>)
    requires Alternates(spans) && forall s <- spans :: s.text != ""
    ensures Alternates(Lead(spans)) && forall s <- Lead(spans) :: s.text != ""
  {
    hide IsSolid;
    var all := Lead(spans);
    if spans != [] && spans[0].mutable {
      assert all[1..] == spans[1..];
    } else {
      assert all[1..] == spans;
    }
  }

  lemma {:induction false} CanonicalIsNotEmpty(spans: seq<Span>)
    requires Canonical(spans)
    ensures forall s <- spans :: s.text != ""
  {
    if spans != [] {
      CanonicalIsNotEmpty(spans[1..]);
      assert forall s <- spans :: s == spans[0] || s in spans[1..];
    }
  }

  lemma FilteredText(t: string, gone: string -> bool)
    ensures Filler.StripFillers(t, gone) == Concat(RespanAll(Filler.Filtering(gone), Scan(t)))
    ensures Concat(Scan(t)) == t
  {
    hide Filler.FilterProse;
    ScanIsCanonical(t, 0);
    FilteredNewline("", gone);
    Filler.FilterProseCons("", "", gone);
    Filler.FilterLineIsEmbedded("", gone);
    CodeAwareSpells(Filler.Filtering(gone), t);
    ConcatDropEmpty(RespanAll(Filler.Filtering(gone), Scan(t)));
    assert t[0..] == t;
  }

  /** On a text whose seams are safe the filler pass removes droppable words and nothing else. */
  lemma FillingIsSafe(t: string, gone: string -> bool)
    requires SeamsSafe(gone, gone, gone, false, Scan(t))
    ensures Embeds(Words(t), Words(Filler.StripFillers(t, gone)), gone)
  {
    hide Embeds, SeamsSafe, Words, Filler.FilterProse, IsSolid, Alternates, Canonical, Lead, Concat, RespanAll, Joined, Filler.StripFillers, ScanFrom;
    var spans := Scan(t);
    ScanIsCanonical(t, 0);
    CanonicalAlternates(spans);
    CanonicalIsNotEmpty(spans);
    LeadAlternates(spans);
    LeadSafe(gone, gone, gone, spans);
    FilteredText(t, gone);
    LeadConcat(spans);
    LeadFiltered(spans, gone);
    LeadConcat(RespanAll(Filler.Filtering(gone), spans));
    NothingJoined(gone);
    FilteredSpansEmbed("", "", Lead(spans), gone);
    var out := Concat(RespanAll(Filler.Filtering(gone), Lead(spans)));
    assert "" + Concat(Lead(spans)) == "\n" + t && "" + out == out;
  }

  lemma NothingJoined(drop: string -> bool)
    ensures Joined("", "", drop)
  {
    EmbedsReflexive([], drop);
  }

  // ----- The seams stay safe -------------------------------------------------

  lemma FilteredProseIsSafe(gone: string -> bool, drop: string -> bool, prev: bool, next: bool, m: string)
    requires ProseSafe(gone, gone, drop, prev, next, m) && forall w :: gone(w) ==> drop(w)
    ensures ProseSafe(Nothing(), Nothing(), drop, prev, next, Filler.FilterProse(m, gone))
  {
    hide Filler.FilterProse, IsSpace, Embeds;
    FilteredEnds(m, gone);
    Filler.FilterProseIsEmbedded(m, gone);
    FilteredLineEnds(FirstLine(m), gone);
    FilteredLineEnds(LastLine(m), gone);
    WordsOfBlank("");
    if prev && StartsWord(m) { KeptTip(m, gone); }
    if next && EndsInWord(m) { KeptTail(m, gone); }
  }

  lemma WordsOfRStrip(line: string)
    requires '\n' !in line
    ensures Words(RStrip(line)) == Words(line)
  {
    Lossless.OneLineNormalises(line);
    Lossless.NormaliseKeepsWords(line);
  }

  lemma NormalisedEnds(m: string)
    ensures var n := Lossless.NormaliseWhitespace(m);
            Words(n) == Words(m) && (StartsWord(n) <==> StartsWord(m)) && Words(FirstLine(n)) == Words(FirstLine(m)) &&
            (EndsInWord(n) <==> Words(LastLine(m)) != []) && ('\n' in n <==> '\n' in m)
  {
    hide Lossless.NormaliseWhitespace, Words, IsSpace;
    var n := Lossless.NormaliseWhitespace(m);
    Lossless.NormaliseKeepsWords(m);
    Lossless.NormaliseFirstLine(m);
    Lossless.NormaliseLastLine(m);
    FirstLineWords(m);
    LastLineWords(m);
    WordsOfRStrip(FirstLine(m));
    WordsOfRStrip(LastLine(m));
    LastLineWords(n);
    RStripIsTrimmed(LastLine(m));
    if AllBlank(LastLine(m)) { WordsOfBlank(LastLine(m)); } else if Words(LastLine(m)) == [] { AllBlankIfNoWords(LastLine(m)); }
  }

  lemma NormalisedProseIsSafe(left: string -> bool, drop: string -> bool, prev: bool, next: bool, m: string)
    requires ProseSafe(left, Nothing(), drop, prev, next, m)
    ensures ProseSafe(left, Nothing(), drop, prev, next, Lossless.NormaliseWhitespace(m))
  {
    hide Lossless.NormaliseWhitespace, IsSpace, Words;
    var n := Lossless.NormaliseWhitespace(m);
    NormalisedEnds(m);
    LastLineWords(m);
    if EndsInWord(m) { EndsInWordHasWords(LastLine(m)); }
    Lossless.NormaliseLastLine(m);
    RStripIsTrimmed(LastLine(m));
    LastLineWords(n);
    if next && !EndsInWord(m) { NothingGone(Words(LastLine(m))); WordsOfBlank(LastLine(m)); WordsOfBlank(""); }
  }

  lemma NothingGone(ws: seq<string>)
    ensures AllDropped(ws, Nothing()) <==> ws == []
  {
    if ws != [] { assert ws[0] in ws; }
  }

  lemma {:induction false} RespanSafe(prose: string -> string, left: string -> bool, right: string -> bool, drop: string -> bool,
                                      left': string -> bool, right': string -> bool, prev: bool, spans: seq<Span>)
    requires SeamsSafe(left, right, drop, prev, spans)
    requires forall prev, next, m :: ProseSafe(left, right, drop, prev, next, m) ==> ProseSafe(left', right', drop, prev, next, prose(m))
    ensures SeamsSafe(left', right', drop, prev, RespanAll(prose, spans))
    decreases |spans|
  {
    hide ProseSafe;
    if spans != [] {
      RespanSafe(prose, left, right, drop, left', right', !spans[0].mutable, spans[1..]);
      RespanLength(prose, spans);
      assert RespanAll(prose, spans)[1..] == RespanAll(prose, spans[1..]);
    }
  }

  lemma {:induction false} RespanLength(prose: string -> string, spans: seq<Span>)
    ensures |RespanAll(prose, spans)| == |spans|
  {
    if spans != [] { RespanLength(prose, spans[1..]); }
  }

  lemma {:induction false} RespanAlternates(prose: string -> string, spans: seq<Span>)
    requires Alternates(spans)
    ensures Alternates(RespanAll(prose, spans))
  {
    hide IsSolid;
    if spans != [] {
      var rest := RespanAll(prose, spans[1..]);
      RespanAlternates(prose, spans[1..]);
      RespanLength(prose, spans);
      assert RespanAll(prose, spans)[1..] == rest;
      if |spans| > 1 { assert rest[0] == Respan(prose, spans[1]); }
    }
  }

  lemma {:induction false} DropEmptySafe(left: string -> bool, right: string -> bool, drop: string -> bool, prev: bool, spans: seq<Span>)
    requires SeamsSafe(left, right, drop, prev, spans) && Alternates(spans)
    ensures SeamsSafe(left, right, drop, prev, DropEmpty(spans))
    decreases |spans|
  {
    hide LeftSafe, RightSafe, IsSpace;
    if spans != [] {
      var s, kept := spans[0], DropEmpty(spans[1..]);
      DropEmptySafe(left, right, drop, !s.mutable, spans[1..]);
      assert ([s] + kept)[1..] == kept;
      if s.mutable && |spans| > 1 {
        assert spans[1..][0] == spans[1] && IsSolid(spans[1].text);
        assert kept != [];
      }
    }
  }

  // ----- The rewritten text, classified again --------------------------------

  lemma NoTickLent(m: string, gone: string -> bool)
    requires RightSafe(gone, gone, m) && !EndsInTick(m)
    ensures !EndsInTick(Filler.FilterProse(m, gone))
  {
    hide Filler.FilterProse, IsSpace, Words, Stem, AllDropped;
    CommonSpaces();
    if EndsInWord(m) {
      KeptTail(m, gone);
      TailEnds(m);
      TailEnds(Filler.FilterProse(m, gone));
    } else {
      NoTail(m, gone);
    }
  }

  lemma {:induction false} SafeLendsNoTick(gone: string -> bool, prev: bool, spans: seq<Span>)
    requires Canonical(spans) && SeamsSafe(gone, gone, gone, prev, spans)
    ensures LendsNoTick(Filler.Filtering(gone), spans)
    decreases |spans|
  {
    hide Filler.FilterProse, LeftSafe, RightSafe, IsClosedFence, HasFence, HasClosedPair, EndsInTick;
    if spans != [] {
      SafeLendsNoTick(gone, !spans[0].mutable, spans[1..]);
      if spans[0].mutable && |spans| > 1 { NoTickLent(spans[0].text, gone); }
    }
  }

  lemma FilteringIsGentle(gone: string -> bool)
    ensures Filler.Filtering(gone)("") == "" && forall u :: Gentle(Filler.Filtering(gone), u)
  {
    hide Filler.FilterProse, Embeds, HasFence, HasClosedPair;
    Filler.FilterProseCons("", "", gone);
    Filler.FilterLineIsEmbedded("", gone);
    forall u ensures Gentle(Filler.Filtering(gone), u) {
      Filler.FilterProseIsEmbedded(u, gone);
      EmbedsGentle(u, Filler.FilterProse(u, gone), gone);
    }
  }

  lemma NormalisingIsGentle()
    ensures Lossless.NormaliseWhitespace("") == "" && forall u :: Gentle(Lossless.NormaliseWhitespace, u)
  {
    Lossless.NormaliseEmpty();
    forall u ensures Gentle(Lossless.NormaliseWhitespace, u) { Lossless.NormaliseIsGentle(u); }
  }

  /** Where no tick is lent, the rewritten text scans as the rewritten spans. */
  lemma ScanAfter(prose: string -> string, t: string)
    requires prose("") == "" && (forall u :: Gentle(prose, u)) && LendsNoTick(prose, Scan(t))
    ensures Scan(CodeAware(prose, t)) == DropEmpty(RespanAll(prose, Scan(t)))
  {
    hide Gentle, ScanFrom, Canonical;
    ScanIsCanonical(t, 0);
    RespanCanonical(prose, Scan(t));
    CodeAwareSpells(prose, t);
    CanonicalIsUnique(DropEmpty(RespanAll(prose, Scan(t))));
  }

  /** After the filler pass nothing stands on a fence's line that does not touch it. */
  lemma FilledSeamsAreSafe(t: string, gone: string -> bool, drop: string -> bool)
    requires SeamsSafe(gone, gone, drop, false, Scan(t)) && forall w :: gone(w) ==> drop(w)
    ensures SeamsSafe(Nothing(), Nothing(), drop, false, Scan(Filler.StripFillers(t, gone)))
  {
    hide SeamsSafe, ProseSafe, Filler.FilterProse, Gentle, ScanFrom, Canonical, Alternates, LendsNoTick;
    var spans := Scan(t);
    ScanIsCanonical(t, 0);
    SeamsSafeMonotone(gone, gone, drop, gone, gone, gone, false, spans);
    SafeLendsNoTick(gone, false, spans);
    FilteringIsGentle(gone);
    ScanAfter(Filler.Filtering(gone), t);
    forall prev, next, m | ProseSafe(gone, gone, drop, prev, next, m)
      ensures ProseSafe(Nothing(), Nothing(), drop, prev, next, Filler.Filtering(gone)(m))
    {
      FilteredProseIsSafe(gone, drop, prev, next, m);
    }
    RespanSafe(Filler.Filtering(gone), gone, gone, drop, Nothing(), Nothing(), false, spans);
    CanonicalAlternates(spans);
    RespanAlternates(Filler.Filtering(gone), spans);
    DropEmptySafe(Nothing(), Nothing(), drop, false, RespanAll(Filler.Filtering(gone), spans));
  }

  /** What normalising needs of a text follows from its seams being safe. */
  lemma {:induction false} SafeIsSetOff(before: string, left: string -> bool, drop: string -> bool, prev: bool, spans: seq<Span>)
    requires Alternates(spans) && SeamsSafe(left, Nothing(), drop, prev, spans)
    requires if prev then EndsInWord(before) else before == "" || (spans != [] ==> !spans[0].mutable)
    requires !prev && spans != [] && !spans[0].mutable ==> AllBlank(LastLine(before)) || EndsInWord(LastLine(before))
    ensures Lossless.FencesSetOff(before, spans)
    decreases |spans|
  {
    hide AllBlank, Words, LeftSafe, AllDropped, IsSpace;
    if spans != [] {
      var m, rest := spans[0].text, spans[1..];
      if !spans[0].mutable {
        Lossless.LastLineEnd(before);
        SafeIsSetOff(before + m, left, drop, true, rest);
      } else {
        if rest != [] { ProseSetOff(before, left, drop, prev, m); }
        SafeIsSetOff(before + m, left, drop, false, rest);
      }
    }
  }

  lemma ProseSetOff(before: string, left: string -> bool, drop: string -> bool, prev: bool, m: string)
    requires ProseSafe(left, Nothing(), drop, prev, true, m) && (prev || before == "")
    ensures AllBlank(LastLine(before + m)) || EndsInWord(LastLine(before + m))
  {
    hide LeftSafe, Words, AllBlank;
    LastLineConcat(before, m);
    Lossless.LastLineEnd(m);
    Lossless.LastLineEnd(before + m);
    if EndsInWord(m) {
      assert (before + m)[|before + m| - 1] == m[|m| - 1];
    } else {
      NothingGone(Words(LastLine(m)));
      AllBlankIfNoWords(LastLine(m));
      if '\n' !in m {
        OneLine(m);
        assert "" + m == m;
      }
    }
  }

  /** Normalising keeps every word of such a text, and its seams safe. */
  lemma NormalisedSeamsAreSafe(t: string, left: string -> bool, drop: string -> bool)
    requires SeamsSafe(left, Nothing(), drop, false, Scan(t))
    ensures Lossless.FencesSetOff("", Scan(t)) && Words(Lossless.NormaliseCodeAware(t)) == Words(t)
    ensures SeamsSafe(left, Nothing(), drop, false, Scan(Lossless.NormaliseCodeAware(t)))
  {
    hide SeamsSafe, ProseSafe, Lossless.NormaliseWhitespace, Gentle, ScanFrom, Canonical, Alternates, LendsNoTick,
         Lossless.FencesSetOff, Lossless.NoTickBeforeFence, Words;
    var spans := Scan(t);
    ScanIsCanonical(t, 0);
    CanonicalAlternates(spans);
    assert AllBlank(LastLine(""));
    SafeIsSetOff("", left, drop, false, spans);
    Lossless.WordsSurviveNormalisation(t);
    Lossless.SetOffMeansNoTick("", spans);
    Lossless.NoTickIsLendsNoTick(spans);
    NormalisingIsGentle();
    ScanAfter(Lossless.NormaliseWhitespace, t);
    forall prev, next, m | ProseSafe(left, Nothing(), drop, prev, next, m)
      ensures ProseSafe(left, Nothing(), drop, prev, next, Lossless.NormaliseWhitespace(m))
    {
      NormalisedProseIsSafe(left, drop, prev, next, m);
    }
    RespanSafe(Lossless.NormaliseWhitespace, left, Nothing(), drop, left, Nothing(), false, spans);
    RespanAlternates(Lossless.NormaliseWhitespace, spans);
    DropEmptySafe(left, Nothing(), drop, false, RespanAll(Lossless.NormaliseWhitespace, spans));
  }
}
