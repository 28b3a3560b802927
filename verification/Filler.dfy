/** Dropping allow-listed words from prose, line by line (`parcus.compress.filler`). */
module Filler {
  import opened Text
  import opened Spans
  import opened Rewriting
  import opened Removal

  function Without(ws: seq<string>, drop: string -> bool): (kept: seq<string>)
    ensures forall w :: w in kept <==> w in ws && !drop(w)
  {
    if ws == [] then []
    else (if drop(ws[0]) then [] else [ws[0]]) + Without(ws[1..], drop)
  }

  /** `" ".join(ws)`. */
  function JoinSpaces(ws: seq<string>): string {
    if ws == [] then "" else if |ws| == 1 then ws[0] else ws[0] + " " + JoinSpaces(ws[1..])
  }

  function FilterLine(line: string, drop: string -> bool): string {
    JoinSpaces(Without(Words(line), drop))
  }

  function FilterLines(ls: seq<string>, drop: string -> bool): seq<string> {
    if ls == [] then [] else [FilterLine(ls[0], drop)] + FilterLines(ls[1..], drop)
  }

  /** `_filter_prose`: every line keeps its words that may not be dropped, one space apart. */
  function FilterProse(t: string, drop: string -> bool): string {
    JoinLines(FilterLines(Lines(t), drop))
  }

  function Filtering(drop: string -> bool): string -> string {
    t => FilterProse(t, drop)
  }

  function StripFillers(t: string, drop: string -> bool): string {
    CodeAware(Filtering(drop), t)
  }

  // ----- Words and spaces ----------------------------------------------------

  ghost predicate AllWords(ws: seq<string>) {
    forall k :: 0 <= k < |ws| ==> IsWord(ws[k])
  }

  lemma {:induction false} WithoutIsEmbedded(ws: seq<string>, drop: string -> bool)
    requires AllWords(ws)
    ensures Embeds(ws, Without(ws, drop), drop) && AllWords(Without(ws, drop))
  {
    hide Embeds;
    if ws == [] {
      EmbedsReflexive(ws, drop);
    } else {
      var rest := Without(ws[1..], drop);
      WithoutIsEmbedded(ws[1..], drop);
      if drop(ws[0]) {
        assert [] + rest == rest;
        DropFirst(ws, rest, drop);
      } else {
        assert ([ws[0]] + rest)[1..] == rest;
        MatchFirst(ws, [ws[0]] + rest, drop);
      }
    }
  }

  lemma JoinSpacesCons(w: string, ws: seq<string>)
    ensures JoinSpaces([w] + ws) == if ws == [] then w else w + " " + JoinSpaces(ws)
    ensures JoinSpaces([]) == ""
  {
    assert ([w] + ws)[1..] == ws;
  }

  lemma {:induction false} WithoutFits(ws: seq<string>, drop: string -> bool)
    ensures |JoinSpaces(Without(ws, drop))| <= |JoinSpaces(ws)|
  {
    hide JoinSpaces;
    if ws != [] {
      var w, more, rest := ws[0], ws[1..], Without(ws[1..], drop);
      WithoutFits(more, drop);
      assert ws == [w] + more && [] + rest == rest;
      JoinSpacesCons(w, more);
      JoinSpacesCons(w, rest);
      if more == [] { WithoutOne(w, drop); }
    }
  }

  lemma WithoutOne(w: string, drop: string -> bool)
    ensures Without([], drop) == [] && (!drop(w) ==> Without([w], drop) == [w])
  {
    assert [w][1..] == [];
  }

  /** Splitting what was joined with spaces gives the words back. */
  lemma {:induction false} WordsOfJoinSpaces(ws: seq<string>)
    requires AllWords(ws)
    ensures Words(JoinSpaces(ws)) == ws
    ensures '\n' !in JoinSpaces(ws)
  {
    hide Words, JoinSpaces;
    assert IsSpace('\n');
    if ws == [] {
      JoinSpacesCons("", ws);
      WordsOfBlank("");
    } else {
      var w, more := ws[0], ws[1..];
      var tail := JoinSpaces(more);
      assert ws == [w] + more;
      JoinSpacesCons(w, more);
      WordsOfWord(w);
      WordsOfJoinSpaces(more);
      WordsOfBlank(" ");
      WordsApart(w + " ", tail);
      WordsApart(w, " ");
      assert [w] + [] == [w];
    }
  }

  /** Words joined with single spaces take no more room than the line they came from. */
  lemma {:induction false} JoinSpacesFits(t: string)
    ensures |JoinSpaces(Words(t))| <= |t|
    decreases |t|
  {
    if Words(t) != [] {
      var blank, w, rest := FirstWord(t);
      JoinSpacesFits(rest);
      assert Words(t)[1..] == Words(rest);
      if Words(rest) != [] {
        var b, _, _ := FirstWord(rest);
        assert rest != "" && IsSpace(rest[0]);
        JoinSpacesFits(rest[1..]);
      }
    }
  }

  lemma FilterLineIsEmbedded(line: string, drop: string -> bool)
    ensures Embeds(Words(line), Words(FilterLine(line, drop)), drop)
    ensures '\n' !in FilterLine(line, drop)
    ensures |FilterLine(line, drop)| <= |line|
    ensures AllBlank(line) ==> FilterLine(line, drop) == ""
  {
    WithoutIsEmbedded(Words(line), drop);
    WithoutFits(Words(line), drop);
    WordsOfJoinSpaces(Without(Words(line), drop));
    JoinSpacesFits(line);
    if AllBlank(line) { WordsOfBlank(line); }
  }

  // ----- Line by line --------------------------------------------------------

  /** What filtering does to a text, one line in front of the others at a time. */
  lemma {:induction false} FilterProseCons(line: string, t: string, drop: string -> bool)
    requires '\n' !in line
    ensures FilterProse(line, drop) == FilterLine(line, drop)
    ensures FilterProse(line + "\n" + t, drop) == FilterLine(line, drop) + "\n" + FilterProse(t, drop)
  {
    LinesCons(line, t);
    var ls := Lines(t);
    assert ([line] + ls)[1..] == ls && [line][1..] == [];
    var f := FilterLine(line, drop);
    assert ([f] + FilterLines(ls, drop))[1..] == FilterLines(ls, drop);
    assert FilterLines([line], drop) == [f];
  }

  lemma {:induction false} LinesCons(line: string, t: string)
    requires '\n' !in line
    ensures Lines(line) == [line]
    ensures Lines(line + "\n" + t) == [line] + Lines(t)
  {
    if line == "" {
      assert ("" + "\n" + t)[1..] == t;
    } else {
      LinesCons(line[1..], t);
      assert line == [line[0]] + line[1..];
      assert (line + "\n" + t)[1..] == line[1..] + "\n" + t;
      assert ([line[1..]] + Lines(t))[1..] == Lines(t);
    }
  }

  lemma {:induction false} CutLine(t: string) returns (line: string, rest: string)
    requires '\n' in t
    ensures '\n' !in line && t == line + "\n" + rest
  {
    if t[0] == '\n' {
      line, rest := "", t[1..];
      assert t == [t[0]] + t[1..];
    } else {
      var l, r := CutLine(t[1..]);
      line, rest := [t[0]] + l, r;
      assert t == [t[0]] + t[1..];
    }
  }

  /** Filtering prose deletes allowed words only, keeps the line structure, and never grows. */
  lemma {:induction false} FilterProseIsEmbedded(t: string, drop: string -> bool)
    ensures Embeds(Words(t), Words(FilterProse(t, drop)), drop)
    ensures |FilterProse(t, drop)| <= |t|
    ensures '\n' in FilterProse(t, drop) <==> '\n' in t
    ensures FirstLine(FilterProse(t, drop)) == FilterLine(FirstLine(t), drop)
    ensures LastLine(FilterProse(t, drop)) == FilterLine(LastLine(t), drop)
    decreases |t|
  {
    hide Embeds, FilterLine, FilterProse, IsSpace;
    if '\n' !in t {
      FilterProseCons(t, "", drop);
      FilterLineIsEmbedded(t, drop);
      OneLine(t);
      OneLine(FilterLine(t, drop));
    } else {
      var line, rest := CutLine(t);
      var f, g := FilterLine(line, drop), FilterProse(rest, drop);
      FilterProseIsEmbedded(rest, drop);
      FilterProseCons(line, rest, drop);
      FilterLineIsEmbedded(line, drop);
      WordsAcrossNewline(line, rest);
      WordsAcrossNewline(f, g);
      EmbedsConcat(Words(line), Words(rest), Words(f), Words(g), drop);
      OuterLines(line, rest);
      OuterLines(f, g);
    }
  }

  lemma WordsAcrossNewline(a: string, b: string)
    ensures Words(a + "\n" + b) == Words(a) + Words(b)
  {
    hide Words;
    assert IsSpace('\n');
    WordsApart(a + "\n", b);
    WordsApart(a, "\n");
    WordsOfBlank("\n");
    assert Words(a) + [] == Words(a);
  }

  lemma OuterLines(line: string, rest: string)
    requires '\n' !in line
    ensures FirstLine(line + "\n" + rest) == line
    ensures LastLine(line + "\n" + rest) == LastLine(rest)
    ensures '\n' in line + "\n" + rest
  {
    hide FirstLine, LastLine;
    LineBefore(line, rest);
    LineAfter(line, rest);
  }

  lemma LineBefore(line: string, rest: string)
    requires '\n' !in line
    ensures FirstLine(line + "\n" + rest) == line
  {
    OneLine(line);
    CatAssociative(line, "\n", rest);
    FirstLineConcat(line, "\n" + rest);
  }

  lemma LineAfter(line: string, rest: string)
    ensures LastLine(line + "\n" + rest) == LastLine(rest)
  {
    LastLineConcat(line + "\n", rest);
    if '\n' !in rest { OneLine(rest); }
  }

  // ----- Exactly the droppable words go --------------------------------------

  lemma {:induction false} WithoutConcat(a: seq<string>, b: seq<string>, drop: string -> bool)
    ensures Without(a + b, drop) == Without(a, drop) + Without(b, drop)
  {
    if a == [] {
      assert a + b == b;
    } else {
      assert (a + b)[1..] == a[1..] + b;
      WithoutConcat(a[1..], b, drop);
    }
  }

  /** The words left are those that may not be dropped, all of them and in order. */
  lemma {:induction false} FilterProseWords(t: string, drop: string -> bool)
    ensures Words(FilterProse(t, drop)) == Without(Words(t), drop)
    decreases |t|
  {
    hide FilterProse, Words, Without, Embeds;
    if '\n' !in t {
      FilterProseCons(t, "", drop);
      WithoutIsEmbedded(Words(t), drop);
      WordsOfJoinSpaces(Without(Words(t), drop));
    } else {
      var line, rest := CutLine(t);
      FilterProseCons(line, rest, drop);
      FilterProseWords(rest, drop);
      WithoutIsEmbedded(Words(line), drop);
      WordsOfJoinSpaces(Without(Words(line), drop));
      WordsAcrossNewline(line, rest);
      WordsAcrossNewline(FilterLine(line, drop), FilterProse(rest, drop));
      WithoutConcat(Words(line), Words(rest), drop);
    }
  }

  /** A word of the prose stays exactly when its normal form is not on the list. */
  lemma ListDecides(t: string, norm: string -> string, fillers: set<string>, w: string)
    ensures w in Words(Filtering(Among(norm, fillers))(t)) <==> w in Words(t) && norm(w) !in fillers
  {
    hide FilterProse, Words, Without;
    FilterProseWords(t, Among(norm, fillers));
  }

  // ----- A second pass finds nothing to drop ---------------------------------

  lemma {:induction false} WithoutIdempotent(ws: seq<string>, drop: string -> bool)
    ensures Without(Without(ws, drop), drop) == Without(ws, drop)
  {
    if ws != [] {
      WithoutIdempotent(ws[1..], drop);
      var rest := Without(ws[1..], drop);
      assert ([ws[0]] + rest)[1..] == rest && [] + rest == rest;
    }
  }

  lemma FilterLineIdempotent(line: string, drop: string -> bool)
    ensures FilterLine(FilterLine(line, drop), drop) == FilterLine(line, drop)
  {
    WithoutIsEmbedded(Words(line), drop);
    WordsOfJoinSpaces(Without(Words(line), drop));
    WithoutIdempotent(Words(line), drop);
  }

  lemma {:induction false} FilterProseIdempotent(t: string, drop: string -> bool)
    ensures FilterProse(FilterProse(t, drop), drop) == FilterProse(t, drop)
    decreases |t|
  {
    hide FilterLine, FilterProse, Words, Embeds;
    if '\n' !in t {
      FilterProseCons(t, "", drop);
      FilterLineIsEmbedded(t, drop);
      FilterProseCons(FilterLine(t, drop), "", drop);
      FilterLineIdempotent(t, drop);
    } else {
      var line, rest := CutLine(t);
      FilterProseIdempotent(rest, drop);
      FilterProseCons(line, rest, drop);
      FilterLineIsEmbedded(line, drop);
      FilterLineIdempotent(line, drop);
      FilterProseCons(FilterLine(line, drop), FilterProse(rest, drop), drop);
    }
  }

  // ----- What removing droppable words leaves --------------------------------

  lemma {:induction false} KeptRest(o: seq<string>, keep: seq<bool>, drop: string -> bool)
    requires |keep| == |o| && forall k :: 0 <= k < |o| && !keep[k] ==> drop(o[k])
    ensures Without(Kept(o, keep), drop) == Without(o, drop)
  {
    if o != [] {
      KeptRest(o[1..], keep[1..], drop);
      var rest := Kept(o[1..], keep[1..]);
      assert ([o[0]] + rest)[1..] == rest && [] + rest == rest;
    }
  }

  /** A removal leaves every word that may not be dropped, in order. */
  lemma EmbedsKeepsRest(o: seq<string>, c: seq<string>, drop: string -> bool)
    requires Embeds(o, c, drop)
    ensures Without(o, drop) == Without(c, drop)
  {
    var keep :| IsEmbedding(keep, o, c, drop);
    KeptRest(o, keep, drop);
  }

  // ----- The count -----------------------------------------------------------

  /** Two for each character and one for each word. */
  function Total(ws: seq<string>): nat {
    if ws == [] then 0 else 2 * |ws[0]| + 1 + Total(ws[1..])
  }

  lemma {:induction false} TotalConcat(a: seq<string>, b: seq<string>)
    ensures Total(a + b) == Total(a) + Total(b)
  {
    if a == [] {
      assert a + b == b;
    } else {
      assert (a + b)[1..] == a[1..] + b;
      TotalConcat(a[1..], b);
    }
  }

  /** The words that may not be dropped, counted. */
  function Held(ws: seq<string>, drop: string -> bool): nat {
    Total(Without(ws, drop))
  }

  lemma HeldConcat(a: seq<string>, b: seq<string>, drop: string -> bool)
    ensures Held(a + b, drop) == Held(a, drop) + Held(b, drop)
  {
    WithoutConcat(a, b, drop);
    TotalConcat(Without(a, drop), Without(b, drop));
  }

  lemma HeldOne(w: string, drop: string -> bool)
    ensures Held([w], drop) == if drop(w) then 0 else 2 * |w| + 1
    ensures Held([], drop) == 0
  {
    WithoutOne(w, drop);
    if drop(w) {
      assert Without([w], drop) == [];
    } else {
      var one := [w];
      assert Without(one, drop) == one && one[1..] == [] && Total(one) == 2 * |one[0]| + 1 + Total(one[1..]);
    }
  }

  lemma {:induction false} HeldWithout(ws: seq<string>, drop: string -> bool)
    ensures Held(Without(ws, drop), drop) == Held(ws, drop)
  {
    WithoutIdempotent(ws, drop);
  }

  // ----- Prose left as it is -------------------------------------------------

  /** Every blank that ends no line is one space between two words. */
  predicate Spaced(t: string) {
    forall i :: 0 <= i < |t| && IsSpace(t[i]) && t[i] != '\n' ==>
      t[i] == ' ' && 0 < i && i + 1 < |t| && !IsSpace(t[i - 1]) && !IsSpace(t[i + 1])
  }

  /** Evenly spaced prose without a droppable word. */
  predicate Spare(t: string, drop: string -> bool) {
    Spaced(t) && forall w <- Words(t) :: !drop(w)
  }

  lemma {:induction false} NoneWithout(ws: seq<string>, drop: string -> bool)
    ensures Without(ws, drop) == ws <==> forall w <- ws :: !drop(w)
  {
    if ws != [] {
      NoneWithout(ws[1..], drop);
      var rest := Without(ws[1..], drop);
      assert ws == [ws[0]] + ws[1..] && ([ws[0]] + rest)[1..] == rest;
      assert forall w <- ws :: w == ws[0] || w in ws[1..];
      WithoutShrinks(ws[1..], drop);
    }
  }

  lemma {:induction false} WithoutShrinks(ws: seq<string>, drop: string -> bool)
    ensures |Without(ws, drop)| <= |ws|
  {
    if ws != [] { WithoutShrinks(ws[1..], drop); }
  }

  lemma {:induction false} JoinSpacesIsSpaced(ws: seq<string>)
    requires AllWords(ws)
    ensures Spaced(JoinSpaces(ws)) && (ws != [] ==> StartsWord(JoinSpaces(ws)))
  {
    hide IsSpace;
    CommonSpaces();
    if ws == [] {
      JoinSpacesCons("", ws);
    } else {
      var w, more := ws[0], ws[1..];
      assert ws == [w] + more;
      JoinSpacesCons(w, more);
      JoinSpacesIsSpaced(more);
      if more != [] { SpacedCons(w, JoinSpaces(more)); }
    }
  }

  lemma SpacedCons(w: string, t: string)
    requires IsWord(w) && StartsWord(t)
    ensures Spaced(w + " " + t) <==> Spaced(t)
  {
    hide IsSpace;
    var u, n := w + " " + t, |w| + 1;
    CommonSpaces();
    assert forall i :: 0 <= i < |t| ==> u[n + i] == t[i];
    assert forall i :: 0 <= i < |w| ==> u[i] == w[i];
    if Spaced(u) {
      forall i | 0 <= i < |t| && IsSpace(t[i]) && t[i] != '\n'
        ensures t[i] == ' ' && 0 < i && i + 1 < |t| && !IsSpace(t[i - 1]) && !IsSpace(t[i + 1])
      {
        assert u[n + i] == t[i];
      }
    }
    if Spaced(t) {
      forall i | 0 <= i < |u| && IsSpace(u[i]) && u[i] != '\n'
        ensures u[i] == ' ' && 0 < i && i + 1 < |u| && !IsSpace(u[i - 1]) && !IsSpace(u[i + 1])
      {
        if i >= n { assert t[i - n] == u[i]; } else { assert i == |w| && u[i + 1] == t[0] && u[i - 1] == w[i - 1]; }
      }
    }
  }

  lemma FirstBlank(blank: string, t: string)
    requires AllBlank(blank)
    ensures blank != "" && '\n' !in blank + t ==> !Spaced(blank + t)
  {
    var u := blank + t;
    if blank != "" && '\n' !in u { assert u[0] == blank[0] && u[0] in u; }
  }

  /** The first word of evenly spaced text stands in front, a single space after it. */
  lemma SpacedFront(t: string) returns (w: string, more: string)
    requires Spaced(t) && '\n' !in t && t != ""
    ensures IsWord(w) && Words(t) == [w] + Words(more) && |more| < |t| && '\n' !in more
    ensures t == if more == "" then w else w + " " + more
    ensures more != "" ==> StartsWord(more)
  {
    hide Words;
    var w', rest := FrontOf(t);
    w := w';
    if rest == "" {
      more := "";
    } else {
      more := rest[1..];
      assert t[|w|] == rest[0] && (more != "" ==> t[|w| + 1] == more[0]);
      assert rest == " " + more && t == w + " " + more;
      WordsOfBlank(" ");
      WordsApart(" ", more);
      assert [] + Words(more) == Words(more);
    }
  }

  lemma FrontOf(t: string) returns (w: string, rest: string)
    requires Spaced(t) && '\n' !in t && t != ""
    ensures IsWord(w) && !StartsWord(rest) && Words(t) == [w] + Words(rest) && t == w + rest
  {
    hide Words;
    assert t + "" == t;
    if Words(t) == [] {
      AllBlankIfNoWords(t);
      FirstBlank(t, "");
    }
    var blank, w', rest' := FirstWord(t);
    w, rest := w', rest';
    CatAssociative(blank, w, rest);
    FirstBlank(blank, w + rest);
    assert "" + (w + rest) == w + rest;
  }

  lemma {:induction false} SpacedIsJoined(t: string)
    requires Spaced(t) && '\n' !in t
    ensures JoinSpaces(Words(t)) == t
    decreases |t|
  {
    hide IsSpace, JoinSpaces, Words, Spaced;
    JoinSpacesCons("", []);
    WordsOfBlank("");
    if t != "" {
      var w, more := SpacedFront(t);
      JoinSpacesCons(w, Words(more));
      if more != "" {
        SpacedCons(w, more);
        SpacedIsJoined(more);
      }
    }
  }

  lemma FilterLineSettled(line: string, drop: string -> bool)
    requires '\n' !in line
    ensures FilterLine(line, drop) == line <==> Spare(line, drop)
  {
    hide JoinSpaces, Words, Spaced;
    var ws := Words(line);
    WithoutIsEmbedded(ws, drop);
    NoneWithout(ws, drop);
    WordsOfJoinSpaces(Without(ws, drop));
    if FilterLine(line, drop) == line { JoinSpacesIsSpaced(Without(ws, drop)); }
    if Spaced(line) { SpacedIsJoined(line); }
  }

  lemma SpareAcrossNewline(line: string, rest: string, drop: string -> bool)
    requires '\n' !in line
    ensures Spare(line + "\n" + rest, drop) <==> Spare(line, drop) && Spare(rest, drop)
  {
    hide Words, IsSpace;
    WordsAcrossNewline(line, rest);
    SpacedAcrossNewline(line, rest);
    assert forall w :: w in Words(line) + Words(rest) <==> w in Words(line) || w in Words(rest);
  }

  lemma SpacedAcrossNewline(line: string, rest: string)
    ensures Spaced(line + "\n" + rest) <==> Spaced(line) && Spaced(rest)
  {
    hide IsSpace;
    CommonSpaces();
    var u, n := line + "\n" + rest, |line| + 1;
    assert forall i :: 0 <= i < |line| ==> u[i] == line[i];
    assert forall i :: 0 <= i < |rest| ==> u[n + i] == rest[i];
    if Spaced(u) {
      forall i | 0 <= i < |line| && IsSpace(line[i]) && line[i] != '\n'
        ensures line[i] == ' ' && 0 < i && i + 1 < |line| && !IsSpace(line[i - 1]) && !IsSpace(line[i + 1])
      {
        assert u[i] == line[i] && u[|line|] == '\n';
      }
      forall i | 0 <= i < |rest| && IsSpace(rest[i]) && rest[i] != '\n'
        ensures rest[i] == ' ' && 0 < i && i + 1 < |rest| && !IsSpace(rest[i - 1]) && !IsSpace(rest[i + 1])
      {
        assert u[n + i] == rest[i] && u[n - 1] == '\n';
      }
    }
    if Spaced(line) && Spaced(rest) {
      forall i | 0 <= i < |u| && IsSpace(u[i]) && u[i] != '\n'
        ensures u[i] == ' ' && 0 < i && i + 1 < |u| && !IsSpace(u[i - 1]) && !IsSpace(u[i + 1])
      {
        if i < |line| { assert line[i] == u[i]; } else { assert rest[i - n] == u[i]; }
      }
    }
  }

  /** Prose is left as it is exactly when it is evenly spaced and holds no droppable word. */
  lemma {:induction false} FilterProseSettled(t: string, drop: string -> bool)
    ensures FilterProse(t, drop) == t <==> Spare(t, drop)
    decreases |t|
  {
    hide FilterLine, FilterProse, Spare, Words;
    if '\n' !in t {
      FilterProseCons(t, "", drop);
      FilterLineSettled(t, drop);
    } else {
      var line, rest := CutLine(t);
      var f, g := FilterLine(line, drop), FilterProse(rest, drop);
      FilterProseCons(line, rest, drop);
      FilterProseSettled(rest, drop);
      FilterLineSettled(line, drop);
      SpareAcrossNewline(line, rest, drop);
      FilterLineIsEmbedded(line, drop);
      FilterProseIsEmbedded(rest, drop);
      SameHalves(line + "\n", rest, f + "\n", g);
      if f + "\n" == line + "\n" { assert (f + "\n")[..|f|] == f && (line + "\n")[..|line|] == line; }
    }
  }

  predicate SpareProse(spans: seq<Span>, drop: string -> bool) {
    forall s <- spans :: s.mutable ==> Spare(s.text, drop)
  }

  /** So is a whole text, exactly when all its prose is. */
  lemma StripFillersSettled(t: string, drop: string -> bool)
    ensures StripFillers(t, drop) == t <==> SpareProse(Scan(t), drop)
  {
    hide FilterProse, Spare, Embeds;
    FilterProseCons("", "", drop);
    FilterLineIsEmbedded("", drop);
    forall u ensures |Filtering(drop)(u)| <= |u| && (Filtering(drop)(u) == u <==> Spare(u, drop)) {
      FilterProseIsEmbedded(u, drop);
      FilterProseSettled(u, drop);
    }
    CodeAwareSettled(Filtering(drop), t);
  }

  // ----- A text the whole-text check refuses ---------------------------------

  lemma {:induction false} KeptAreWords(o: seq<string>, keep: seq<bool>)
    requires |keep| == |o|
    ensures forall w <- Kept(o, keep) :: w in o
  {
    if o != [] { KeptAreWords(o[1..], keep[1..]); }
  }

  lemma RunLine(drop: string -> bool)
    requires !drop("run")
    ensures FilterProse("run ", drop) == "run" && FilterProse("", drop) == ""
    ensures Words("run ") == ["run"]
  {
    hide FilterProse, Without;
    FilterProseCons("run ", "", drop);
    FilterProseCons("", "", drop);
    WordsOfWord("run");
    WordsApart("run", " ");
    assert "run" + " " == "run " && Words(" ") == [] && Words("") == [];
    WithoutOne("run", drop);
  }

  lemma RunAndFence()
    ensures "run " + "```x```" + "" == "run ```x```" && "run" + "```x```" + "" == "run```x```"
    ensures !HasFence("run ") && !EndsInTick("run ") && IsClosedFence("```x```") && !HasClosedPair("")
    ensures IsWord("```x```") && IsWord("run```x```") && Apart("run ", "```x```")
  {
  }

  lemma RunWords(drop: string -> bool)
    requires !drop("run")
    ensures Words("run ```x```") == ["run"] + ["```x```"]
  {
    hide Words, IsWord, Apart;
    RunLine(drop);
    RunAndFence();
    assert "run " + "```x```" == "run ```x```";
    WordsApart("run ", "```x```");
    WordsOfWord("```x```");
  }

  lemma RunStripped(drop: string -> bool)
    requires !drop("run")
    ensures StripFillers("run ```x```", drop) == "run```x```"
  {
    hide HasFence, HasClosedPair, EndsInTick, IsClosedFence, IsWord, FilterProse, CodeAware, Words;
    RunLine(drop);
    RunAndFence();
    CodeAwareFenced(Filtering(drop), "run ", "```x```", "");
  }

  /** An inline fence takes in the word before it, which no allow-list accounts for. */
  lemma InlineFenceIsRefused(drop: string -> bool)
    requires !drop("run")
    ensures !Embeds(Words("run ```x```"), Words(StripFillers("run ```x```", drop)), drop)
  {
    hide HasFence, HasClosedPair, EndsInTick, IsClosedFence, IsWord, FilterProse, CodeAware, StripFillers, Words, Apart;
    RunAndFence();
    RunStripped(drop);
    RunWords(drop);
    WordsOfWord("run```x```");
    var o, c := Words("run ```x```"), Words(StripFillers("run ```x```", drop));
    forall keep: seq<bool> | |keep| == |o| ensures Kept(o, keep) != c {
      assert |c[0]| == 10 && c[0] !in o;
      KeptAreWords(o, keep);
    }
  }
}
