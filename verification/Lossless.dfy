/** Whitespace normalisation of prose, and what it keeps (`parcus.compress.lossless`). */
module Lossless {
  import opened Text
  import opened Spans
  import opened Rewriting

  // ----- normalise_whitespace ------------------------------------------------

  function RStripLines(ls: seq<string>): seq<string> {
    if ls == [] then [] else [RStrip(ls[0])] + RStripLines(ls[1..])
  }

  /** The number of newlines `t` starts with. */
  function NewlineRun(t: string): (n: nat)
    ensures n <= |t|
  {
    if t != "" && t[0] == '\n' then 1 + NewlineRun(t[1..]) else 0
  }

  /** Every maximal run of three or more newlines becomes two. */
  function CollapseNewlines(t: string): string
    decreases |t|
  {
    if t == "" then ""
    else
      var n := NewlineRun(t);
      if n == 0 then [t[0]] + CollapseNewlines(t[1..])
      else (if n >= 3 then "\n\n" else t[..n]) + CollapseNewlines(t[n..])
  }

  function StripLineEnds(t: string): string {
    JoinLines(RStripLines(Lines(t)))
  }

  function NormaliseWhitespace(t: string): string {
    CollapseNewlines(StripLineEnds(t))
  }

  // ----- Normalisation, one character at a time ------------------------------

  predicate LineEnds(t: string) {
    t == "" || t[0] == '\n'
  }

  lemma {:induction false} LinesHoldNoNewline(t: string)
    ensures forall k :: 0 <= k < |Lines(t)| ==> '\n' !in Lines(t)[k]
  {
    if t != "" { LinesHoldNoNewline(t[1..]); }
  }

  lemma StripLineEndsNewline(t: string)
    ensures StripLineEnds("\n" + t) == "\n" + StripLineEnds(t)
  {
    hide JoinLines;
    var u, ls := "\n" + t, Lines(t);
    assert u[1..] == t && Lines(u) == [""] + ls && Lines(u)[1..] == ls;
    assert RStripLines(Lines(u)) == [""] + RStripLines(ls);
    JoinLinesBlank(RStripLines(ls));
  }

  lemma StripLineEndsOther(c: char, t: string)
    requires c != '\n'
    ensures StripLineEnds([c] + t) ==
            if IsSpace(c) && LineEnds(StripLineEnds(t)) then StripLineEnds(t) else [c] + StripLineEnds(t)
  {
    hide JoinLines, RStrip;
    var u, ls := [c] + t, Lines(t);
    assert u[1..] == t;
    LinesHoldNoNewline(t);
    RStripIsTrimmed(ls[0]);
    RStripCons(c, ls[0]);
    var head, tail := RStrip(ls[0]), RStripLines(ls[1..]);
    assert RStripLines(ls) == [head] + tail;
    LineEndsHead(head, tail);
    var l := [c] + ls[0];
    assert Lines(u) == [l] + ls[1..] && Lines(u)[1..] == ls[1..];
    assert RStripLines(Lines(u)) == [RStrip(l)] + tail;
    JoinLinesHead(c, head, tail);
  }

  lemma LineEndsHead(head: string, tail: seq<string>)
    requires '\n' !in head
    ensures LineEnds(JoinLines([head] + tail)) <==> head == ""
  {
    assert ([head] + tail)[1..] == tail;
  }

  predicate StartsBlankLine(t: string) {
    "\n\n" <= t
  }

  lemma NewlineRunEnds(t: string)
    ensures NewlineRun(t) == |t| || t[NewlineRun(t)] != '\n'
  {
  }

  lemma CollapseStart(t: string)
    requires t == "" || t[0] != '\n'
    ensures CollapseNewlines(t) == "" <==> t == ""
    ensures t != "" ==> CollapseNewlines(t)[0] == t[0]
  {
  }

  lemma CollapseOther(c: char, t: string)
    requires c != '\n'
    ensures CollapseNewlines([c] + t) == [c] + CollapseNewlines(t)
  {
    assert ([c] + t)[1..] == t;
  }

  lemma CollapseRun(t: string)
    requires t != "" && t[0] == '\n'
    ensures var n := NewlineRun(t);
            0 < n && CollapseNewlines(t) == (if n >= 3 then "\n\n" else t[..n]) + CollapseNewlines(t[n..])
  {
  }

  lemma CollapseNewline(t: string)
    ensures var rest := CollapseNewlines(t);
            CollapseNewlines("\n" + t) == if StartsBlankLine(rest) then rest else "\n" + rest
  {
    hide CollapseNewlines;
    var u, k := "\n" + t, NewlineRun(t);
    assert u[1..] == t && NewlineRun(u) == k + 1 && u[k + 1..] == t[k..];
    NewlineRunEnds(t);
    CollapseStart(t[k..]);
    CollapseRun(u);
    if k == 0 {
      assert t[0..] == t && u[..1] == "\n";
    } else {
      CollapseRun(t);
      if k == 1 {
        assert u[..2] == "\n\n" && t[..1] == "\n";
      } else {
        assert k == 2 ==> t[..2] == "\n\n";
      }
    }
  }

  lemma CollapseLineEnds(t: string)
    ensures LineEnds(t) <==> LineEnds(CollapseNewlines(t))
  {
    NewlineRunEnds(t);
    CollapseStart(t[NewlineRun(t)..]);
    if t != "" && t[0] != '\n' { CollapseStart(t); }
  }

  /** What normalising leaves of a character whose successors normalise to `rest`. */
  function Keep(c: char, rest: string): string {
    if c == '\n' then
      if StartsBlankLine(rest) then rest else [c] + rest
    else if IsSpace(c) && LineEnds(rest) then rest
    else [c] + rest
  }

  lemma NormaliseCons(c: char, t: string)
    ensures NormaliseWhitespace([c] + t) == Keep(c, NormaliseWhitespace(t))
  {
    hide CollapseNewlines, StripLineEnds;
    var u := StripLineEnds(t);
    CollapseLineEnds(u);
    if c == '\n' {
      StripLineEndsNewline(t);
      CollapseNewline(u);
    } else {
      StripLineEndsOther(c, t);
      CollapseOther(c, u);
    }
  }

  lemma NormaliseStep(t: string)
    requires t != ""
    ensures NormaliseWhitespace(t) == Keep(t[0], NormaliseWhitespace(t[1..]))
  {
    NormaliseCons(t[0], t[1..]);
    assert t == [t[0]] + t[1..];
  }

  // ----- What normalisation keeps --------------------------------------------

  /** No word is lost, altered or reordered, and the text does not grow. */
  lemma {:induction false} NormaliseKeepsWords(t: string)
    ensures Words(NormaliseWhitespace(t)) == Words(t)
    ensures StartsWord(NormaliseWhitespace(t)) <==> StartsWord(t)
    ensures |NormaliseWhitespace(t)| <= |t|
  {
    hide NormaliseWhitespace;
    if t == "" {
      NormaliseEmpty();
    } else {
      NormaliseStep(t);
      NormaliseKeepsWords(t[1..]);
      var n := NormaliseWhitespace(t[1..]);
      assert ([t[0]] + n)[1..] == n;
    }
  }

  lemma NormaliseEmpty()
    ensures NormaliseWhitespace("") == ""
  {
  }

  /** A second pass finds nothing to do. */
  lemma {:induction false} NormaliseIdempotent(t: string)
    ensures NormaliseWhitespace(NormaliseWhitespace(t)) == NormaliseWhitespace(t)
  {
    hide NormaliseWhitespace;
    if t == "" {
      NormaliseEmpty();
    } else {
      NormaliseStep(t);
      NormaliseIdempotent(t[1..]);
      NormaliseCons(t[0], NormaliseWhitespace(t[1..]));
    }
  }

  /** No line ends in a blank and no three newlines stand together. */
  predicate Tidy(t: string) {
    (forall i :: 0 <= i < |t| && t[i] != '\n' && IsSpace(t[i]) ==> i + 1 < |t| && t[i + 1] != '\n') &&
    forall i :: 0 <= i && i + 2 < |t| ==> !(t[i] == '\n' && t[i + 1] == '\n' && t[i + 2] == '\n')
  }

  lemma TidyTail(c: char, t: string)
    requires Tidy([c] + t)
    ensures Tidy(t) && Keep(c, t) == [c] + t
  {
    hide IsSpace;
    var u := [c] + t;
    assert u[0] == c && forall i :: 0 <= i < |t| ==> u[i + 1] == t[i];
    forall i | 0 <= i < |t| && t[i] != '\n' && IsSpace(t[i]) ensures i + 1 < |t| && t[i + 1] != '\n' {
      assert u[i + 1] == t[i];
    }
    forall i | 0 <= i && i + 2 < |t| ensures !(t[i] == '\n' && t[i + 1] == '\n' && t[i + 2] == '\n') {
      assert u[i + 1] == t[i];
    }
  }

  lemma TidyKept(c: char, t: string)
    requires Tidy(t) && Keep(c, t) == [c] + t
    ensures Tidy([c] + t)
  {
    hide IsSpace;
    var u := [c] + t;
    assert |u| == |t| + 1 && u[0] == c && forall i :: 0 <= i < |t| ==> u[i + 1] == t[i];
    forall i | 0 <= i < |u| && u[i] != '\n' && IsSpace(u[i]) ensures i + 1 < |u| && u[i + 1] != '\n' {
      if i > 0 { assert t[i - 1] == u[i]; }
    }
    forall i | 0 <= i && i + 2 < |u| ensures !(u[i] == '\n' && u[i + 1] == '\n' && u[i + 2] == '\n') {
      if i > 0 { assert t[i - 1] == u[i]; }
    }
  }

  lemma TidyCons(c: char, t: string)
    ensures Tidy([c] + t) <==> Tidy(t) && Keep(c, t) == [c] + t
  {
    hide Tidy, Keep;
    if Tidy([c] + t) { TidyTail(c, t); }
    if Tidy(t) && Keep(c, t) == [c] + t { TidyKept(c, t); }
  }

  /** Normalised text is tidy, and tidy text is all that normalising leaves alone. */
  lemma {:induction false} NormalisedIsTidy(t: string)
    ensures Tidy(NormaliseWhitespace(t))
    ensures NormaliseWhitespace(t) == t <==> Tidy(t)
  {
    hide NormaliseWhitespace, Tidy;
    if t == "" {
      NormaliseEmpty();
      NothingIsTidy();
    } else {
      var c, r := t[0], t[1..];
      assert t == [c] + r;
      NormaliseStep(t);
      NormalisedIsTidy(r);
      NormaliseKeepsWords(r);
      TidyCons(c, r);
      TidyCons(c, NormaliseWhitespace(r));
    }
  }

  lemma NothingIsTidy()
    ensures Tidy("")
  {
  }

  /** The text still begins with its first line, trimmed. */
  lemma {:induction false} NormaliseFirstLine(t: string)
    ensures FirstLine(NormaliseWhitespace(t)) == RStrip(FirstLine(t))
    ensures '\n' in NormaliseWhitespace(t) <==> '\n' in t
  {
    hide NormaliseWhitespace;
    if t == "" {
      NormaliseEmpty();
    } else {
      var c, r := t[0], t[1..];
      NormaliseStep(t);
      NormaliseFirstLine(r);
      RStripCons(c, FirstLine(r));
      assert ([c] + NormaliseWhitespace(r))[1..] == NormaliseWhitespace(r);
      assert t == [c] + r;
    }
  }

  /** The text still ends in its last line, trimmed. */
  lemma {:induction false} NormaliseLastLine(t: string)
    ensures LastLine(NormaliseWhitespace(t)) == RStrip(LastLine(t))
  {
    hide NormaliseWhitespace;
    if t == "" {
      NormaliseEmpty();
    } else {
      var c, r := t[0], t[1..];
      var n := NormaliseWhitespace(r);
      assert t == [c] + r;
      NormaliseStep(t);
      NormaliseLastLine(r);
      NormaliseFirstLine(r);
      LastLineCons(c, r);
      LastLineCons(c, n);
      if '\n' !in r {
        OneLine(r);
        OneLine(n);
        RStripCons(c, r);
      }
    }
  }

  // ----- normalise_code_aware ------------------------------------------------

  function NormaliseCodeAware(t: string): string {
    CodeAware(NormaliseWhitespace, t)
  }

  lemma NormaliseIsGentle(t: string)
    ensures Gentle(NormaliseWhitespace, t)
  {
    NormaliseKeepsWords(t);
    FencesAreInWords(t);
    FencesAreInWords(NormaliseWhitespace(t));
  }

  /** No line of prose that runs into a fence ends, once trimmed, in a backtick. */
  predicate NoTickBeforeFence(spans: seq<Span>) {
    spans == [] ||
    ((spans[0].mutable && |spans| > 1 ==> !EndsInTick(RStrip(LastLine(spans[0].text)))) &&
     NoTickBeforeFence(spans[1..]))
  }

  lemma LastLineEnd(t: string)
    ensures EndsInTick(t) <==> EndsInTick(LastLine(t))
    ensures EndsInWord(t) <==> EndsInWord(LastLine(t))
  {
    assert IsSpace('\n');
  }

  lemma {:induction false} NoTickIsLendsNoTick(spans: seq<Span>)
    ensures NoTickBeforeFence(spans) <==> LendsNoTick(NormaliseWhitespace, spans)
  {
    if spans != [] {
      NoTickIsLendsNoTick(spans[1..]);
      NormaliseLastLine(spans[0].text);
      LastLineEnd(NormaliseWhitespace(spans[0].text));
    }
  }

  /** Classifying after normalising gives the normalised spans exactly on such texts. */
  lemma ClassifyAfterNormalise(t: string)
    ensures Classify(NormaliseCodeAware(t)) == OrBlank(DropEmpty(RespanAll(NormaliseWhitespace, Scan(t))))
            <==> NoTickBeforeFence(Scan(t))
  {
    NormaliseEmpty();
    forall u ensures Gentle(NormaliseWhitespace, u) { NormaliseIsGentle(u); }
    ClassifyCommutes(NormaliseWhitespace, t);
    NoTickIsLendsNoTick(Scan(t));
  }

  predicate TidyProse(spans: seq<Span>) {
    forall s <- spans :: s.mutable ==> Tidy(s.text)
  }

  /** A text is left as it is exactly when all its prose is tidy. */
  lemma NormaliseCodeAwareSettled(t: string)
    ensures NormaliseCodeAware(t) == t <==> TidyProse(Scan(t))
  {
    NormaliseEmpty();
    forall u ensures |NormaliseWhitespace(u)| <= |u| && (NormaliseWhitespace(u) == u <==> Tidy(u)) {
      NormaliseKeepsWords(u);
      NormalisedIsTidy(u);
    }
    CodeAwareSettled(NormaliseWhitespace, t);
  }

  /**
    * A second normalisation changes nothing exactly when the prose of the normalised text, classified
    * again, is tidy; so it is when no line running into a fence ends, trimmed, in a backtick.
    */
  lemma NormaliseCodeAwareIdempotent(t: string)
    ensures NormaliseCodeAware(NormaliseCodeAware(t)) == NormaliseCodeAware(t)
            <==> TidyProse(Scan(NormaliseCodeAware(t)))
    ensures NoTickBeforeFence(Scan(t)) ==> TidyProse(Scan(NormaliseCodeAware(t)))
  {
    NormaliseCodeAwareSettled(NormaliseCodeAware(t));
    if NoTickBeforeFence(Scan(t)) { NoTickIsIdempotent(t); }
  }

  lemma NoTickIsIdempotent(t: string)
    requires NoTickBeforeFence(Scan(t))
    ensures NormaliseCodeAware(NormaliseCodeAware(t)) == NormaliseCodeAware(t)
  {
    NormaliseEmpty();
    forall u ensures Gentle(NormaliseWhitespace, u) { NormaliseIsGentle(u); }
    forall u ensures NormaliseWhitespace(NormaliseWhitespace(u)) == NormaliseWhitespace(u) { NormaliseIdempotent(u); }
    NoTickIsLendsNoTick(Scan(t));
    CodeAwareIdempotent(NormaliseWhitespace, t);
  }

  // ----- Which texts keep their words ----------------------------------------

  /**
    * The part of each fence's line before the fence is all blank, or does not end in a blank.
    * `before` is the text in front of `spans`.
    */
  predicate FencesSetOff(before: string, spans: seq<Span>)
    decreases |spans|
  {
    spans == [] ||
    ((spans[0].mutable || AllBlank(LastLine(before)) || EndsInWord(LastLine(before))) &&
     FencesSetOff(before + spans[0].text, spans[1..]))
  }

  /** `kept`, the normalised form of `text`, ends in a word when `text`'s last line holds one. */
  predicate Trails(text: string, kept: string) {
    EndsInWord(kept) <==> !AllBlank(LastLine(text))
  }

  lemma TrailsAfterProse(text: string, kept: string, m: string)
    requires Trails(text, kept)
    ensures Trails(text + m, kept + NormaliseWhitespace(m))
  {
    hide NormaliseWhitespace, IsSpace;
    var n := NormaliseWhitespace(m);
    NormaliseLastLine(m);
    NormaliseFirstLine(m);
    RStripIsTrimmed(LastLine(m));
    LastLineConcat(text, m);
    if '\n' in m {
      LastLineEnd(n);
      assert n != "";
      EndOfConcat(kept, n);
    } else {
      OneLine(m);
      OneLine(n);
      AllBlankConcat(LastLine(text), m);
      EndOfConcat(kept, n);
    }
  }

  lemma EndOfConcat(a: string, b: string)
    ensures EndsInWord(a + b) <==> if b == "" then EndsInWord(a) else EndsInWord(b)
  {
    if b == "" { assert a + b == a; }
  }


  lemma TrailsAfterFence(text: string, kept: string, f: string)
    requires IsClosedFence(f)
    ensures Trails(text + f, kept + f) && EndsInWord(text + f) && EndsInWord(kept + f)
    ensures StartsWord(f) && EndsInWord(f)
  {
    assert FenceAt(f, 0) && FenceAt(f, |f| - 3);
    LastLineEnd(text + f);
    BlankEndsInNoWord(LastLine(text + f));
  }

  lemma BlankEndsInNoWord(t: string)
    ensures EndsInWord(t) ==> !AllBlank(t)
  {
  }

  // The words of a text, counted as its spans are laid down one by one. `text` and `kept` are the
  // text before `spans` and its normalised form.

  lemma {:induction false} WordsSurviveIffSetOff(text: string, kept: string, spans: seq<Span>)
    requires Canonical(spans) && Trails(text, kept)
    requires spans != [] && spans[0].mutable ==> (EndsInWord(text) <==> EndsInWord(kept))
    requires |Words(kept)| <= |Words(text)|
    ensures var out, src := kept + Concat(RespanAll(NormaliseWhitespace, spans)), text + Concat(spans);
            |Words(out)| <= |Words(src)| &&
            (Words(kept) == Words(text) && FencesSetOff(text, spans) ==> Words(out) == Words(src)) &&
            (|Words(kept)| < |Words(text)| || !FencesSetOff(text, spans) ==> |Words(out)| < |Words(src)|)
    decreases |spans|
  {
    hide NormaliseWhitespace, IsSpace, AllBlank, LastLine, HasFence, HasClosedPair, IsClosedFence, FenceAt;
    if spans == [] {
      assert text + "" == text && kept + "" == kept;
    } else {
      var a, rest := spans[0].text, spans[1..];
      var b := Respan(NormaliseWhitespace, spans[0]).text;
      SpanKeepsWords(text, kept, spans[0]);
      WordsSurviveIffSetOff(text + a, kept + b, rest);
      assert RespanAll(NormaliseWhitespace, spans)[1..] == RespanAll(NormaliseWhitespace, rest);
      CatAssociative(text, a, Concat(rest));
      CatAssociative(kept, b, Concat(RespanAll(NormaliseWhitespace, rest)));
    }
  }

  lemma SpanKeepsWords(text: string, kept: string, span: Span)
    requires Trails(text, kept) && |Words(kept)| <= |Words(text)|
    requires span.mutable ==> (EndsInWord(text) <==> EndsInWord(kept))
    requires !span.mutable ==> IsClosedFence(span.text)
    ensures var a, b := span.text, Respan(NormaliseWhitespace, span).text;
            var off := span.mutable || AllBlank(LastLine(text)) || EndsInWord(LastLine(text));
            Trails(text + a, kept + b) &&
            (!span.mutable ==> EndsInWord(text + a) && EndsInWord(kept + b)) &&
            |Words(kept + b)| <= |Words(text + a)| &&
            (Words(kept) == Words(text) && off ==> Words(kept + b) == Words(text + a)) &&
            (|Words(kept)| < |Words(text)| || !off ==> |Words(kept + b)| < |Words(text + a)|)
  {
    hide IsClosedFence;
    var a, b := span.text, Respan(NormaliseWhitespace, span).text;
    WordsConcat(text, a);
    WordsConcat(kept, b);
    if span.mutable {
      NormaliseKeepsWords(a);
      TrailsAfterProse(text, kept, a);
    } else {
      TrailsAfterFence(text, kept, a);
      LastLineEnd(text);
      BlankEndsInNoWord(LastLine(text));
    }
  }

  /** A text keeps its word sequence exactly when its fences are set off. */
  lemma WordsSurviveNormalisation(t: string)
    ensures Words(NormaliseCodeAware(t)) == Words(t) <==> FencesSetOff("", Scan(t))
  {
    ScanIsCanonical(t, 0);
    NormaliseEmpty();
    CodeAwareSpells(NormaliseWhitespace, t);
    ConcatDropEmpty(RespanAll(NormaliseWhitespace, Scan(t)));
    WordsSurviveIffSetOff("", "", Scan(t));
    var out := Concat(RespanAll(NormaliseWhitespace, Scan(t)));
    assert "" + out == out && "" + Concat(Scan(t)) == t;
  }

  /** Fences that are set off lend nothing: such texts also normalise span by span. */
  lemma {:induction false} SetOffMeansNoTick(before: string, spans: seq<Span>)
    requires Canonical(spans) && FencesSetOff(before, spans)
    ensures NoTickBeforeFence(spans)
    decreases |spans|
  {
    hide IsClosedFence, HasFence, HasClosedPair, IsSpace;
    if spans != [] {
      var m, rest := spans[0].text, spans[1..];
      SetOffMeansNoTick(before + m, rest);
      if spans[0].mutable && |spans| > 1 {
        LastLineConcat(before, m);
        LastLineEnd(before + m);
        LastLineEnd(m);
        TrimmedEnd(m);
        AllBlankConcat(LastLine(before), m);
        EndOfConcat(before, m);
        if '\n' !in m { OneLine(m); }
      }
    }
  }

  /** A line that ends in a word is its own trimmed form; a blank one trims to nothing. */
  lemma TrimmedEnd(t: string)
    ensures EndsInWord(LastLine(t)) ==> RStrip(LastLine(t)) == LastLine(t)
    ensures AllBlank(LastLine(t)) ==> RStrip(LastLine(t)) == ""
  {
    RStripIsTrimmed(LastLine(t));
  }

  // ----- Texts that do not meet the conditions -------------------------------

  lemma NotSetOff(m: string, f: Span)
    requires !f.mutable && '\n' !in m && !AllBlank(m) && !EndsInWord(m)
    ensures !FencesSetOff("", [Span(m, true)] + ([f] + []))
  {
    hide LastLine, EndsInWord, AllBlank;
    var spans := [Span(m, true)] + ([f] + []);
    OneLine(m);
    assert spans[1..] == [f] && "" + spans[0].text == m;
    assert !FencesSetOff(m, [f]);
  }

  lemma RunBlank()
    ensures !AllBlank("run ") && !EndsInWord("run ") && '\n' !in "run "
  {
    assert !IsSpace("run "[0]);
  }

  lemma RunAndFence()
    ensures "run " + "```x```" + "" == "run ```x```"
    ensures !HasFence("run ") && !EndsInTick("run ") && IsClosedFence("```x```") && !HasClosedPair("")
  {
  }

  /** A system prompt whose word runs into a fence once its trailing blank is gone. */
  lemma InlineFenceLosesAWord()
    ensures Words(NormaliseCodeAware("run ```x```")) != Words("run ```x```")
  {
    hide NormaliseCodeAware, Words, Scan, FencesSetOff, HasFence, IsClosedFence, HasClosedPair;
    RunAndFence();
    ScanOfFenced("run ", "```x```", "");
    WordsSurviveNormalisation("run ```x```");
    RunBlank();
    NotSetOff("run ", Span("```x```", false));
  }

  lemma OneLineNormalises(t: string)
    requires '\n' !in t
    ensures NormaliseWhitespace(t) == RStrip(t)
  {
    hide NormaliseWhitespace;
    NormaliseFirstLine(t);
    OneLine(t);
    OneLine(NormaliseWhitespace(t));
  }

  lemma TickAndFence()
    ensures !HasFence("a` ") && !EndsInTick("a` ") && IsClosedFence("`````x  \n```") && !HasClosedPair("")
    ensures RStrip("a` ") == "a`" && '\n' !in "a` "
  {
    assert "a` "[..2] == "a`";
  }

  lemma LongerFence()
    ensures !HasFence("a") && !EndsInTick("a") && IsClosedFence("``````") && !HasClosedPair("x  \n```")
  {
  }

  lemma TailIsTrimmed()
    ensures NormaliseWhitespace("x  \n```") != "x  \n```"
  {
    hide NormaliseWhitespace;
    NormalisedIsTidy("x  \n```");
    assert "x  \n```"[2] == ' ' && "x  \n```"[3] == '\n';
  }

  lemma FirstPass()
    ensures NormaliseCodeAware("a` " + "`````x  \n```" + "") == "a`" + "`````x  \n```" + ""
  {
    hide NormaliseWhitespace, HasFence, IsClosedFence, HasClosedPair, EndsInTick, RStrip, CodeAware;
    TickAndFence();
    NormaliseEmpty();
    CodeAwareFenced(NormaliseWhitespace, "a` ", "`````x  \n```", "");
    OneLineNormalises("a` ");
  }

  lemma SecondPass()
    ensures NormaliseCodeAware("a" + "``````" + "x  \n```") != "a" + "``````" + "x  \n```"
  {
    hide NormaliseWhitespace, HasFence, IsClosedFence, HasClosedPair, EndsInTick, RStrip, CodeAware;
    var x, y := NormaliseWhitespace("a"), NormaliseWhitespace("x  \n```");
    LongerFence();
    NormaliseEmpty();
    CodeAwareFenced(NormaliseWhitespace, "a", "``````", "x  \n```");
    TailIsTrimmed();
    NormaliseKeepsWords("a");
    NormaliseKeepsWords("x  \n```");
    SameEnds(x, y);
  }

  lemma SameEnds(x: string, y: string)
    requires |x| <= 1 && |y| <= 7 && y != "x  \n```"
    ensures x + "``````" + y != "a" + "``````" + "x  \n```"
  {
    var u, v := x + "``````" + y, "a" + "``````" + "x  \n```";
    assert v[7..] == "x  \n```";
    if |u| == |v| { assert u[7..] == y; }
  }

  lemma SameText()
    ensures "a" + "``````" + "x  \n```" == "a`" + "`````x  \n```" + ""
    ensures "a` " + "`````x  \n```" + "" == "a` `````x  \n```"
  {
  }

  /** A backtick lent to a fence can move its end, and a second pass then reads code as prose. */
  lemma SecondPassCanChange()
    ensures var once := NormaliseCodeAware("a` `````x  \n```"); NormaliseCodeAware(once) != once
  {
    hide NormaliseCodeAware;
    SameText();
    FirstPass();
    SecondPass();
  }
}
