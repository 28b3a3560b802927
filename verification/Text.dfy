/** Strings as the compression passes see them: whitespace, words and lines. */
module Text {

  // ----- Whitespace and words ------------------------------------------------

  /** The characters on which `str.split()` and `str.rstrip()` act. */
  predicate IsSpace(c: char) {
    var n := c as int;
    9 <= n <= 13 || 28 <= n <= 32 || n == 0x85 || n == 0xA0 || n == 0x1680 ||
    0x2000 <= n <= 0x200A || n == 0x2028 || n == 0x2029 || n == 0x202F || n == 0x205F || n == 0x3000
  }

  /** The same, spelled out. */
  lemma SpacesAre(c: char)
    ensures IsSpace(c) <==> c in "\t\n\U{B}\U{C}\r\U{1C}\U{1D}\U{1E}\U{1F} \U{85}\U{A0}\U{1680}\U{2028}\U{2029}\U{202F}\U{205F}\U{3000}" ||
                            '\U{2000}' <= c <= '\U{200A}'
  {
  }

  lemma CommonSpaces()
    ensures IsSpace(' ') && IsSpace('\n') && !IsSpace('`')
  {
  }

  predicate AllBlank(t: string) {
    forall i :: 0 <= i < |t| ==> IsSpace(t[i])
  }

  lemma AllBlankConcat(a: string, b: string)
    ensures AllBlank(a + b) <==> AllBlank(a) && AllBlank(b)
  {
    if AllBlank(a + b) {
      assert forall i :: 0 <= i < |a| ==> a[i] == (a + b)[i];
      assert forall i :: 0 <= i < |b| ==> b[i] == (a + b)[|a| + i];
    }
  }

  /** A non-empty run of non-blank characters: what `str.split()` yields. */
  predicate IsWord(w: string) {
    w != "" && forall i :: 0 <= i < |w| ==> !IsSpace(w[i])
  }

  predicate StartsWord(t: string) {
    t != "" && !IsSpace(t[0])
  }

  predicate EndsInWord(t: string) {
    t != "" && !IsSpace(t[|t| - 1])
  }

  /** Two word lists put side by side, the touching words merged when `glue` holds. */
  function Splice(u: seq<string>, v: seq<string>, glue: bool): seq<string>
    requires glue ==> u != [] && v != []
  {
    if glue then u[..|u| - 1] + [u[|u| - 1] + v[0]] + v[1..] else u + v
  }

  /** `t.split()`: the maximal runs of non-blank characters, in order. */
  function Words(t: string): (ws: seq<string>)
    ensures StartsWord(t) ==> ws != []
    ensures forall i :: 0 <= i < |ws| ==> IsWord(ws[i])
  {
    if t == "" then
      []
    else if IsSpace(t[0]) then
      Words(t[1..])
    else
      Splice([[t[0]]], Words(t[1..]), StartsWord(t[1..]))
  }

  lemma SpliceAssociative(u: seq<string>, v: seq<string>, w: seq<string>, g: bool, h: bool)
    requires g ==> u != [] && v != []
    requires h ==> v != [] && w != []
    ensures Splice(Splice(u, v, g), w, h) == Splice(u, Splice(v, w, h), g)
  {
    if g && h {
      SpliceBoth(u, v, w);
    } else if g {
      assert (v + w)[0] == v[0] && (v + w)[1..] == v[1..] + w;
      CatAssociative(u[..|u| - 1] + [u[|u| - 1] + v[0]], v[1..], w);
    } else if h {
      assert (u + v)[|u + v| - 1] == v[|v| - 1] && (u + v)[..|u + v| - 1] == u + v[..|v| - 1];
      CatAssociative(u, v[..|v| - 1], [v[|v| - 1] + w[0]]);
      CatAssociative(u, v[..|v| - 1] + [v[|v| - 1] + w[0]], w[1..]);
    } else {
      CatAssociative(u, v, w);
    }
  }

  lemma SpliceBoth(u: seq<string>, v: seq<string>, w: seq<string>)
    requires u != [] && v != [] && w != []
    ensures Splice(Splice(u, v, true), w, true) == Splice(u, Splice(v, w, true), true)
  {
    var a, x := u[..|u| - 1], u[|u| - 1] + v[0];
    var uv, vw := Splice(u, v, true), Splice(v, w, true);
    if |v| == 1 {
      assert x + w[0] == u[|u| - 1] + (v[0] + w[0]);
      assert uv == a + [x] && uv[..|uv| - 1] == a;
      assert vw == [v[0] + w[0]] + w[1..] && vw[1..] == w[1..];
    } else {
      var b, y := v[1..|v| - 1], v[|v| - 1] + w[0];
      assert uv[..|uv| - 1] == (a + [x]) + b && uv[|uv| - 1] == v[|v| - 1];
      assert vw[0] == v[0] && vw[1..] == (b + [y]) + w[1..];
      CatAssociative(a + [x], b, [y]);
      CatAssociative(a + [x], b + [y], w[1..]);
    }
  }

  lemma {:induction false} EndsInWordHasWords(t: string)
    requires EndsInWord(t)
    ensures Words(t) != []
  {
    if |t| > 1 {
      assert t[1..][|t| - 2] == t[|t| - 1];
      EndsInWordHasWords(t[1..]);
    }
  }

  /** Words of a concatenation: concatenated, except that touching words merge. */
  lemma {:induction false} WordsConcat(a: string, b: string)
    ensures EndsInWord(a) ==> Words(a) != []
    ensures Words(a + b) == Splice(Words(a), Words(b), EndsInWord(a) && StartsWord(b))
  {
    if a == "" {
      assert a + b == b;
    } else {
      var a' := a[1..];
      assert (a + b)[1..] == a' + b;
      WordsConcat(a', b);
      if EndsInWord(a) { EndsInWordHasWords(a); }
      if a' == "" {
        assert a' + b == b && Words(a') == [];
      } else {
        assert a'[|a'| - 1] == a[|a| - 1];
        if !IsSpace(a[0]) {
          SpliceAssociative([[a[0]]], Words(a'), Words(b), StartsWord(a'), EndsInWord(a') && StartsWord(b));
        }
      }
    }
  }

  /** No word crosses the seam between `a` and `b`. */
  predicate Apart(a: string, b: string) {
    !EndsInWord(a) || !StartsWord(b)
  }

  lemma WordsApart(a: string, b: string)
    requires Apart(a, b)
    ensures Words(a + b) == Words(a) + Words(b)
  {
    WordsConcat(a, b);
  }

  lemma {:induction false} WordsOfWord(w: string)
    requires IsWord(w)
    ensures Words(w) == [w]
  {
    assert w == [w[0]] + w[1..];
    if |w| > 1 {
      WordsOfWord(w[1..]);
      assert Words(w) == Splice([[w[0]]], [w[1..]], true) == [[w[0]] + w[1..]];
    } else {
      assert w[1..] == "" && w == [w[0]];
    }
  }

  lemma {:induction false} WordsOfBlank(t: string)
    requires AllBlank(t)
    ensures Words(t) == []
  {
    if t != "" { WordsOfBlank(t[1..]); }
  }

  lemma WordsStep(c: char, t: string)
    ensures Words([c] + t) == if IsSpace(c) then Words(t)
                              else if StartsWord(t) then [[c] + Words(t)[0]] + Words(t)[1..] else [[c]] + Words(t)
  {
    hide IsSpace;
    assert ([c] + t)[1..] == t;
    if StartsWord(t) { assert [[c]][..0] + [[c] + Words(t)[0]] == [[c] + Words(t)[0]]; }
  }

  /** `t` is blanks, a word and more text, and its words are that word and those of the rest. */
  predicate StartsIn(t: string, blank: string, w: string, rest: string) {
    t == blank + w + rest && AllBlank(blank) && IsWord(w) && !StartsWord(rest) && Words(t) == [w] + Words(rest)
  }

  /** Cut `t` after its first word, for proofs that follow the words of a text. */
  lemma {:induction false} FirstWord(t: string) returns (blank: string, w: string, rest: string)
    requires Words(t) != []
    ensures StartsIn(t, blank, w, rest)
  {
    if t != "" {
      hide Words, IsSpace, StartsIn;
      var c, more := t[0], t[1..];
      assert t == [c] + more;
      WordsStep(c, more);
      if !IsSpace(c) && !StartsWord(more) {
        OneCharWord(c, more);
        blank, w, rest := "", [c], more;
      } else {
        var b, w', r := FirstWord(more);
        if IsSpace(c) {
          BlankThen(c, more, b, w', r);
          blank, w, rest := [c] + b, w', r;
        } else {
          LetterThen(c, more, b, w', r);
          blank, w, rest := "", [c] + w', r;
        }
      }
    }
  }

  lemma OneCharWord(c: char, t: string)
    requires !IsSpace(c) && !StartsWord(t)
    ensures StartsIn([c] + t, "", [c], t)
  {
    hide IsSpace, Words;
    WordsStep(c, t);
    NoBlank();
    WordCons(c, "");
    assert [c] + "" == [c] && "" + [c] + t == [c] + t;
  }

  lemma BlankThen(c: char, t: string, b: string, w: string, r: string)
    requires IsSpace(c) && StartsIn(t, b, w, r)
    ensures StartsIn([c] + t, [c] + b, w, r)
  {
    hide IsSpace, Words, IsWord;
    WordsStep(c, t);
    BlankCons(c, b);
    CatAssociative([c], b, w);
    CatAssociative([c], b + w, r);
  }

  lemma LetterThen(c: char, t: string, b: string, w: string, r: string)
    requires !IsSpace(c) && StartsWord(t) && StartsIn(t, b, w, r)
    ensures StartsIn([c] + t, "", [c] + w, r)
  {
    hide IsSpace, Words;
    WordsStep(c, t);
    CatAssociative(b, w, r);
    BlankInFront(b, w + r);
    WordCons(c, w);
    NoBlank();
    assert "" + (w + r) == w + r && "" + ([c] + w) == [c] + w;
    CatAssociative([c], w, r);
    assert Words(t)[1..] == Words(r);
  }

  lemma NoBlank()
    ensures AllBlank("")
  {
  }

  lemma BlankCons(c: char, b: string)
    requires IsSpace(c) && AllBlank(b)
    ensures AllBlank([c] + b)
  {
  }

  lemma WordCons(c: char, w: string)
    requires !IsSpace(c) && (w == "" || IsWord(w))
    ensures IsWord([c] + w)
  {
  }

  lemma BlankInFront(b: string, t: string)
    requires AllBlank(b)
    ensures b != "" ==> !StartsWord(b + t)
  {
    var u := b + t;
    if b != "" { assert u[0] == b[0]; }
  }

  // ----- Lines ---------------------------------------------------------------

  /** `t.split("\n")`. */
  function Lines(t: string): (ls: seq<string>)
    ensures ls != []
  {
    if t == "" then [""]
    else
      var rest := Lines(t[1..]);
      if t[0] == '\n' then [""] + rest else [[t[0]] + rest[0]] + rest[1..]
  }

  /** `"\n".join(ls)`. */
  function JoinLines(ls: seq<string>): string
  {
    if ls == [] then "" else if |ls| == 1 then ls[0] else ls[0] + "\n" + JoinLines(ls[1..])
  }

  lemma JoinLinesHead(c: char, head: string, tail: seq<string>)
    ensures JoinLines([[c] + head] + tail) == [c] + JoinLines([head] + tail)
    ensures head == "" || JoinLines([head] + tail) != ""
  {
    assert ([[c] + head] + tail)[1..] == tail && ([head] + tail)[1..] == tail;
    if tail != [] {
      assert [c] + (head + "\n" + JoinLines(tail)) == ([c] + head) + "\n" + JoinLines(tail);
    }
  }

  lemma JoinLinesBlank(tail: seq<string>)
    requires tail != []
    ensures JoinLines([""] + tail) == "\n" + JoinLines(tail)
  {
    assert ([""] + tail)[1..] == tail;
    assert "" + "\n" + JoinLines(tail) == "\n" + JoinLines(tail);
  }

  /** Splitting into lines and joining them back changes nothing. */
  lemma {:induction false} JoinOfLines(t: string)
    ensures JoinLines(Lines(t)) == t
  {
    if t != "" {
      hide JoinLines;
      JoinOfLines(t[1..]);
      assert t == [t[0]] + t[1..];
      var rest := Lines(t[1..]);
      assert rest == [rest[0]] + rest[1..];
      JoinLinesBlank(rest);
      JoinLinesHead(t[0], rest[0], rest[1..]);
    }
  }

  /** The part of `t` before its first newline. */
  function FirstLine(t: string): string {
    if t == "" || t[0] == '\n' then "" else [t[0]] + FirstLine(t[1..])
  }

  /** The part of `t` after its last newline. */
  function LastLine(t: string): string {
    if t == "" || t[|t| - 1] == '\n' then "" else LastLine(t[..|t| - 1]) + [t[|t| - 1]]
  }

  lemma {:induction false} LastLineConcat(a: string, b: string)
    ensures LastLine(a + b) == if '\n' in b then LastLine(b) else LastLine(a) + b
  {
    if b == "" {
      assert a + b == a && LastLine(a) + b == LastLine(a);
    } else {
      var c, d := b[..|b| - 1], b[|b| - 1];
      assert b == c + [d] && a + b == (a + c) + [d];
      LastLineSnoc(a + c, d);
      LastLineSnoc(c, d);
      if d != '\n' {
        LastLineConcat(a, c);
        CatAssociative(LastLine(a), c, [d]);
      }
    }
  }

  lemma LastLineSnoc(t: string, d: char)
    ensures LastLine(t + [d]) == if d == '\n' then "" else LastLine(t) + [d]
  {
    assert (t + [d])[..|t|] == t;
  }

  lemma {:induction false} FirstLineConcat(a: string, b: string)
    ensures FirstLine(a + b) == if '\n' in a then FirstLine(a) else a + FirstLine(b)
  {
    if a == "" {
      assert a + b == b && "" + FirstLine(b) == FirstLine(b);
    } else {
      var c, d := a[0], a[1..];
      assert a == [c] + d && a + b == [c] + (d + b);
      FirstLineCons(c, d + b);
      FirstLineCons(c, d);
      if c != '\n' {
        FirstLineConcat(d, b);
        CatAssociative([c], d, FirstLine(b));
      }
    }
  }

  lemma FirstLineCons(c: char, t: string)
    ensures FirstLine([c] + t) == if c == '\n' then "" else [c] + FirstLine(t)
  {
    assert ([c] + t)[1..] == t;
  }

  /** `line.rstrip()`. */
  function RStrip(t: string): string {
    if t != "" && IsSpace(t[|t| - 1]) then RStrip(t[..|t| - 1]) else t
  }

  lemma {:induction false} OneLine(t: string)
    requires '\n' !in t
    ensures FirstLine(t) == t && LastLine(t) == t
  {
    FirstLineConcat(t, "");
    LastLineConcat("", t);
    assert t + "" == t && "" + t == t;
  }

  lemma LastLineCons(c: char, t: string)
    ensures LastLine([c] + t) == if c == '\n' || '\n' in t then LastLine(t) else [c] + t
  {
    LastLineConcat([c], t);
    if '\n' !in t { OneLine(t); }
    assert [c][..0] == "";
    assert "" + t == t && "" + [c] == [c];
  }

  lemma {:induction false} RStripIsTrimmed(t: string)
    ensures RStrip(t) <= t && (RStrip(t) != "" ==> EndsInWord(RStrip(t)))
    ensures RStrip(t) == "" <==> AllBlank(t)
  {
    if t != "" && IsSpace(t[|t| - 1]) {
      RStripIsTrimmed(t[..|t| - 1]);
      assert t == t[..|t| - 1] + [t[|t| - 1]];
    }
  }

  lemma {:induction false} RStripCons(c: char, t: string)
    ensures RStrip([c] + t) == if RStrip(t) == "" && IsSpace(c) then "" else [c] + RStrip(t)
  {
    var u := [c] + t;
    if t == "" {
      assert u == [c] && u[..0] == "";
    } else if IsSpace(t[|t| - 1]) {
      assert u[..|u| - 1] == [c] + t[..|t| - 1];
      RStripCons(c, t[..|t| - 1]);
    }
  }

  // ----- Sequences -----------------------------------------------------------

  lemma CutInThree<T>(t: seq<T>, a: nat, b: nat, c: nat)
    requires a <= b <= c <= |t|
    ensures t[a..] == t[a..b] + t[b..c] + t[c..]
  {
  }

  lemma CatAssociative<T>(a: seq<T>, b: seq<T>, c: seq<T>)
    ensures (a + b) + c == a + (b + c)
  {
  }

  lemma AppendSame<T>(a: seq<T>, b: seq<T>, x: T, y: T)
    requires |a| == |b|
    ensures a + [x] == b + [y] <==> a == b && x == y
  {
    assert (a + [x])[..|a|] == a && (b + [y])[..|b|] == b;
    assert (a + [x])[|a|] == x && (b + [y])[|b|] == y;
  }
}
