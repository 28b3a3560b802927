/** Deleting only allowed words from a word sequence (`removed_only_allowed`). */
module Removal {
  import opened Text
  import opened Spans

  /** The words whose normal form is allow-listed; `norm` strips punctuation and lower-cases. */
  function Among(norm: string -> string, allowed: set<string>): string -> bool {
    token => norm(token) in allowed
  }

  /** The words of `o` that `keep` marks. */
  function Kept(o: seq<string>, keep: seq<bool>): seq<string>
    requires |keep| == |o|
  {
    if o == [] then []
    else (if keep[0] then [o[0]] else []) + Kept(o[1..], keep[1..])
  }

  /** `keep` embeds `c` in `o`: it selects `c`, and what it skips may be dropped. */
  ghost predicate IsEmbedding(keep: seq<bool>, o: seq<string>, c: seq<string>, drop: string -> bool) {
    |keep| == |o| && Kept(o, keep) == c && forall k :: 0 <= k < |o| && !keep[k] ==> drop(o[k])
  }

  ghost predicate Embeds(o: seq<string>, c: seq<string>, drop: string -> bool) {
    exists keep :: IsEmbedding(keep, o, c, drop)
  }

  // ----- The greedy checker --------------------------------------------------

  /** The checker's verdict on the words from `k` on, with `index` output words matched. */
  predicate GreedyFrom(o: seq<string>, c: seq<string>, drop: string -> bool, k: nat, index: nat)
    requires k <= |o| && index <= |c|
    decreases |o| - k
  {
    if k == |o| then index == |c|
    else if index < |c| && o[k] == c[index] then GreedyFrom(o, c, drop, k + 1, index + 1)
    else drop(o[k]) && GreedyFrom(o, c, drop, k + 1, index)
  }

  /** `removed_only_allowed`, matching each word as early as it can. */
  method RemovedOnlyAllowed(original: string, compressed: string, norm: string -> string, allowed: set<string>)
    returns (ok: bool)
    ensures ok <==> Embeds(Words(original), Words(compressed), Among(norm, allowed))
  {
    var outTokens, tokens := Words(compressed), Words(original);
    ghost var drop := Among(norm, allowed);
    GreedyIsExact(tokens, outTokens, drop, 0, 0);
    assert tokens[0..] == tokens && outTokens[0..] == outTokens;
    var index := 0;
    for k := 0 to |tokens|
      invariant index <= |outTokens|
      invariant GreedyFrom(tokens, outTokens, drop, 0, 0) == GreedyFrom(tokens, outTokens, drop, k, index)
    {
      if index < |outTokens| && tokens[k] == outTokens[index] {
        index := index + 1;
      } else if norm(tokens[k]) !in allowed {
        return false;
      }
    }
    return index == |outTokens|;
  }

  /** Matching early loses nothing: the greedy verdict is that some embedding exists. */
  lemma {:induction false} GreedyIsExact(o: seq<string>, c: seq<string>, drop: string -> bool, k: nat, index: nat)
    requires k <= |o| && index <= |c|
    ensures GreedyFrom(o, c, drop, k, index) <==> Embeds(o[k..], c[index..], drop)
    decreases |o| - k
  {
    var u, v := o[k..], c[index..];
    if k == |o| {
      assert Embeds(u, v, drop) <==> v == [] by {
        if v == [] { assert IsEmbedding([], u, v, drop); }
      }
    } else {
      assert o[k + 1..] == u[1..];
      if index < |c| && o[k] == c[index] {
        GreedyIsExact(o, c, drop, k + 1, index + 1);
        assert c[index + 1..] == v[1..];
        MatchFirst(u, v, drop);
      } else {
        GreedyIsExact(o, c, drop, k + 1, index);
        SkipFirst(u, v, drop);
      }
    }
  }

  /** The exchange: an embedding that skips a matching first word can be made to use it. */
  lemma MatchFirst(o: seq<string>, c: seq<string>, drop: string -> bool)
    requires o != [] && c != [] && o[0] == c[0]
    ensures Embeds(o, c, drop) <==> Embeds(o[1..], c[1..], drop)
  {
    if Embeds(o, c, drop) {
      var keep :| IsEmbedding(keep, o, c, drop);
      var rest := if keep[0] then keep[1..] else UnmarkFirst(keep[1..]);
      if !keep[0] { UnmarkFirstSkips(o[1..], keep[1..], c, drop); }
      assert IsEmbedding(rest, o[1..], c[1..], drop);
    }
    if Embeds(o[1..], c[1..], drop) {
      var keep :| IsEmbedding(keep, o[1..], c[1..], drop);
      assert IsEmbedding([true] + keep, o, c, drop) by {
        assert ([true] + keep)[1..] == keep && c == [c[0]] + c[1..];
        assert forall k :: 0 < k < |o| ==> o[k] == o[1..][k - 1];
      }
    }
  }

  lemma SkipFirst(o: seq<string>, c: seq<string>, drop: string -> bool)
    requires o != [] && (c == [] || o[0] != c[0])
    ensures Embeds(o, c, drop) <==> drop(o[0]) && Embeds(o[1..], c, drop)
  {
    if Embeds(o, c, drop) {
      var keep :| IsEmbedding(keep, o, c, drop);
      assert IsEmbedding(keep[1..], o[1..], c, drop);
    }
    if drop(o[0]) && Embeds(o[1..], c, drop) { DropFirst(o, c, drop); }
  }

  lemma DropFirst(o: seq<string>, c: seq<string>, drop: string -> bool)
    requires o != [] && drop(o[0]) && Embeds(o[1..], c, drop)
    ensures Embeds(o, c, drop)
  {
    var keep :| IsEmbedding(keep, o[1..], c, drop);
    assert IsEmbedding([false] + keep, o, c, drop) by {
      assert ([false] + keep)[1..] == keep;
      assert forall k :: 0 < k < |o| ==> o[k] == o[1..][k - 1];
    }
  }

  function UnmarkFirst(keep: seq<bool>): seq<bool> {
    if keep == [] then [] else if keep[0] then [false] + keep[1..] else [false] + UnmarkFirst(keep[1..])
  }

  lemma {:induction false} UnmarkFirstSkips(o: seq<string>, keep: seq<bool>, c: seq<string>, drop: string -> bool)
    requires IsEmbedding(keep, o, c, drop) && c != [] && drop(c[0])
    ensures IsEmbedding(UnmarkFirst(keep), o, c[1..], drop)
  {
    var less := UnmarkFirst(keep);
    if !keep[0] {
      UnmarkFirstSkips(o[1..], keep[1..], c, drop);
      assert less[1..] == UnmarkFirst(keep[1..]);
      assert forall k :: 0 < k < |o| ==> o[k] == o[1..][k - 1] && less[k] == less[1..][k - 1];
    } else {
      assert less[1..] == keep[1..];
    }
  }

  // ----- The relation is a partial order, and monotone -----------------------

  lemma {:induction false} EmbedsReflexive(o: seq<string>, drop: string -> bool)
    ensures Embeds(o, o, drop)
  {
    if o == [] {
      assert IsEmbedding([], o, o, drop);
    } else {
      EmbedsReflexive(o[1..], drop);
      MatchFirst(o, o, drop);
    }
  }

  /** Removals compose; what either step may drop, the composition may drop. */
  lemma EmbedsTransitive(a: seq<string>, b: seq<string>, c: seq<string>, drop: string -> bool)
    requires Embeds(a, b, drop) && Embeds(b, c, drop)
    ensures Embeds(a, c, drop)
  {
    var ab :| IsEmbedding(ab, a, b, drop);
    var bc :| IsEmbedding(bc, b, c, drop);
    var ac := Compose(a, ab, b, bc, c, drop);
  }

  lemma {:induction false} Compose(a: seq<string>, ab: seq<bool>, b: seq<string>, bc: seq<bool>, c: seq<string>, drop: string -> bool)
    returns (ac: seq<bool>)
    requires IsEmbedding(ab, a, b, drop) && IsEmbedding(bc, b, c, drop)
    ensures IsEmbedding(ac, a, c, drop)
  {
    if a == [] {
      ac := [];
    } else if ab[0] {
      assert b == [a[0]] + Kept(a[1..], ab[1..]) && b[1..] == Kept(a[1..], ab[1..]);
      var rest := Compose(a[1..], ab[1..], b[1..], bc[1..], Kept(b[1..], bc[1..]), drop);
      ac := [bc[0]] + rest;
      assert ac[1..] == rest;
      assert forall k :: 0 < k < |a| ==> a[k] == a[1..][k - 1];
    } else {
      var rest := Compose(a[1..], ab[1..], b, bc, c, drop);
      ac := [false] + rest;
      assert ac[1..] == rest;
      assert forall k :: 0 < k < |a| ==> a[k] == a[1..][k - 1];
    }
  }

  lemma {:induction false} KeptShrinks(o: seq<string>, keep: seq<bool>)
    requires |keep| == |o|
    ensures |Kept(o, keep)| <= |o|
    ensures |Kept(o, keep)| == |o| ==> Kept(o, keep) == o
  {
    if o != [] {
      KeptShrinks(o[1..], keep[1..]);
      assert o == [o[0]] + o[1..];
    }
  }

  lemma EmbedsAntisymmetric(a: seq<string>, b: seq<string>, drop: string -> bool)
    requires Embeds(a, b, drop) && Embeds(b, a, drop)
    ensures a == b
  {
    var ab :| IsEmbedding(ab, a, b, drop);
    var ba :| IsEmbedding(ba, b, a, drop);
    KeptShrinks(a, ab);
    KeptShrinks(b, ba);
  }

  lemma {:induction false} KeptConcat(a: seq<string>, b: seq<string>, ka: seq<bool>, kb: seq<bool>)
    requires |ka| == |a| && |kb| == |b|
    ensures Kept(a + b, ka + kb) == Kept(a, ka) + Kept(b, kb)
  {
    if a == [] {
      assert a + b == b && ka + kb == kb;
    } else {
      assert (a + b)[1..] == a[1..] + b && (ka + kb)[1..] == ka[1..] + kb;
      KeptConcat(a[1..], b, ka[1..], kb);
    }
  }

  lemma EmbedsConcat(a: seq<string>, b: seq<string>, c: seq<string>, d: seq<string>, drop: string -> bool)
    requires Embeds(a, c, drop) && Embeds(b, d, drop)
    ensures Embeds(a + b, c + d, drop)
  {
    var ka :| IsEmbedding(ka, a, c, drop);
    var kb :| IsEmbedding(kb, b, d, drop);
    KeptConcat(a, b, ka, kb);
    assert IsEmbedding(ka + kb, a + b, c + d, drop);
  }

  lemma EmbedsMonotone(a: seq<string>, b: seq<string>, drop: string -> bool, more: string -> bool)
    requires Embeds(a, b, drop) && forall w :: drop(w) ==> more(w)
    ensures Embeds(a, b, more)
  {
    var keep :| IsEmbedding(keep, a, b, drop);
    assert IsEmbedding(keep, a, b, more);
  }

  /** Deleting words brings no fence and no closed pair. */
  lemma {:induction false} KeptFences(o: seq<string>, keep: seq<bool>)
    requires |keep| == |o|
    ensures WordsHaveFence(Kept(o, keep)) ==> WordsHaveFence(o)
    ensures WordsHavePair(Kept(o, keep)) ==> WordsHavePair(o)
  {
    hide HasFence, HasClosedPair;
    if o != [] {
      KeptFences(o[1..], keep[1..]);
      var rest := Kept(o[1..], keep[1..]);
      assert ([o[0]] + rest)[1..] == rest && [] + rest == rest;
    }
  }

  lemma EmbedsGentle(t: string, u: string, drop: string -> bool)
    requires Embeds(Words(t), Words(u), drop)
    ensures HasFence(u) ==> HasFence(t)
    ensures HasClosedPair(u) ==> HasClosedPair(t)
  {
    hide HasFence, HasClosedPair;
    var keep :| IsEmbedding(keep, Words(t), Words(u), drop);
    KeptFences(Words(t), keep);
    FencesAreInWords(t);
    FencesAreInWords(u);
  }
}
