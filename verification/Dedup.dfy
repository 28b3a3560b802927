/** Replacing later copies of a large block by a marker (`parcus.compress.dedup`). */
module Dedup {
  import opened Text
  import opened Spans
  import opened Requests

  /** The marker text and the size from which a block is eligible. */
  datatype Config = Config(marker: string, minChars: nat)

  /** The constructor clamps the threshold above the marker. */
  function Configure(minChars: int, marker: string): (c: Config)
    ensures Valid(c) && c.marker == marker && c.minChars >= minChars
    ensures c.minChars == minChars || c.minChars == |marker| + 1
  {
    Config(marker, if minChars > |marker| then minChars else |marker| + 1)
  }

  predicate Valid(c: Config) {
    c.minChars > |c.marker|
  }

  // ----- One run of spans ----------------------------------------------------

  predicate Large(c: Config, t: string) {
    |t| >= c.minChars
  }

  predicate Repeats(before: seq<Span>, t: string) {
    exists j :: 0 <= j < |before| && before[j].text == t
  }

  /** A large block already met in `before` becomes the marker. */
  function DedupSpan(c: Config, before: seq<Span>, s: Span): Span {
    if Large(c, s.text) && Repeats(before, s.text) then Span(c.marker, false) else s
  }

  function DedupRun(c: Config, before: seq<Span>, spans: seq<Span>): (out: seq<Span>)
    ensures |out| == |spans|
    decreases |spans|
  {
    if spans == [] then [] else [DedupSpan(c, before, spans[0])] + DedupRun(c, before + [spans[0]], spans[1..])
  }

  lemma {:induction false} DedupRunAt(c: Config, before: seq<Span>, spans: seq<Span>, k: nat)
    requires k < |spans|
    ensures DedupRun(c, before, spans)[k] == DedupSpan(c, before + spans[..k], spans[k])
    decreases |spans|
  {
    hide DedupSpan;
    if k == 0 {
      assert before + spans[..0] == before;
    } else {
      DedupRunAt(c, before + [spans[0]], spans[1..], k - 1);
      assert before + [spans[0]] + spans[1..][..k - 1] == before + spans[..k];
    }
  }

  /** How many spans of the run are replaced. */
  function Replaced(c: Config, before: seq<Span>, spans: seq<Span>): nat
    decreases |spans|
  {
    if spans == [] then 0
    else
      (if Large(c, spans[0].text) && Repeats(before, spans[0].text) then 1 else 0) +
      Replaced(c, before + [spans[0]], spans[1..])
  }

  // ----- Requests ------------------------------------------------------------

  /** The spans of the plain messages, in reading order. */
  function PlainSpans(ms: seq<Message>): seq<Span> {
    if ms == [] then [] else ms[0].Spans() + PlainSpans(ms[1..])
  }

  function DedupMessage(c: Config, before: seq<Span>, m: Message): Message {
    match m
    case Plain(role, spans) => Plain(role, DedupRun(c, before, spans))
    case Structured(_, _) => m
  }

  function DedupMessages(c: Config, before: seq<Span>, ms: seq<Message>): seq<Message>
    decreases |ms|
  {
    if ms == [] then []
    else [DedupMessage(c, before, ms[0])] + DedupMessages(c, before + ms[0].Spans(), ms[1..])
  }

  function DedupRequest(c: Config, r: Request): Request {
    r.(messages := DedupMessages(c, [], r.messages))
  }

  // ----- The loops -----------------------------------------------------------

  /** What the `seen` set holds once `before` has been read. */
  ghost predicate SeenAre(c: Config, seen: set<string>, before: seq<Span>) {
    forall t :: t in seen <==> Large(c, t) && Repeats(before, t)
  }

  lemma {:induction false} DedupRunAppend(c: Config, before: seq<Span>, spans: seq<Span>, s: Span)
    ensures DedupRun(c, before, spans + [s]) == DedupRun(c, before, spans) + [DedupSpan(c, before + spans, s)]
    ensures Replaced(c, before, spans + [s]) ==
            Replaced(c, before, spans) + (if Large(c, s.text) && Repeats(before + spans, s.text) then 1 else 0)
    decreases |spans|
  {
    if spans == [] {
      assert [] + [s] == [s] && before + [] == before && [s][1..] == [];
    } else {
      assert (spans + [s])[1..] == spans[1..] + [s];
      assert before + spans == before + [spans[0]] + spans[1..];
      DedupRunAppend(c, before + [spans[0]], spans[1..], s);
    }
  }

  lemma EmptyRun(c: Config, before: seq<Span>)
    ensures DedupRun(c, before, []) == [] && Replaced(c, before, []) == 0
  {
  }

  method DedupSpansOf(c: Config, ghost before: seq<Span>, seen: set<string>, spans: seq<Span>)
    returns (newSpans: seq<Span>, seen': set<string>, touched: nat)
    requires SeenAre(c, seen, before)
    ensures newSpans == DedupRun(c, before, spans)
    ensures SeenAre(c, seen', before + spans)
    ensures touched == Replaced(c, before, spans)
  {
    hide Repeats, DedupRun, Replaced, SeenAre;
    EmptyRun(c, before);
    newSpans, seen', touched := [], seen, 0;
    assert before + [] == before;
    for k := 0 to |spans|
      invariant newSpans == DedupRun(c, before, spans[..k])
      invariant SeenAre(c, seen', before + spans[..k])
      invariant touched == Replaced(c, before, spans[..k])
    {
      var span := spans[k];
      ghost var read := before + spans[..k];
      assert spans[..k + 1] == spans[..k] + [span];
      assert before + spans[..k + 1] == read + [span];
      DedupRunAppend(c, before, spans[..k], span);
      SeenGrows(c, seen', read, span);
      SeenSays(c, seen', read, span.text);
      if |span.text| >= c.minChars {
        if span.text in seen' {
          assert seen' + {span.text} == seen';
          touched := touched + 1;
          newSpans := newSpans + [Span(c.marker, false)];
          continue;
        }
        seen' := seen' + {span.text};
      }
      newSpans := newSpans + [span];
    }
    assert spans[..|spans|] == spans;
  }

  lemma SeenSays(c: Config, seen: set<string>, before: seq<Span>, t: string)
    requires SeenAre(c, seen, before)
    ensures t in seen <==> Large(c, t) && Repeats(before, t)
  {
  }

  lemma SeenGrows(c: Config, seen: set<string>, before: seq<Span>, s: Span)
    requires SeenAre(c, seen, before)
    ensures SeenAre(c, if Large(c, s.text) then seen + {s.text} else seen, before + [s])
  {
    var after := before + [s];
    forall t ensures Repeats(after, t) <==> Repeats(before, t) || t == s.text {
      if Repeats(before, t) {
        var j :| 0 <= j < |before| && before[j].text == t;
        assert after[j].text == t;
      }
      assert after[|before|].text == s.text;
    }
  }

  lemma MessageStep(c: Config, before: seq<Span>, ms: seq<Message>)
    requires ms != []
    ensures DedupMessages(c, before, ms) ==
            [DedupMessage(c, before, ms[0])] + DedupMessages(c, before + ms[0].Spans(), ms[1..])
    ensures Replaced(c, before, PlainSpans(ms)) ==
            Replaced(c, before, ms[0].Spans()) + Replaced(c, before + ms[0].Spans(), PlainSpans(ms[1..]))
  {
    hide DedupMessage, Replaced;
    ReplacedConcat(c, before, ms[0].Spans(), PlainSpans(ms[1..]));
  }

  lemma NoMessages(c: Config, before: seq<Span>)
    ensures DedupMessages(c, before, []) == [] && Replaced(c, before, PlainSpans([])) == 0
    ensures SeenAre(c, {}, [])
  {
  }

  /** One message of the loop. */
  method DedupOne(c: Config, ghost before: seq<Span>, seen: set<string>, m: Message)
    returns (out: Message, seen': set<string>, touched: nat)
    requires SeenAre(c, seen, before)
    ensures out == DedupMessage(c, before, m)
    ensures SeenAre(c, seen', before + m.Spans())
    ensures touched == Replaced(c, before, m.Spans())
  {
    hide SeenAre, DedupRun, Repeats;
    match m {
      case Structured(_, _) =>
        assert before + [] == before;
        out, seen', touched := m, seen, 0;
      case Plain(role, spans) =>
        var newSpans;
        newSpans, seen', touched := DedupSpansOf(c, before, seen, spans);
        out := Plain(role, newSpans);
    }
  }

  /** `DedupCompressor.compress`. Unless something was replaced the request itself is returned. */
  method DedupCompress(c: Config, r: Request) returns (out: Request, touched: nat)
    ensures out == DedupRequest(c, r)
    ensures touched == Replaced(c, [], PlainSpans(r.messages))
    ensures touched == 0 ==> out == r
  {
    hide SeenAre, DedupRun, Repeats, DedupMessage, DedupMessages, Replaced, PlainSpans;
    var seen: set<string> := {};
    touched := 0;
    var newMessages: seq<Message> := [];
    ghost var before: seq<Span> := [];
    NoMessages(c, before);
    assert r.messages[0..] == r.messages && [] + DedupMessages(c, [], r.messages) == DedupMessages(c, [], r.messages);
    for i := 0 to |r.messages|
      invariant SeenAre(c, seen, before)
      invariant newMessages + DedupMessages(c, before, r.messages[i..]) == DedupMessages(c, [], r.messages)
      invariant touched + Replaced(c, before, PlainSpans(r.messages[i..])) == Replaced(c, [], PlainSpans(r.messages))
    {
      assert r.messages[i..][1..] == r.messages[i + 1..];
      MessageStep(c, before, r.messages[i..]);
      var message, n;
      message, seen, n := DedupOne(c, before, seen, r.messages[i]);
      touched := touched + n;
      CatAssociative(newMessages, [message], DedupMessages(c, before + r.messages[i].Spans(), r.messages[i + 1..]));
      newMessages := newMessages + [message];
      before := before + r.messages[i].Spans();
    }
    assert r.messages[|r.messages|..] == [];
    NoMessages(c, before);
    assert newMessages + [] == newMessages;
    if touched == 0 {
      NothingReplacedMessages(c, [], r.messages);
      return r, 0;
    }
    out := r.(messages := newMessages);
  }

  lemma {:induction false} ReplacedConcat(c: Config, before: seq<Span>, a: seq<Span>, b: seq<Span>)
    ensures Replaced(c, before, a + b) == Replaced(c, before, a) + Replaced(c, before + a, b)
    decreases |a|
  {
    if a == [] {
      assert a + b == b && before + a == before;
    } else {
      assert (a + b)[1..] == a[1..] + b && before + a == before + [a[0]] + a[1..];
      ReplacedConcat(c, before + [a[0]], a[1..], b);
    }
  }

  lemma {:induction false} NothingReplaced(c: Config, before: seq<Span>, spans: seq<Span>)
    requires Replaced(c, before, spans) == 0
    ensures DedupRun(c, before, spans) == spans
    decreases |spans|
  {
    if spans != [] { NothingReplaced(c, before + [spans[0]], spans[1..]); }
  }

  lemma {:induction false} NothingReplacedMessages(c: Config, before: seq<Span>, ms: seq<Message>)
    requires Replaced(c, before, PlainSpans(ms)) == 0
    ensures DedupMessages(c, before, ms) == ms
    decreases |ms|
  {
    if ms != [] {
      ReplacedConcat(c, before, ms[0].Spans(), PlainSpans(ms[1..]));
      NothingReplaced(c, before, ms[0].Spans());
      NothingReplacedMessages(c, before + ms[0].Spans(), ms[1..]);
    }
  }

  // ----- Nothing is lost -----------------------------------------------------

  /** The deduplicated plain spans are the run over all of them, message borders aside. */
  lemma {:induction false} PlainSpansDedup(c: Config, before: seq<Span>, ms: seq<Message>)
    ensures PlainSpans(DedupMessages(c, before, ms)) == DedupRun(c, before, PlainSpans(ms))
    decreases |ms|
  {
    if ms != [] {
      var a, rest := ms[0].Spans(), PlainSpans(ms[1..]);
      PlainSpansDedup(c, before + a, ms[1..]);
      var out := DedupMessages(c, before, ms);
      assert out[1..] == DedupMessages(c, before + a, ms[1..]);
      assert out[0].Spans() == DedupRun(c, before, a);
      DedupRunConcat(c, before, a, rest);
    }
  }

  lemma {:induction false} DedupRunConcat(c: Config, before: seq<Span>, a: seq<Span>, b: seq<Span>)
    ensures DedupRun(c, before, a + b) == DedupRun(c, before, a) + DedupRun(c, before + a, b)
    decreases |a|
  {
    if a == [] {
      assert a + b == b && before + a == before;
    } else {
      assert (a + b)[1..] == a[1..] + b && before + a == before + [a[0]] + a[1..];
      DedupRunConcat(c, before + [a[0]], a[1..], b);
      CatAssociative([DedupSpan(c, before, a[0])], DedupRun(c, before + [a[0]], a[1..]), DedupRun(c, before + a, b));
    }
  }

  function Dedup(c: Config, spans: seq<Span>): (out: seq<Span>)
    ensures |out| == |spans|
  {
    DedupRun(c, [], spans)
  }

  lemma DedupAt(c: Config, spans: seq<Span>, k: nat)
    requires k < |spans|
    ensures Dedup(c, spans)[k] == DedupSpan(c, spans[..k], spans[k])
  {
    DedupRunAt(c, [], spans, k);
    assert [] + spans[..k] == spans[..k];
  }

  /** The first span with the text of span `k`. */
  function FirstCopy(spans: seq<Span>, k: nat): (j: nat)
    requires k < |spans|
    ensures j <= k && spans[j].text == spans[k].text
    ensures forall i :: 0 <= i < j ==> spans[i].text != spans[k].text
  {
    FirstCopyFrom(spans, k, 0)
  }

  function FirstCopyFrom(spans: seq<Span>, k: nat, from: nat): (j: nat)
    requires from <= k < |spans|
    ensures from <= j <= k && spans[j].text == spans[k].text
    ensures forall i :: from <= i < j ==> spans[i].text != spans[k].text
    decreases k - from
  {
    if spans[from].text == spans[k].text then from else FirstCopyFrom(spans, k, from + 1)
  }

  /** Where each marker points: the kept copy of the block it replaced. */
  function BackPointers(c: Config, spans: seq<Span>): (p: seq<Option<nat>>)
    ensures |p| == |spans|
  {
    seq(|spans|, k requires 0 <= k < |spans| =>
      if Large(c, spans[k].text) && Repeats(spans[..k], spans[k].text) then Some(FirstCopy(spans, k)) else None)
  }

  /** Every marker points back to a block kept verbatim before it. */
  lemma MarkersPointBack(c: Config, spans: seq<Span>, k: nat)
    requires k < |spans|
    ensures var p, out := BackPointers(c, spans)[k], Dedup(c, spans);
            match p
            case None => out[k] == spans[k]
            case Some(j) =>
              out[k] == Span(c.marker, false) && Large(c, spans[k].text) &&
              j < k && out[j] == spans[j] && spans[j].text == spans[k].text
  {
    hide Dedup;
    DedupAt(c, spans, k);
    if BackPointers(c, spans)[k].Some? {
      var j := FirstCopy(spans, k);
      DedupAt(c, spans, j);
      assert j < k by {
        var i :| 0 <= i < k && spans[..k][i].text == spans[k].text;
        assert spans[i].text == spans[k].text;
      }
      assert forall i :: 0 <= i < j ==> spans[..j][i].text != spans[j].text;
    }
  }

  /** Undo the replacements by following the pointers. */
  function Restore(out: seq<Span>, pointers: seq<Option<nat>>): seq<string>
    requires |pointers| == |out|
    requires forall k :: 0 <= k < |out| && pointers[k].Some? ==> pointers[k].value < |out|
  {
    seq(|out|, k requires 0 <= k < |out| =>
      if pointers[k].Some? then out[pointers[k].value].text else out[k].text)
  }

  lemma RestoreIsExact(c: Config, spans: seq<Span>)
    ensures var p := BackPointers(c, spans);
            (forall k :: 0 <= k < |spans| && p[k].Some? ==> p[k].value < |spans|) &&
            Restore(Dedup(c, spans), p) == seq(|spans|, k requires 0 <= k < |spans| => spans[k].text)
  {
    forall k | 0 <= k < |spans|
      ensures var p := BackPointers(c, spans)[k];
              if p.Some? then p.value < |spans| && Dedup(c, spans)[p.value].text == spans[k].text
              else Dedup(c, spans)[k].text == spans[k].text
    {
      MarkersPointBack(c, spans, k);
    }
  }

  /** A span is code exactly when its text is a closed fence, as the classifier would have it. */
  ghost predicate FlagsFollowText(spans: seq<Span>) {
    forall s <- spans :: s.mutable <==> !IsClosedFence(s.text)
  }

  lemma {:induction false} CanonicalFlags(spans: seq<Span>)
    requires Canonical(spans)
    ensures FlagsFollowText(spans)
  {
    if spans != [] {
      CanonicalFlags(spans[1..]);
      var f := spans[0].text;
      if IsClosedFence(f) { assert FenceAt(f, 0) && FenceAt(f, |f| - 3); }
      assert forall s <- spans :: s == spans[0] || s in spans[1..];
    }
  }

  lemma ClassifiedFlags(t: string)
    ensures FlagsFollowText(Classify(t))
  {
    if t != "" {
      ScanIsCanonical(t, 0);
      CanonicalFlags(Scan(t));
    }
  }

  /** Undo the replacements, flags and all. */
  function RestoreSpans(out: seq<Span>, pointers: seq<Option<nat>>): seq<Span>
    requires |pointers| == |out|
    requires forall k :: 0 <= k < |out| && pointers[k].Some? ==> pointers[k].value < |out|
  {
    seq(|out|, k requires 0 <= k < |out| => if pointers[k].Some? then out[pointers[k].value] else out[k])
  }

  /** Classified spans come back exactly, although a marker is never mutable. */
  lemma RestoreSpansIsExact(c: Config, spans: seq<Span>)
    requires FlagsFollowText(spans)
    ensures var p := BackPointers(c, spans);
            (forall k :: 0 <= k < |spans| && p[k].Some? ==> p[k].value < |spans|) &&
            RestoreSpans(Dedup(c, spans), p) == spans
  {
    forall k | 0 <= k < |spans|
      ensures var p := BackPointers(c, spans)[k];
              if p.Some? then p.value < |spans| && Dedup(c, spans)[p.value] == spans[k]
              else Dedup(c, spans)[k] == spans[k]
    {
      MarkersPointBack(c, spans, k);
      var p := BackPointers(c, spans)[k];
      if p.Some? { assert spans[p.value] in spans && spans[k] in spans; }
    }
  }

  lemma LargeBlockAt(c: Config, spans: seq<Span>, t: string, k: nat)
    requires Valid(c) && Large(c, t) && k < |spans|
    ensures Dedup(c, spans)[k].text == t <==> spans[k].text == t && !Repeats(spans[..k], t)
  {
    hide Repeats, Dedup;
    DedupAt(c, spans, k);
  }

  /** Each large block of the input is in the output, at one place only; no other appears. */
  lemma LargeBlocksOnce(c: Config, spans: seq<Span>, t: string)
    requires c.minChars > |c.marker| && |t| >= c.minChars
    ensures (exists k :: 0 <= k < |spans| && Dedup(c, spans)[k].text == t) <==> exists k :: 0 <= k < |spans| && spans[k].text == t
    ensures forall j, k :: 0 <= j < k < |spans| ==>
              !(Dedup(c, spans)[j].text == t && Dedup(c, spans)[k].text == t)
  {
    hide Dedup;
    var out := Dedup(c, spans);
    forall k: nat | k < |spans| ensures out[k].text == t <==> spans[k].text == t && !Repeats(spans[..k], t) {
      LargeBlockAt(c, spans, t, k);
    }
    forall j, k | 0 <= j < k < |spans| && out[j].text == t ensures out[k].text != t {
      assert spans[..k][j].text == t;
    }
    if Repeats(spans, t) {
      var k :| 0 <= k < |spans| && spans[k].text == t;
      var j := FirstCopy(spans, k);
      assert !Repeats(spans[..j], t);
      assert out[j].text == t;
    }
    if k :| 0 <= k < |out| && out[k].text == t {
      assert spans[k].text == t;
    }
  }

  /** The places of the blocks that are large enough and have come before. */
  function RepeatPlaces(c: Config, spans: seq<Span>): set<nat> {
    set k: nat | k < |spans| && |spans[k].text| >= c.minChars && exists j :: 0 <= j < k && spans[j].text == spans[k].text
  }

  /** A span becomes the marker exactly when it is large enough and has come before, and so many are counted. */
  lemma RepeatsAreReplaced(c: Config, spans: seq<Span>)
    ensures Replaced(c, [], spans) == |RepeatPlaces(c, spans)|
    ensures forall k :: 0 <= k < |spans| ==>
              Dedup(c, spans)[k] == if k in RepeatPlaces(c, spans) then Span(c.marker, false) else spans[k]
  {
    hide Dedup;
    assert spans[..|spans|] == spans;
    ReplacedCounts(c, spans, |spans|);
    forall k: nat | k < |spans|
      ensures Dedup(c, spans)[k] == if k in RepeatPlaces(c, spans) then Span(c.marker, false) else spans[k]
    {
      DedupAt(c, spans, k);
      RepeatsBefore(spans, k);
    }
  }

  lemma RepeatsBefore(spans: seq<Span>, k: nat)
    requires k < |spans|
    ensures Repeats(spans[..k], spans[k].text) <==> exists j :: 0 <= j < k && spans[j].text == spans[k].text
  {
    if j :| 0 <= j < k && spans[j].text == spans[k].text {
      assert spans[..k][j].text == spans[k].text;
    }
  }

  lemma {:induction false} ReplacedCounts(c: Config, spans: seq<Span>, n: nat)
    requires n <= |spans|
    ensures Replaced(c, [], spans[..n]) == |RepeatPlaces(c, spans[..n])|
  {
    hide Replaced, Repeats;
    if n == 0 {
      EmptyRun(c, []);
      assert RepeatPlaces(c, []) == {};
    } else {
      ReplacedCounts(c, spans, n - 1);
      assert spans[..n] == spans[..n - 1] + [spans[n - 1]];
      DedupRunAppend(c, [], spans[..n - 1], spans[n - 1]);
      assert [] + spans[..n - 1] == spans[..n - 1];
      RepeatsBefore(spans, n - 1);
      PlacesStep(c, spans, n);
    }
  }

  lemma PlacesStep(c: Config, spans: seq<Span>, n: nat)
    requires 0 < n <= |spans|
    ensures var last := |spans[n - 1].text| >= c.minChars && exists j :: 0 <= j < n - 1 && spans[j].text == spans[n - 1].text;
            |RepeatPlaces(c, spans[..n])| == |RepeatPlaces(c, spans[..n - 1])| + if last then 1 else 0
  {
    var before, places := RepeatPlaces(c, spans[..n - 1]), RepeatPlaces(c, spans[..n]);
    assert forall k :: 0 <= k < n - 1 ==> spans[..n][k] == spans[..n - 1][k] == spans[k];
    forall k: nat | k < n - 1 ensures k in places <==> k in before {
    }
    assert places == before + if n - 1 in places then {n - 1} else {};
  }

  /** Every replacement saves at least one character. */
  lemma {:induction false} DedupSaves(c: Config, before: seq<Span>, spans: seq<Span>)
    requires Valid(c)
    ensures |Concat(DedupRun(c, before, spans))| + Replaced(c, before, spans) <= |Concat(spans)|
    decreases |spans|
  {
    if spans != [] {
      DedupSaves(c, before + [spans[0]], spans[1..]);
      var rest := DedupRun(c, before + [spans[0]], spans[1..]);
      assert ([DedupSpan(c, before, spans[0])] + rest)[1..] == rest;
    }
  }

  /** A second pass finds nothing to replace. */
  lemma DedupIdempotent(c: Config, spans: seq<Span>)
    requires Valid(c)
    ensures Dedup(c, Dedup(c, spans)) == Dedup(c, spans)
    ensures Replaced(c, [], Dedup(c, spans)) == 0
  {
    hide DedupRun, Replaced;
    var out := Dedup(c, spans);
    forall k | 0 <= k < |out| ensures !(Large(c, out[k].text) && Repeats(out[..k], out[k].text)) {
      if Large(c, out[k].text) {
        LargeBlocksOnce(c, spans, out[k].text);
        assert forall j :: 0 <= j < k ==> out[..k][j].text == out[j].text;
      }
    }
    assert forall k :: 0 <= k < |out| ==> [] + out[..k] == out[..k];
    NoneRepeats(c, [], out);
    NothingReplaced(c, [], out);
  }

  lemma {:induction false} NoneRepeats(c: Config, before: seq<Span>, spans: seq<Span>)
    requires forall k :: 0 <= k < |spans| ==> !(Large(c, spans[k].text) && Repeats(before + spans[..k], spans[k].text))
    ensures Replaced(c, before, spans) == 0
    decreases |spans|
  {
    if spans != [] {
      assert before + spans[..0] == before;
      forall k | 0 <= k < |spans[1..]|
        ensures !(Large(c, spans[1..][k].text) && Repeats(before + [spans[0]] + spans[1..][..k], spans[1..][k].text))
      {
        assert before + spans[..k + 1] == before + [spans[0]] + spans[1..][..k];
      }
      NoneRepeats(c, before + [spans[0]], spans[1..]);
    }
  }

  // ----- The same for requests -----------------------------------------------

  lemma {:induction false} PlainTextLength(ms: seq<Message>, out: seq<Message>, dump: Json -> string)
    requires |ms| == |out|
    requires forall i :: 0 <= i < |ms| ==> ms[i].Plain? == out[i].Plain? && (ms[i].Structured? ==> ms[i] == out[i])
    ensures |MessagesText(ms, dump)| - |MessagesText(out, dump)| == |Concat(PlainSpans(ms))| - |Concat(PlainSpans(out))|
  {
    if ms != [] {
      PlainTextLength(ms[1..], out[1..], dump);
      ConcatAppend(ms[0].Spans(), PlainSpans(ms[1..]));
      ConcatAppend(out[0].Spans(), PlainSpans(out[1..]));
    }
  }

  lemma {:induction false} DedupMessagesAt(c: Config, before: seq<Span>, ms: seq<Message>)
    ensures var out := DedupMessages(c, before, ms);
            |out| == |ms| &&
            forall i :: 0 <= i < |ms| ==>
              out[i].role == ms[i].role && out[i].Plain? == ms[i].Plain? &&
              |out[i].Spans()| == |ms[i].Spans()| && (ms[i].Structured? ==> out[i] == ms[i])
    decreases |ms|
  {
    if ms != [] { DedupMessagesAt(c, before + ms[0].Spans(), ms[1..]); }
  }

  /**
    * Dedup of a request: the text shrinks by at least one character per replaced span, each
    * large block of the plain messages survives at exactly one place, structured messages and
    * the rest of the request stay, and deduplicating again changes nothing.
    */
  lemma DedupLosesNothing(c: Config, r: Request, dump: Json -> string)
    requires Valid(c)
    ensures var out, spans := DedupRequest(c, r), PlainSpans(r.messages);
            PlainSpans(out.messages) == Dedup(c, spans) &&
            |RequestText(out, dump)| + Replaced(c, [], spans) <= |RequestText(r, dump)| &&
            DedupRequest(c, out) == out &&
            out == r.(messages := out.messages) && |out.messages| == |r.messages| &&
            (forall i :: 0 <= i < |r.messages| && r.messages[i].Structured? ==> out.messages[i] == r.messages[i])
  {
    var out, spans := DedupRequest(c, r), PlainSpans(r.messages);
    PlainSpansDedup(c, [], r.messages);
    DedupMessagesAt(c, [], r.messages);
    DedupSaves(c, [], spans);
    PlainTextLength(r.messages, out.messages, dump);
    DedupIdempotent(c, spans);
    NothingReplacedMessages(c, [], out.messages);
  }
}
