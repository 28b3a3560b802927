/** The model-free checks run on every compressed request (`parcus.invariants`). */
module Invariants {
  import opened Text
  import opened Spans
  import opened Requests
  import opened Removal

  /** How prose is compared: equal words, or only allowed words removed. */
  type Comparison = (string, string) -> bool

  /** `word_sequence_equal`. */
  function SameWords(): Comparison {
    (a, b) => Words(a) == Words(b)
  }

  /** `removed_only_allowed`, as a comparison. */
  function OnlyRemoved(drop: string -> bool): Comparison {
    (a, b) => GreedyFrom(Words(a), Words(b), drop, 0, 0)
  }

  lemma OnlyRemovedIsEmbeds(drop: string -> bool, a: string, b: string)
    ensures OnlyRemoved(drop)(a, b) <==> Embeds(Words(a), Words(b), drop)
  {
    GreedyIsExact(Words(a), Words(b), drop, 0, 0);
    assert Words(a)[0..] == Words(a) && Words(b)[0..] == Words(b);
  }

  // ----- Equivalence ---------------------------------------------------------

  predicate SpanAgrees(o: Span, c: Span, same: Comparison) {
    if o.mutable then same(o.text, c.text) else o.text == c.text
  }

  predicate MessageAgrees(o: Message, c: Message, same: Comparison) {
    o.role == c.role && |o.Spans()| == |c.Spans()| &&
    forall k :: 0 <= k < |o.Spans()| ==> SpanAgrees(o.Spans()[k], c.Spans()[k], same)
  }

  predicate SystemAgrees(o: Option<string>, c: Option<string>, same: Comparison) {
    o.None? == c.None? && (o.Some? && c.Some? ==> same(o.value, c.value))
  }

  /** Same roles and span skeleton, same code, prose equal up to `same`. */
  predicate Equivalent(o: Request, c: Request, same: Comparison) {
    SystemAgrees(o.system, c.system, same) &&
    |o.messages| == |c.messages| &&
    forall i :: 0 <= i < |o.messages| ==> MessageAgrees(o.messages[i], c.messages[i], same)
  }

  // ----- The reported violations ---------------------------------------------

  datatype Issue =
    | SystemPresence
    | SystemContent
    | MessageCount
    | RoleChanged(index: nat)
    | SpanStructure(index: nat)
    | ImmutableAltered(index: nat)
    | MutableChanged(index: nat)

  /** The issue is a real difference between two messages at position `i`. */
  predicate MessageRaises(o: Message, c: Message, same: Comparison, i: nat, x: Issue) {
    var os, cs := o.Spans(), c.Spans();
    match x
    case RoleChanged(j) => i == j && o.role != c.role
    case SpanStructure(j) => i == j && |os| != |cs|
    case ImmutableAltered(j) =>
      i == j && |os| == |cs| && exists k :: 0 <= k < |os| && !os[k].mutable && os[k].text != cs[k].text
    case MutableChanged(j) =>
      i == j && |os| == |cs| && exists k :: 0 <= k < |os| && os[k].mutable && !same(os[k].text, cs[k].text)
    case _ => false
  }

  predicate Raises(o: Request, c: Request, same: Comparison, x: Issue) {
    match x
    case SystemPresence => o.system.None? != c.system.None?
    case SystemContent => o.system.Some? && c.system.Some? && !same(o.system.value, c.system.value)
    case MessageCount => |o.messages| != |c.messages|
    case _ =>
      |o.messages| == |c.messages| &&
      exists i :: 0 <= i < |o.messages| && MessageRaises(o.messages[i], c.messages[i], same, i, x)
  }

  method SpanIssues(i: nat, o: seq<Span>, c: seq<Span>, same: Comparison) returns (issues: seq<Issue>)
    requires |o| == |c|
    ensures forall x <- issues :: x == ImmutableAltered(i) || x == MutableChanged(i)
    ensures ImmutableAltered(i) in issues <==> exists k :: 0 <= k < |o| && !o[k].mutable && o[k].text != c[k].text
    ensures MutableChanged(i) in issues <==> exists k :: 0 <= k < |o| && o[k].mutable && !same(o[k].text, c[k].text)
  {
    issues := [];
    for n := 0 to |o|
      invariant forall x <- issues :: x == ImmutableAltered(i) || x == MutableChanged(i)
      invariant ImmutableAltered(i) in issues <==> exists k :: 0 <= k < n && !o[k].mutable && o[k].text != c[k].text
      invariant MutableChanged(i) in issues <==> exists k :: 0 <= k < n && o[k].mutable && !same(o[k].text, c[k].text)
    {
      if !o[n].mutable {
        if o[n].text != c[n].text {
          issues := issues + [ImmutableAltered(i)];
        }
      } else if !same(o[n].text, c[n].text) {
        issues := issues + [MutableChanged(i)];
      }
    }
  }

  method MessageIssues(i: nat, o: Message, c: Message, same: Comparison) returns (issues: seq<Issue>)
    ensures forall x :: x in issues <==> MessageRaises(o, c, same, i, x)
  {
    issues := [];
    if o.role != c.role {
      issues := issues + [RoleChanged(i)];
    }
    if |o.Spans()| != |c.Spans()| {
      issues := issues + [SpanStructure(i)];
      return;
    }
    var more := SpanIssues(i, o.Spans(), c.Spans(), same);
    issues := issues + more;
  }

  /** `lossless_violations` and `filler_violations`: every difference, and nothing else. */
  method Violations(o: Request, c: Request, same: Comparison) returns (issues: seq<Issue>)
    ensures forall x :: x in issues <==> Raises(o, c, same, x)
    ensures issues == [] <==> Equivalent(o, c, same)
  {
    issues := [];
    if o.system.None? != c.system.None? {
      issues := issues + [SystemPresence];
    } else if o.system.Some? && c.system.Some? && !same(o.system.value, c.system.value) {
      issues := issues + [SystemContent];
    }
    if |o.messages| != |c.messages| {
      issues := issues + [MessageCount];
      return;
    }
    ghost var head := issues;
    for n := 0 to |o.messages|
      invariant forall x :: x in issues <==>
                  x in head || exists i :: 0 <= i < n && MessageRaises(o.messages[i], c.messages[i], same, i, x)
    {
      var more := MessageIssues(n, o.messages[n], c.messages[n], same);
      issues := issues + more;
    }
    NothingRaised(o, c, same);
    if issues != [] { assert issues[0] in issues; }
  }

  /** Equivalence, part by part: system prompt, number and roles of turns, spans, code and prose. */
  lemma EquivalentMeans(o: Request, c: Request, same: Comparison)
    ensures Equivalent(o, c, same) <==>
            (o.system.None? <==> c.system.None?) &&
            (o.system.Some? && c.system.Some? ==> same(o.system.value, c.system.value)) &&
            |o.messages| == |c.messages| &&
            (forall i :: 0 <= i < |o.messages| ==>
              o.messages[i].role == c.messages[i].role && |o.messages[i].Spans()| == |c.messages[i].Spans()|) &&
            (forall i, k :: 0 <= i < |o.messages| && 0 <= k < |o.messages[i].Spans()| ==>
              var before, after := o.messages[i].Spans()[k], c.messages[i].Spans()[k];
              if before.mutable then same(before.text, after.text) else before.text == after.text)
  {
  }

  lemma NothingRaised(o: Request, c: Request, same: Comparison)
    ensures (forall x :: !Raises(o, c, same, x)) <==> Equivalent(o, c, same)
  {
    if forall x :: !Raises(o, c, same, x) {
      assert !Raises(o, c, same, SystemPresence) && !Raises(o, c, same, SystemContent);
      assert !Raises(o, c, same, MessageCount);
      forall i | 0 <= i < |o.messages| ensures MessageAgrees(o.messages[i], c.messages[i], same) {
        forall x ensures !MessageRaises(o.messages[i], c.messages[i], same, i, x) {
          assert !Raises(o, c, same, x);
        }
        NothingRaisedByMessage(o.messages[i], c.messages[i], same, i);
      }
    }
    if Equivalent(o, c, same) {
      forall x ensures !Raises(o, c, same, x) {
        forall i | 0 <= i < |o.messages| ensures !MessageRaises(o.messages[i], c.messages[i], same, i, x) {
          NothingRaisedByMessage(o.messages[i], c.messages[i], same, i);
        }
      }
    }
  }

  lemma NothingRaisedByMessage(o: Message, c: Message, same: Comparison, i: nat)
    ensures (forall x :: !MessageRaises(o, c, same, i, x)) <==> MessageAgrees(o, c, same)
  {
    if forall x :: !MessageRaises(o, c, same, i, x) {
      assert !MessageRaises(o, c, same, i, RoleChanged(i)) && !MessageRaises(o, c, same, i, SpanStructure(i));
      assert !MessageRaises(o, c, same, i, ImmutableAltered(i)) && !MessageRaises(o, c, same, i, MutableChanged(i));
    }
  }
}
