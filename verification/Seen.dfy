/** The bounded set of recently seen prefixes (`parcus.cache.seen`). */
module Seen {
  import Text
  import opened Tags

  /** A remembered key and when it was last recorded. */
  datatype Entry = Entry(key: string, at: real)

  /** The key of a digest: namespaced by the tenant, if there is one. */
  function Key(tenant: string, digest: string): string {
    Tagged(tenant, digest)
  }

  // ----- The ordered dictionary ----------------------------------------------

  /** Where `key` is kept, or the length if it is not. */
  function Find(entries: seq<Entry>, key: string): (i: nat)
    ensures i <= |entries|
    ensures i < |entries| ==> entries[i].key == key
    ensures forall j :: 0 <= j < i ==> entries[j].key != key
  {
    if entries == [] || entries[0].key == key then 0 else 1 + Find(entries[1..], key)
  }

  function CutOut(entries: seq<Entry>, i: nat): seq<Entry>
    requires i < |entries|
  {
    entries[..i] + entries[i + 1..]
  }

  /** `pop(key, None)`. */
  function Remove(entries: seq<Entry>, key: string): seq<Entry> {
    var i := Find(entries, key);
    if i < |entries| then CutOut(entries, i) else entries
  }

  /** The most recent `max` entries. */
  function Suffix(entries: seq<Entry>, max: nat): seq<Entry> {
    if |entries| <= max then entries else entries[|entries| - max..]
  }

  /** Every key ever recorded, with its last time, least recent first: the unbounded set. */
  function Recency(history: seq<Entry>): seq<Entry> {
    if history == [] then []
    else
      var n := |history| - 1;
      Remove(Recency(history[..n]), history[n].key) + [history[n]]
  }

  class PrefixSeenSet {
    const max: nat
    const ttl: real
    /** Insertion-ordered, least recently seen first. */
    var seen: seq<Entry>
    /** Every sighting so far. */
    ghost var history: seq<Entry>

    ghost predicate Valid()
      reads this
    {
      max >= 1 && seen == Suffix(Recency(history), max)
    }

    constructor (maxEntries: int, ttlSeconds: real)
      ensures Valid() && history == [] && ttl == ttlSeconds
      ensures max == if maxEntries > 1 then maxEntries else 1
    {
      max := if maxEntries > 1 then maxEntries else 1;
      ttl := ttlSeconds;
      seen, history := [], [];
    }

    /** Record a sighting; say whether it repeats a remembered one within the TTL. */
    method RecordAndCheck(digest: string, tenant: string, now: real) returns (seenRecently: bool)
      requires Valid()
      modifies this
      ensures Valid() && history == old(history) + [Entry(Key(tenant, digest), now)]
      ensures seenRecently <==> Answer(old(history), max, ttl, Key(tenant, digest), now)
    {
      hide Find, Recency;
      var key := Key(tenant, digest);
      NothingToRemove(seen, key);
      var i := Find(seen, key);
      seenRecently := false;
      if i < |seen| {
        var prior := seen[i].at;
        seen := Remove(seen, key);
        seenRecently := now - prior <= ttl;
      }
      seen := seen + [Entry(key, now)];
      EvictOldest();
      RecencyStep(history, max, Entry(key, now));
      history := history + [Entry(key, now)];
    }

    /** `popitem(last=False)` until the cap holds. */
    method EvictOldest()
      modifies this`seen
      ensures seen == Suffix(old(seen), max)
    {
      SuffixWhole(seen);
      while |seen| > max
        invariant |seen| >= max || seen == old(seen)
        invariant |seen| <= |old(seen)| && seen == Suffix(old(seen), |seen|)
      {
        SuffixTail(old(seen), |seen|);
        seen := seen[1..];
      }
    }
  }

  lemma RecencyStep(history: seq<Entry>, max: nat, e: Entry)
    requires max >= 1
    ensures Suffix(Recency(history + [e]), max) ==
            Suffix(Remove(Suffix(Recency(history), max), e.key) + [e], max)
  {
    assert (history + [e])[..|history|] == history;
    RecencyIsDistinct(history);
    SuffixStep(Recency(history), max, e);
  }

  lemma NothingToRemove(entries: seq<Entry>, key: string)
    ensures Find(entries, key) == |entries| ==> Remove(entries, key) == entries
  {
  }

  lemma SuffixWhole(entries: seq<Entry>)
    ensures Suffix(entries, |entries|) == entries
  {
  }

  lemma SuffixTail(entries: seq<Entry>, n: nat)
    requires 0 < n <= |entries|
    ensures Suffix(entries, n)[1..] == Suffix(entries, n - 1)
  {
  }

  /** The answer of a set capped at `max` to a key at `now`, after `history`. */
  predicate Answer(history: seq<Entry>, max: nat, ttl: real, key: string, now: real) {
    var kept := Suffix(Recency(history), max);
    var i := Find(kept, key);
    i < |kept| && now - kept[i].at <= ttl
  }

  predicate Distinct(entries: seq<Entry>) {
    forall i, j :: 0 <= i < j < |entries| ==> entries[i].key != entries[j].key
  }

  lemma RemoveKeepsDistinct(entries: seq<Entry>, e: Entry)
    requires Distinct(entries)
    ensures Distinct(Remove(entries, e.key) + [e])
  {
    var i, rest := Find(entries, e.key), Remove(entries, e.key);
    forall j | 0 <= j < |rest| ensures rest[j].key != e.key {
      if i < |entries| { assert rest[j] == entries[if j < i then j else j + 1]; }
    }
  }

  lemma {:induction false} RecencyIsDistinct(history: seq<Entry>)
    ensures Distinct(Recency(history))
  {
    hide Remove, Distinct;
    if history == [] {
      NothingIsDistinct();
    } else {
      var n := |history| - 1;
      RecencyIsDistinct(history[..n]);
      RemoveKeepsDistinct(Recency(history[..n]), history[n]);
    }
  }

  lemma NothingIsDistinct()
    ensures Distinct([])
  {
  }

  lemma PrefixIsForgotten(p: seq<Entry>, x: seq<Entry>, max: nat)
    requires p == [] || |x| >= max
    ensures Suffix(p + x, max) == Suffix(x, max)
  {
    if p == [] {
      assert p + x == x;
    } else if |x| > max {
      assert (p + x)[|p + x| - max..] == x[|x| - max..];
    } else if max > 0 {
      assert (p + x)[|p|..] == x;
    }
  }

  lemma FindConcat(p: seq<Entry>, x: seq<Entry>, key: string)
    ensures Find(p + x, key) == if Find(p, key) < |p| then Find(p, key) else |p| + Find(x, key)
  {
    var i, a, b := Find(p + x, key), Find(p, key), Find(x, key);
    if a < |p| {
      assert (p + x)[a] == p[a];
    } else if b < |x| {
      assert (p + x)[|p| + b] == x[b];
    }
    assert forall j :: 0 <= j < |p| ==> (p + x)[j] == p[j];
    assert forall j :: 0 <= j < |x| ==> (p + x)[|p| + j] == x[j];
  }

  lemma CutOutLeft(p: seq<Entry>, x: seq<Entry>, i: nat)
    requires i < |p|
    ensures CutOut(p + x, i) == CutOut(p, i) + x
  {
    Text.CatAssociative(p[..i], p[i + 1..], x);
    assert (p + x)[..i] == p[..i] && (p + x)[i + 1..] == p[i + 1..] + x;
  }

  lemma CutOutRight(p: seq<Entry>, x: seq<Entry>, i: nat)
    requires i < |x|
    ensures CutOut(p + x, |p| + i) == p + CutOut(x, i)
  {
    Text.CatAssociative(p, x[..i], x[i + 1..]);
    assert (p + x)[..|p| + i] == p + x[..i];
    assert (p + x)[|p| + i + 1..] == x[i + 1..];
  }

  /** Removing a key from a list in two parts, if the first part does not share it with the second. */
  lemma RemoveConcat(p: seq<Entry>, x: seq<Entry>, key: string)
    requires Find(p, key) == |p| || Find(x, key) == |x|
    ensures Remove(p + x, key) == Remove(p, key) + Remove(x, key)
  {
    hide Find, CutOut;
    var a, b := Find(p, key), Find(x, key);
    FindConcat(p, x, key);
    if a < |p| {
      CutOutLeft(p, x, a);
    } else if b < |x| {
      CutOutRight(p, x, b);
    }
  }

  lemma DistinctParts(p: seq<Entry>, x: seq<Entry>, key: string)
    requires Distinct(p + x)
    ensures Distinct(p) && Distinct(x)
    ensures Find(p, key) == |p| || Find(x, key) == |x|
  {
    hide Find;
    assert forall j :: 0 <= j < |p| ==> (p + x)[j] == p[j];
    assert forall j :: 0 <= j < |x| ==> (p + x)[|p| + j] == x[j];
  }

  lemma SuffixParts(entries: seq<Entry>, max: nat) returns (p: seq<Entry>)
    ensures entries == p + Suffix(entries, max)
    ensures p == [] || |Suffix(entries, max)| == max
  {
    var kept := Suffix(entries, max);
    p := entries[..|entries| - |kept|];
  }

  lemma RemoveLength(entries: seq<Entry>, key: string)
    ensures |Remove(entries, key)| == if Find(entries, key) < |entries| then |entries| - 1 else |entries|
  {
  }

  /** Capping before or after a step is the same: what a bounded set forgets never matters to it. */
  lemma SuffixStep(entries: seq<Entry>, max: nat, e: Entry)
    requires max >= 1 && Distinct(entries)
    ensures Suffix(Remove(Suffix(entries, max), e.key) + [e], max) == Suffix(Remove(entries, e.key) + [e], max)
  {
    hide Find, Remove, Suffix, Distinct;
    var kept := Suffix(entries, max);
    var p := SuffixParts(entries, max);
    DistinctParts(p, kept, e.key);
    RemoveConcat(p, kept, e.key);
    Text.CatAssociative(Remove(p, e.key), Remove(kept, e.key), [e]);
    RemoveLength(p, e.key);
    RemoveLength(kept, e.key);
    if p == [] {
      assert Remove(p, e.key) == [] by { assert |Remove(p, e.key)| == 0; }
      PrefixIsForgotten([], Remove(kept, e.key) + [e], max);
    } else {
      PrefixIsForgotten(Remove(p, e.key), Remove(kept, e.key) + [e], max);
    }
  }

  // ----- What the set remembers, told from the history -----------------------

  function Keys(entries: seq<Entry>): set<string> {
    set e <- entries :: e.key
  }

  lemma {:induction false} KeysOfDistinct(entries: seq<Entry>)
    requires Distinct(entries)
    ensures |Keys(entries)| == |entries|
  {
    if entries != [] {
      var rest := entries[1..];
      KeysOfDistinct(rest);
      assert entries == [entries[0]] + rest;
      assert Keys(entries) == {entries[0].key} + Keys(rest);
      assert entries[0].key !in Keys(rest);
    }
  }

  lemma KeysOfRemove(entries: seq<Entry>, key: string)
    ensures Keys(Remove(entries, key)) + {key} == Keys(entries) + {key}
  {
    var i := Find(entries, key);
    if i < |entries| {
      assert entries == entries[..i] + [entries[i]] + entries[i + 1..];
      KeysConcat(entries[..i], entries[i + 1..]);
      KeysConcat(entries[..i] + [entries[i]], entries[i + 1..]);
      KeysConcat(entries[..i], [entries[i]]);
    }
  }

  lemma KeysConcat(a: seq<Entry>, b: seq<Entry>)
    ensures Keys(a + b) == Keys(a) + Keys(b)
  {
    forall k | k in Keys(a) + Keys(b) ensures k in Keys(a + b) {
      if k in Keys(a) {
        var e :| e in a && e.key == k;
        assert e in a + b;
      } else {
        var e :| e in b && e.key == k;
        assert e in a + b;
      }
    }
  }

  /** The last sighting of `key` is number `i` of the history. */
  predicate LastSighting(history: seq<Entry>, key: string, i: int) {
    0 <= i < |history| && history[i].key == key && forall j :: i < j < |history| ==> history[j].key != key
  }

  /** At place `p` of the order stands sighting `i`, the last of its key, and behind it all keys since. */
  ghost predicate StandsAt(history: seq<Entry>, key: string, r: seq<Entry>, p: nat, i: int) {
    LastSighting(history, key, i) && p < |r| && r[p] == history[i] && Keys(r[p + 1..]) == Keys(history[i + 1..])
  }

  lemma StandsLast(g: seq<Entry>, e: Entry, r: seq<Entry>)
    requires r != [] && r[|r| - 1] == e
    ensures StandsAt(g + [e], e.key, r, |r| - 1, |g|)
  {
    assert (g + [e])[|g| + 1..] == [] && r[|r| - 1 + 1..] == [];
  }

  lemma StillStands(g: seq<Entry>, e: Entry, key: string, r: seq<Entry>, p: nat, i: int, r': seq<Entry>, p': nat)
    requires StandsAt(g, key, r, p, i) && e.key != key
    requires p' < |r'| && r'[p'] == r[p] && Keys(r'[p' + 1..]) == Keys(r[p + 1..]) + {e.key}
    ensures StandsAt(g + [e], key, r', p', i)
  {
    hide Keys;
    assert (g + [e])[i + 1..] == g[i + 1..] + [e];
    KeysConcat(g[i + 1..], [e]);
    KeysOfOne(e);
  }

  /** A key's place in the recency order: behind it stand the keys recorded since, each once. */
  lemma {:induction false} RecencyTellsHistory(history: seq<Entry>, key: string)
    ensures var r := Recency(history);
            var p := Find(r, key);
            (p < |r| <==> key in Keys(history)) &&
            (p < |r| ==> exists i :: LastSighting(history, key, i) && r[p] == history[i] &&
                                     Keys(r[p + 1..]) == Keys(history[i + 1..]))
    decreases |history|
  {
    var i := PlaceInOrder(history, key);
  }

  lemma {:induction false} PlaceInOrder(history: seq<Entry>, key: string) returns (i: int)
    ensures var r := Recency(history);
            var p := Find(r, key);
            (p < |r| <==> key in Keys(history)) && (p < |r| ==> StandsAt(history, key, r, p, i))
    decreases |history|
  {
    hide Find, Remove, Keys, StandsAt;
    KeysOfNone();
    i := 0;
    if history != [] {
      var n := |history| - 1;
      var g, e := history[..n], history[n];
      assert history == g + [e];
      KeysConcat(g, [e]);
      KeysOfOne(e);
      i := PlaceInOrder(g, key);
      var r, r' := Recency(g), Recency(history);
      RecencyIsDistinct(g);
      if e.key == key {
        MovedToEnd(r, e);
        StandsLast(g, e, r');
        i := n;
      } else {
        PlaceAfterStep(r, key, e);
        if Find(r, key) < |r| { StillStands(g, e, key, r, Find(r, key), i, r', Find(r', key)); }
      }
    }
  }

  lemma MovedToEnd(r: seq<Entry>, e: Entry)
    requires Distinct(r)
    ensures Find(Remove(r, e.key) + [e], e.key) == |Remove(r, e.key)|
  {
    var i := Find(r, e.key);
    assert Find([e], e.key) == 0;
    FindConcat(Remove(r, e.key), [e], e.key);
    if i < |r| {
      assert forall j :: 0 <= j < |r| && j != i ==> r[j].key != e.key;
    }
  }

  lemma PlaceAfterStep(r: seq<Entry>, key: string, e: Entry)
    requires Distinct(r) && e.key != key
    ensures var r', p := Remove(r, e.key) + [e], Find(r, key);
            var p' := Find(r', key);
            (p < |r| <==> p' < |r'|) &&
            (p < |r| ==> r'[p'] == r[p] && Keys(r'[p' + 1..]) == Keys(r[p + 1..]) + {e.key})
  {
    hide Find, Remove, Keys;
    var p := Find(r, key);
    if p < |r| {
      var a, b := r[..p], r[p + 1..];
      assert r == a + ([r[p]] + b);
      assert forall j :: 0 <= j < |a| ==> a[j].key != key;
      PlaceOf(a, r[p], b, e);
    } else {
      RemoveKeepsAbsence(r, e.key, key);
      FindConcat(Remove(r, e.key), [e], key);
      FindNone(e, key);
    }
  }

  lemma PlaceOf(a: seq<Entry>, x: Entry, b: seq<Entry>, e: Entry)
    requires Distinct(a + ([x] + b)) && e.key != x.key
    requires forall j :: 0 <= j < |a| ==> a[j].key != x.key
    ensures var r' := Remove(a + ([x] + b), e.key) + [e];
            var p' := Find(r', x.key);
            p' < |r'| && r'[p'] == x && Keys(r'[p' + 1..]) == Keys(b) + {e.key}
  {
    hide Find, Remove, Keys;
    DistinctParts(a, [x] + b, e.key);
    DistinctParts([x], b, e.key);
    RemoveConcat(a, [x] + b, e.key);
    RemoveConcat([x], b, e.key);
    RemoveOther(x, e.key);
    var a', b' := Remove(a, e.key), Remove(b, e.key) + [e];
    var r' := Remove(a + ([x] + b), e.key) + [e];
    assert r' == a' + ([x] + b');
    RemoveKeepsAbsence(a, e.key, x.key);
    FindConcat(a', [x] + b', x.key);
    FindFirst(x, b');
    assert r'[|a'| + 1..] == b';
    KeysOfRemove(b, e.key);
    KeysConcat(Remove(b, e.key), [e]);
    KeysOfOne(e);
  }

  lemma KeysOfNone()
    ensures Keys([]) == {}
  {
  }

  lemma KeysOfOne(e: Entry)
    ensures Keys([e]) == {e.key}
  {
    assert e in [e];
  }

  lemma RemoveOther(x: Entry, key: string)
    requires x.key != key
    ensures Remove([x], key) == [x]
  {
  }

  lemma FindFirst(x: Entry, b: seq<Entry>)
    ensures Find([x] + b, x.key) == 0
  {
  }

  lemma FindNone(e: Entry, key: string)
    requires e.key != key
    ensures Find([e], key) == 1
  {
  }

  lemma RemoveKeepsAbsence(a: seq<Entry>, gone: string, key: string)
    requires forall j :: 0 <= j < |a| ==> a[j].key != key
    ensures Find(Remove(a, gone), key) == |Remove(a, gone)|
  {
  }

  /** An entry is kept while fewer than `max` stand behind it in the order. */
  lemma AnswerTellsRecency(history: seq<Entry>, max: nat, ttl: real, key: string, now: real)
    ensures var r := Recency(history);
            var p := Find(r, key);
            Answer(history, max, ttl, key, now) <==> p < |r| && now - r[p].at <= ttl && |r| - p - 1 < max
  {
    hide Find, Recency;
    var r := Recency(history);
    var kept := Suffix(r, max);
    var c := r[..|r| - |kept|];
    assert r == c + kept;
    RecencyIsDistinct(history);
    DistinctParts(c, kept, key);
    FindConcat(c, kept, key);
    var p := Find(r, key);
    assert p >= |c| && p < |r| ==> kept[p - |c|] == r[p];
  }

  /**
    * A sighting is a repeat exactly when the key was recorded before, its last recording is within
    * the TTL, and fewer than `max` distinct other keys were recorded since.
    */
  lemma AnswerTellsHistory(history: seq<Entry>, max: nat, ttl: real, key: string, now: real)
    requires max >= 1
    ensures Answer(history, max, ttl, key, now) <==>
            exists i :: LastSighting(history, key, i) && now - history[i].at <= ttl && |Keys(history[i + 1..])| < max
  {
    hide Find, Recency, Keys, Answer, Distinct;
    var r := Recency(history);
    var p := Find(r, key);
    AnswerTellsRecency(history, max, ttl, key, now);
    RecencyIsDistinct(history);
    RecencyTellsHistory(history, key);
    if p < |r| {
      var i :| LastSighting(history, key, i) && r[p] == history[i] && Keys(r[p + 1..]) == Keys(history[i + 1..]);
      SuffixIsDistinct(r, p + 1);
      KeysOfDistinct(r[p + 1..]);
      assert forall k :: LastSighting(history, key, k) ==> k == i;
    } else {
      forall i ensures !LastSighting(history, key, i) {
        if 0 <= i < |history| && history[i].key == key { KeyOfMember(history, i); }
      }
    }
  }

  lemma SuffixIsDistinct(entries: seq<Entry>, n: nat)
    requires Distinct(entries) && n <= |entries|
    ensures Distinct(entries[n..])
  {
  }

  lemma KeyOfMember(entries: seq<Entry>, i: nat)
    requires i < |entries|
    ensures entries[i].key in Keys(entries)
  {
    assert entries[i] in entries;
  }

  /** A larger set repeats every yes of a smaller one. */
  lemma LargerCapRemembersMore(history: seq<Entry>, max: nat, more: nat, ttl: real, key: string, now: real)
    requires 1 <= max <= more && Answer(history, max, ttl, key, now)
    ensures Answer(history, more, ttl, key, now)
  {
    AnswerTellsHistory(history, max, ttl, key, now);
    AnswerTellsHistory(history, more, ttl, key, now);
  }

  // ----- Tenants do not see each other's sightings ---------------------------

  /** A sighting as it was reported. */
  datatype Sighting = Sighting(tenant: string, digest: string, at: real)

  /** The sightings as the set records them. */
  function Recorded(sightings: seq<Sighting>): (history: seq<Entry>)
    ensures |history| == |sightings|
    ensures forall i :: 0 <= i < |sightings| ==>
              history[i] == Entry(Key(sightings[i].tenant, sightings[i].digest), sightings[i].at)
  {
    seq(|sightings|, i requires 0 <= i < |sightings| =>
      Entry(Key(sightings[i].tenant, sightings[i].digest), sightings[i].at))
  }

  /** The digests sighted, each with its tenant. */
  function Sighted(sightings: seq<Sighting>): set<(string, string)> {
    set s <- sightings :: (s.tenant, s.digest)
  }

  /** Sighting `i` is the last of this digest for this tenant. */
  predicate LastOf(sightings: seq<Sighting>, tenant: string, digest: string, i: int) {
    0 <= i < |sightings| && sightings[i].tenant == tenant && sightings[i].digest == digest &&
    forall j :: i < j < |sightings| ==> sightings[j].tenant != tenant || sightings[j].digest != digest
  }

  lemma {:induction false} ImageSize<A, B>(f: A -> B, s: set<A>, image: set<B>)
    requires forall x, y :: x in s && y in s && f(x) == f(y) ==> x == y
    requires image == set x <- s :: f(x)
    ensures |image| == |s|
    decreases s
  {
    if s != {} {
      var x :| x in s;
      ImageSize(f, s - {x}, image - {f(x)});
    }
  }

  lemma KeysOfRecorded(sightings: seq<Sighting>, n: nat)
    requires n <= |sightings| && forall s <- sightings :: NUL !in s.digest
    ensures |Keys(Recorded(sightings)[n..])| == |Sighted(sightings[n..])|
  {
    hide Tagged;
    var later, history := sightings[n..], Recorded(sightings)[n..];
    var f := (p: (string, string)) => Tagged(p.0, p.1);
    forall p, q | p in Sighted(later) && q in Sighted(later) && f(p) == f(q) ensures p == q {
      TaggedIsInjective(p.0, p.1, q.0, q.1);
    }
    forall i | 0 <= i < |later| ensures history[i].key == f((later[i].tenant, later[i].digest)) {
    }
    forall k ensures k in Keys(history) <==> k in set p <- Sighted(later) :: f(p) {
      if k in Keys(history) {
        var i :| 0 <= i < |history| && history[i].key == k;
        assert (later[i].tenant, later[i].digest) in Sighted(later);
      }
      if p :| p in Sighted(later) && f(p) == k {
        var i :| 0 <= i < |later| && (later[i].tenant, later[i].digest) == p;
        assert history[i].key == k;
      }
    }
    ImageSize(f, Sighted(later), Keys(history));
  }

  /**
    * A digest is reported as seen exactly when the same tenant sighted it within the TTL and fewer
    * than the cap have been sighted since; digests are hexadecimal and so free of NULs.
    */
  lemma AnswerTellsSightings(sightings: seq<Sighting>, max: nat, ttl: real, tenant: string, digest: string, now: real)
    requires max >= 1 && NUL !in digest && forall s <- sightings :: NUL !in s.digest
    ensures Answer(Recorded(sightings), max, ttl, Key(tenant, digest), now) <==>
            exists i :: LastOf(sightings, tenant, digest, i) && now - sightings[i].at <= ttl &&
                        |Sighted(sightings[i + 1..])| < max
  {
    hide Answer, Keys, Tagged, Sighted;
    var history, key := Recorded(sightings), Key(tenant, digest);
    AnswerTellsHistory(history, max, ttl, key, now);
    forall i | 0 <= i < |sightings|
      ensures history[i].key == key <==> sightings[i].tenant == tenant && sightings[i].digest == digest
    {
      TaggedIsInjective(sightings[i].tenant, sightings[i].digest, tenant, digest);
    }
    forall i ensures LastSighting(history, key, i) <==> LastOf(sightings, tenant, digest, i) {
    }
    forall i | LastOf(sightings, tenant, digest, i) ensures |Keys(history[i + 1..])| == |Sighted(sightings[i + 1..])| {
      KeysOfRecorded(sightings, i + 1);
    }
  }
}
