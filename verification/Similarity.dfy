/**
  * The near-duplicate index (`parcus.cache.similarity`) and its durable snapshot
  * (`parcus.cache.similarity_store`). Embedding and cosine are arbitrary functions.
  */
module Similarity {
  import opened Requests

  /** An indexed request: its embedding, its cache key, and the guards a hit must match. */
  datatype Entry<+V, +K> = Entry(vector: V, key: K, model: Json, tenant: string)

  predicate Guards<V, K>(e: Entry<V, K>, model: Json, tenant: string) {
    e.model == model && e.tenant == tenant
  }

  /** Entry `i` may answer: same model and tenant, similar enough. */
  predicate Candidate<V, K>(entries: seq<Entry<V, K>>, cosine: (V, V) -> real, threshold: real,
                            vector: V, model: Json, tenant: string, i: int) {
    0 <= i < |entries| && Guards(entries[i], model, tenant) && cosine(vector, entries[i].vector) >= threshold
  }

  /** No candidate is more similar, and none as similar is more recent. */
  ghost predicate IsBest<V, K>(entries: seq<Entry<V, K>>, cosine: (V, V) -> real, threshold: real,
                         vector: V, model: Json, tenant: string, i: int) {
    Candidate(entries, cosine, threshold, vector, model, tenant, i) &&
    forall j :: Candidate(entries, cosine, threshold, vector, model, tenant, j) ==>
      cosine(vector, entries[j].vector) < cosine(vector, entries[i].vector) ||
      (cosine(vector, entries[j].vector) == cosine(vector, entries[i].vector) && j <= i)
  }

  /** The answer the loop computes over the first `n` entries: the best index so far. */
  function BestUpTo<V, K>(entries: seq<Entry<V, K>>, cosine: (V, V) -> real, threshold: real,
                          vector: V, model: Json, tenant: string, n: nat): (best: Option<nat>)
    requires n <= |entries|
    ensures best.Some? ==> IsBest(entries[..n], cosine, threshold, vector, model, tenant, best.value)
    ensures best.None? ==> forall i :: !Candidate(entries[..n], cosine, threshold, vector, model, tenant, i)
  {
    if n == 0 then None
    else
      var before := BestUpTo(entries, cosine, threshold, vector, model, tenant, n - 1);
      var e := entries[n - 1];
      var bar := if before.Some? then cosine(vector, entries[before.value].vector) else threshold;
      assert forall i :: 0 <= i < n - 1 ==> entries[..n][i] == entries[..n - 1][i];
      assert forall i :: i < n - 1 ==>
        Candidate(entries[..n], cosine, threshold, vector, model, tenant, i)
        == Candidate(entries[..n - 1], cosine, threshold, vector, model, tenant, i);
      if Guards(e, model, tenant) && cosine(vector, e.vector) >= bar then Some(n - 1) else before
  }

  function Best<V, K>(entries: seq<Entry<V, K>>, cosine: (V, V) -> real, threshold: real,
                      vector: V, model: Json, tenant: string): (best: Option<nat>)
    ensures best.Some? ==> IsBest(entries, cosine, threshold, vector, model, tenant, best.value)
    ensures best.None? ==> forall i :: !Candidate(entries, cosine, threshold, vector, model, tenant, i)
  {
    assert entries[..|entries|] == entries;
    BestUpTo(entries, cosine, threshold, vector, model, tenant, |entries|)
  }

  /** The most recent `max` items of a list. */
  function Recent<T>(items: seq<T>, max: nat): seq<T> {
    if |items| <= max then items else items[|items| - max..]
  }

  // ----- The durable snapshot ------------------------------------------------

  /** A row of the sidecar table: an entry with its vector encoded, perhaps sealed. */
  datatype Row<+B, +K> = Row(key: K, model: Json, tenant: string, blob: B)

  /**
    * How rows are written and read: `seal` encodes an entry, or withholds a shredded tenant's;
    * `open` decodes a row, or skips one whose key is gone.
    */
  datatype Codec<!V, !K, !B> = Codec(seal: Entry<V, K> -> Option<B>, open: Row<B, K> -> Option<V>)

  function RowEntry<V, K, B>(codec: Codec<V, K, B>, row: Row<B, K>): Option<Entry<V, K>> {
    var vector := codec.open(row);
    if vector.None? then None else Some(Entry(vector.value, row.key, row.model, row.tenant))
  }

  function Readable<V, K, B>(codec: Codec<V, K, B>, rows: seq<Row<B, K>>): seq<Entry<V, K>> {
    if rows == [] then []
    else
      var first := RowEntry(codec, rows[0]);
      (if first.Some? then [first.value] else []) + Readable(codec, rows[1..])
  }

  class SqliteSimilarityStore<V, K, B> {
    const max: nat
    const codec: Codec<V, K, B>
    var rows: seq<Row<B, K>>

    constructor (max: nat, codec: Codec<V, K, B>)
      ensures this.max == max && this.codec == codec && rows == []
    {
      this.max, this.codec := max, codec;
      rows := [];
    }

    /** The most recent rows newest first, the unreadable skipped, then put back in order. */
    method Load() returns (entries: seq<Entry<V, K>>)
      ensures entries == Readable(codec, Recent(rows, max))
    {
      var recent := Recent(rows, max);
      entries := [];
      var i := |recent|;
      assert recent[|recent|..] == [];
      while i > 0
        invariant 0 <= i <= |recent|
        invariant entries == Reverse(Readable(codec, recent[i..]))
      {
        i := i - 1;
        assert recent[i..][0] == recent[i] && recent[i..][1..] == recent[i + 1..];
        assert [] + Readable(codec, recent[i + 1..]) == Readable(codec, recent[i + 1..]);
        var entry := RowEntry(codec, recent[i]);
        if entry.Some? {
          ReverseCons(entry.value, Readable(codec, recent[i + 1..]));
          entries := entries + [entry.value];
        }
      }
      assert recent[0..] == recent;
      ReverseTwice(Readable(codec, recent));
      entries := Reverse(entries);
    }

    /** Insert a row and drop all but the most recent; a withheld entry is not persisted. */
    method Append(entry: Entry<V, K>)
      modifies this
      ensures var blob := codec.seal(entry);
              rows == if blob.None? then old(rows)
                      else Recent(old(rows) + [Row(entry.key, entry.model, entry.tenant, blob.value)], max)
    {
      var blob := codec.seal(entry);
      if blob.None? {
        return;
      }
      rows := rows + [Row(entry.key, entry.model, entry.tenant, blob.value)];
      rows := Recent(rows, max);
    }
  }

  function Reverse<T>(items: seq<T>): seq<T> {
    if items == [] then [] else Reverse(items[1..]) + [items[0]]
  }

  lemma ReverseCons<T>(x: T, items: seq<T>)
    ensures Reverse([x] + items) == Reverse(items) + [x]
  {
    assert ([x] + items)[1..] == items;
  }

  lemma {:induction false} ReverseAppend<T>(items: seq<T>, x: T)
    ensures Reverse(items + [x]) == [x] + Reverse(items)
  {
    if items == [] {
      assert items + [x] == [x];
    } else {
      assert (items + [x])[1..] == items[1..] + [x];
      ReverseAppend(items[1..], x);
    }
  }

  lemma {:induction false} ReverseTwice<T>(items: seq<T>)
    ensures Reverse(Reverse(items)) == items
  {
    if items != [] {
      ReverseTwice(items[1..]);
      ReverseAppend(Reverse(items[1..]), items[0]);
    }
  }

  // ----- The index -----------------------------------------------------------

  class SimilarityCache<V, K, B> {
    const embed: string -> V
    const cosine: (V, V) -> real
    const threshold: real
    const max: nat
    const store: SqliteSimilarityStore?<V, K, B>
    var entries: seq<Entry<V, K>>

    ghost predicate Valid()
      reads this
    {
      max >= 1 && |entries| <= max && (store != null ==> store.max == max)
    }

    /** A restart would load exactly what is in memory, from rows that all can be read. */
    ghost predicate Snapshot()
      reads this, store
    {
      store != null ==> Openable(store.codec, store.rows) && entries == Readable(store.codec, Recent(store.rows, max))
    }

    /** Warm start from the store, bounded by the cap. */
    constructor (embed: string -> V, cosine: (V, V) -> real, threshold: real, max: nat, store: SqliteSimilarityStore?<V, K, B>)
      requires max >= 1 && (store != null ==> store.max == max)
      ensures Valid() && this.store == store && this.max == max && this.threshold == threshold
      ensures this.embed == embed && this.cosine == cosine
      ensures store == null ==> entries == []
      ensures store != null ==> entries == Readable(store.codec, Recent(store.rows, max))
    {
      this.embed, this.cosine, this.threshold, this.max, this.store := embed, cosine, threshold, max, store;
      entries := [];
      if store != null {
        var loaded := store.Load();
        ReadableShrinks(store.codec, Recent(store.rows, max));
        entries := Recent(loaded, max);
      }
    }

    /** The key of the best near-duplicate of the same model and tenant. */
    method Lookup(text: string, model: Json, tenant: string) returns (key: Option<K>)
      requires Valid()
      ensures key == BestKey(entries, cosine, threshold, embed(text), model, tenant)
    {
      var vector := embed(text);
      key := None;
      var bestSim := threshold;
      ghost var best := BestUpTo(entries, cosine, threshold, vector, model, tenant, 0);
      for n := 0 to |entries|
        invariant best == BestUpTo(entries, cosine, threshold, vector, model, tenant, n)
        invariant best.Some? ==> best.value < n
        invariant bestSim == if best.Some? then cosine(vector, entries[best.value].vector) else threshold
        invariant key == if best.Some? then Some(entries[best.value].key) else None
      {
        var entry := entries[n];
        best := BestUpTo(entries, cosine, threshold, vector, model, tenant, n + 1);
        if entry.model != model || entry.tenant != tenant {
          continue;
        }
        var sim := cosine(vector, entry.vector);
        if sim >= bestSim {
          bestSim := sim;
          key := Some(entry.key);
        }
      }
    }

    /** Index a request, first in first out, and write it through to the store. */
    method Remember(text: string, key: K, model: Json, tenant: string)
      requires Valid()
      modifies this`entries, store
      ensures var e := Entry(embed(text), key, model, tenant);
              Valid() && entries == Recent(old(entries) + [e], max) &&
              (store != null && old(Snapshot()) && Persists(store.codec, e) ==> Snapshot())
    {
      var entry := Entry(embed(text), key, model, tenant);
      entries := entries + [entry];
      if |entries| > max {
        entries := entries[1..];
      }
      assert entries == Recent(old(entries) + [entry], max);
      if store != null {
        ghost var rows := store.rows;
        store.Append(entry);
        if old(Snapshot()) && Persists(store.codec, entry) {
          AppendKeepsSnapshot(store.codec, rows, entry, max);
        }
      }
    }
  }

  /** What a lookup over given entries answers. */
  function BestKey<V, K>(entries: seq<Entry<V, K>>, cosine: (V, V) -> real, threshold: real,
                         vector: V, model: Json, tenant: string): (key: Option<K>)
    ensures key.None? <==> forall i :: !Candidate(entries, cosine, threshold, vector, model, tenant, i)
    ensures key.Some? ==> exists i :: IsBest(entries, cosine, threshold, vector, model, tenant, i) && entries[i].key == key.value
  {
    var best := Best(entries, cosine, threshold, vector, model, tenant);
    if best.None? then None
    else
      assert Candidate(entries, cosine, threshold, vector, model, tenant, best.value);
      Some(entries[best.value].key)
  }

  // ----- A restart changes nothing -------------------------------------------

  predicate Openable<V, K, B>(codec: Codec<V, K, B>, rows: seq<Row<B, K>>) {
    forall i :: 0 <= i < |rows| ==> codec.open(rows[i]).Some?
  }

  function Encoded<V, K, B>(e: Entry<V, K>, blob: B): Row<B, K> {
    Row(e.key, e.model, e.tenant, blob)
  }

  /** The entry is written, and reads back as itself. */
  ghost predicate Persists<V, K, B>(codec: Codec<V, K, B>, e: Entry<V, K>) {
    var blob := codec.seal(e);
    blob.Some? && RowEntry(codec, Encoded(e, blob.value)) == Some(e)
  }

  lemma {:induction false} ReadableShrinks<V, K, B>(codec: Codec<V, K, B>, rows: seq<Row<B, K>>)
    ensures |Readable(codec, rows)| <= |rows|
    ensures Openable(codec, rows) ==> |Readable(codec, rows)| == |rows|
  {
    if rows != [] { ReadableShrinks(codec, rows[1..]); }
  }

  lemma {:induction false} ReadableAppend<V, K, B>(codec: Codec<V, K, B>, rows: seq<Row<B, K>>, row: Row<B, K>)
    ensures Readable(codec, rows + [row]) ==
            Readable(codec, rows) + (if RowEntry(codec, row).Some? then [RowEntry(codec, row).value] else [])
  {
    if rows == [] {
      assert rows + [row] == [row];
    } else {
      assert (rows + [row])[1..] == rows[1..] + [row];
      ReadableAppend(codec, rows[1..], row);
    }
  }

  lemma {:induction false} ReadableRecent<V, K, B>(codec: Codec<V, K, B>, rows: seq<Row<B, K>>, max: nat)
    requires Openable(codec, rows)
    ensures Readable(codec, Recent(rows, max)) == Recent(Readable(codec, rows), max)
  {
    ReadableShrinks(codec, rows);
    if |rows| > max {
      assert rows[1..][|rows| - 1 - max..] == rows[|rows| - max..];
      ReadableShrinks(codec, rows[1..]);
      ReadableRecent(codec, rows[1..], max);
    }
  }

  /** Writing an entry through keeps the store's reading equal to the index. */
  lemma AppendKeepsSnapshot<V, K, B>(codec: Codec<V, K, B>, rows: seq<Row<B, K>>, e: Entry<V, K>, max: nat)
    requires max >= 1 && Openable(codec, rows) && Persists(codec, e)
    ensures var rows' := Recent(rows + [Encoded(e, codec.seal(e).value)], max);
            Openable(codec, rows') &&
            Readable(codec, Recent(rows', max)) == Recent(Readable(codec, Recent(rows, max)) + [e], max)
  {
    var row := Encoded(e, codec.seal(e).value);
    ReadableAppend(codec, rows, row);
    assert Openable(codec, rows + [row]);
    ReadableRecent(codec, rows + [row], max);
    ReadableRecent(codec, rows, max);
    var all := Readable(codec, rows);
    RecentAppend(all, e, max);
  }

  lemma RecentAppend<T>(items: seq<T>, x: T, max: nat)
    requires max >= 1
    ensures Recent(Recent(items, max) + [x], max) == Recent(items + [x], max)
  {
  }

  function RememberAll<V, K>(entries: seq<Entry<V, K>>, added: seq<Entry<V, K>>, max: nat): seq<Entry<V, K>>
    decreases |added|
  {
    if added == [] then entries else RememberAll(Recent(entries + [added[0]], max), added[1..], max)
  }

  function AppendAll<V, K, B>(codec: Codec<V, K, B>, rows: seq<Row<B, K>>, added: seq<Entry<V, K>>, max: nat): seq<Row<B, K>>
    requires forall i :: 0 <= i < |added| ==> Persists(codec, added[i])
    decreases |added|
  {
    if added == [] then rows
    else
      assert Persists(codec, added[0]);
      AppendAll(codec, Recent(rows + [Encoded(added[0], codec.seal(added[0]).value)], max), added[1..], max)
  }

  /**
    * After any sequence of remembered requests, started from a store whose rows can all be read,
    * loading the store gives the entries in memory, so a restart changes no lookup.
    */
  lemma {:induction false} RestartChangesNoLookup<V, K, B>(codec: Codec<V, K, B>, rows: seq<Row<B, K>>, added: seq<Entry<V, K>>,
                                                          max: nat, cosine: (V, V) -> real, threshold: real,
                                                          vector: V, model: Json, tenant: string)
    requires max >= 1 && Openable(codec, rows)
    requires forall i :: 0 <= i < |added| ==> Persists(codec, added[i])
    ensures var memory := RememberAll(Readable(codec, Recent(rows, max)), added, max);
            var loaded := Readable(codec, Recent(AppendAll(codec, rows, added, max), max));
            loaded == memory &&
            BestKey(loaded, cosine, threshold, vector, model, tenant) == BestKey(memory, cosine, threshold, vector, model, tenant)
    decreases |added|
  {
    if added != [] {
      AppendKeepsSnapshot(codec, rows, added[0], max);
      var rows' := Recent(rows + [Encoded(added[0], codec.seal(added[0]).value)], max);
      RestartChangesNoLookup(codec, rows', added[1..], max, cosine, threshold, vector, model, tenant);
    }
  }
}
