/** The lazily expiring response table (`parcus.cache.sqlite_cache`). */
module ResponseCache {
  import opened Requests

  /** A stored provider answer; the body is plain bytes, or a sealed blob. */
  datatype Response<+B> = Response(status: int, body: B, contentType: Option<string>)

  datatype Row<+B> = Row(value: Response<B>, createdAt: real, expiresAt: real)

  /** What `get` answers. */
  function Lookup<K, B>(table: map<K, Row<B>>, key: K, now: real): Option<Response<B>> {
    if key !in table || table[key].expiresAt <= now then None else Some(table[key].value)
  }

  /** The table after `get`, which deletes the row it finds expired. */
  function AfterGet<K, B>(table: map<K, Row<B>>, key: K, now: real): map<K, Row<B>> {
    if key in table && table[key].expiresAt <= now then table - {key} else table
  }

  /** The table after `put`, a no-op unless the time to live is positive. */
  function AfterPut<K, B>(table: map<K, Row<B>>, key: K, value: Response<B>, ttl: int, now: real): map<K, Row<B>> {
    if ttl <= 0 then table else table[key := Row(value, now, now + ttl as real)]
  }

  class SqliteCache<K(==), B> {
    var responses: map<K, Row<B>>
    ghost var history: seq<Op<K, B>>

    ghost predicate Valid()
      reads this
    {
      responses == Table(history)
    }

    constructor ()
      ensures Valid() && history == [] && responses == map[]
    {
      responses := map[];
      history := [];
    }

    method Get(key: K, now: real) returns (hit: Option<Response<B>>)
      requires Valid()
      modifies this
      ensures Valid() && history == old(history) + [Op.Get(key, now)]
      ensures responses == AfterGet(old(responses), key, now)
      ensures hit == Lookup(old(responses), key, now)
    {
      history := history + [Op.Get(key, now)];
      assert history[..|history| - 1] == old(history);
      if key !in responses {
        return None;
      }
      var row := responses[key];
      if row.expiresAt <= now {
        responses := responses - {key};
        return None;
      }
      return Some(row.value);
    }

    method Put(key: K, value: Response<B>, ttl: int, now: real)
      requires Valid()
      modifies this
      ensures Valid() && history == old(history) + [Op.Put(key, value, ttl, now)]
      ensures responses == AfterPut(old(responses), key, value, ttl, now)
    {
      history := history + [Op.Put(key, value, ttl, now)];
      assert history[..|history| - 1] == old(history);
      if ttl <= 0 {
        return;
      }
      responses := responses[key := Row(value, now, now + ttl as real)];
    }
  }

  /** A live row is answered and stays; an expired one is not and goes; no other row is touched. */
  lemma GetDropsTheExpired<K, B>(table: map<K, Row<B>>, key: K, now: real)
    ensures Lookup(table, key, now) == if key in table && now < table[key].expiresAt then Some(table[key].value) else None
    ensures AfterGet(table, key, now) == map k | k in table && (k != key || now < table[k].expiresAt) :: table[k]
  {
  }

  // ----- Whole runs ----------------------------------------------------------

  datatype Op<K, +B> = Get(key: K, at: real) | Put(key: K, value: Response<B>, ttl: int, at: real)

  function Table<K, B>(ops: seq<Op<K, B>>): map<K, Row<B>> {
    if ops == [] then map[]
    else
      var before, op := Table(ops[..|ops| - 1]), ops[|ops| - 1];
      match op
      case Get(key, at) => AfterGet(before, key, at)
      case Put(key, value, ttl, at) => AfterPut(before, key, value, ttl, at)
  }

  /** The clock never steps back, and reads `now` after the run. */
  predicate Monotone<K, B>(ops: seq<Op<K, B>>, now: real) {
    (forall i :: 0 <= i < |ops| ==> ops[i].at <= now) &&
    forall i, j :: 0 <= i < j < |ops| ==> ops[i].at <= ops[j].at
  }

  /** Op `i` is the latest put of `key` that stored anything. */
  predicate IsLatestPut<K(==), B>(ops: seq<Op<K, B>>, key: K, i: int) {
    0 <= i < |ops| && Stores(ops[i], key) && forall j :: i < j < |ops| ==> !Stores(ops[j], key)
  }

  predicate Stores<K(==), B>(op: Op<K, B>, key: K) {
    op.Put? && op.key == key && op.ttl > 0
  }

  /** A key is in the table under its latest put, or its latest put has expired. */
  lemma {:induction false} TableHoldsLatest<K, B>(ops: seq<Op<K, B>>, key: K, now: real)
    requires Monotone(ops, now)
    ensures key in Table(ops) ==>
              exists i :: IsLatestPut(ops, key, i) &&
                          Table(ops)[key] == Row(ops[i].value, ops[i].at, ops[i].at + ops[i].ttl as real)
    ensures key !in Table(ops) ==>
              forall i :: IsLatestPut(ops, key, i) ==> ops[i].at + ops[i].ttl as real <= now
  {
    if ops != [] {
      var n := |ops| - 1;
      var before, op := ops[..n], ops[n];
      TableHoldsLatest(before, key, op.at);
      if Stores(op, key) {
        assert IsLatestPut(ops, key, n);
      } else {
        forall i ensures IsLatestPut(ops, key, i) <==> IsLatestPut(before, key, i) {
        }
      }
    }
  }

  /**
    * In every run with a monotone clock `get` returns the value of the latest put with a positive
    * time to live, exactly while that time has not passed.
    */
  lemma GetReturnsLatestPut<K, B>(ops: seq<Op<K, B>>, key: K, now: real)
    requires Monotone(ops, now)
    ensures Lookup(Table(ops), key, now).Some? <==>
            exists i :: IsLatestPut(ops, key, i) && now < ops[i].at + ops[i].ttl as real
    ensures forall i :: IsLatestPut(ops, key, i) && now < ops[i].at + ops[i].ttl as real ==>
              Lookup(Table(ops), key, now) == Some(ops[i].value)
  {
    TableHoldsLatest(ops, key, now);
  }

  /** A put without a time to live leaves the older row to be served. */
  lemma OldRowOutlivesEmptyPut<B>(older: Response<B>, newer: Response<B>)
    ensures Lookup(Table([Op.Put("key", older, 60, 0.0), Op.Put("key", newer, 0, 1.0)]), "key", 2.0) == Some(older)
  {
    var first, both := [Op.Put("key", older, 60, 0.0)], [Op.Put("key", older, 60, 0.0), Op.Put("key", newer, 0, 1.0)];
    assert both[..1] == first && first[..0] == [];
    assert Table(first) == map["key" := Row(older, 0.0, 60.0)];
  }
}
