/** The per-key token bucket (`parcus.quota`), as one check and as a whole run. */
module Quota {

  /** Burst size and refill rate. */
  datatype RateLimit = RateLimit(capacity: real, refill: real)

  datatype Decision = Decision(allowed: bool, retryAfter: real)

  datatype Bucket = Bucket(tokens: real, updated: real)

  /** `RateLimit.per_minute`. */
  function PerMinute(rate: real, burst: real): RateLimit {
    RateLimit(if burst > 0.0 then burst else rate, rate / 60.0)
  }

  function Min(a: real, b: real): real {
    if a <= b then a else b
  }

  /** What `elapsed` seconds refill. */
  function Accrued(limit: RateLimit, elapsed: real): real {
    elapsed * limit.refill
  }

  /** The bucket as a check at `now` finds it: made full if new, else refilled up to capacity. */
  function Refilled(limit: RateLimit, buckets: map<string, Bucket>, key: string, now: real): Bucket {
    var b := if key in buckets then buckets[key] else Bucket(limit.capacity, now);
    var elapsed := if now - b.updated > 0.0 then now - b.updated else 0.0;
    Bucket(Min(limit.capacity, b.tokens + Accrued(limit, elapsed)), now)
  }

  function Decide(limit: RateLimit, b: Bucket): Decision {
    if b.tokens >= 1.0 then Decision(true, 0.0)
    else Decision(false, if limit.refill > 0.0 then (1.0 - b.tokens) / limit.refill else 0.0)
  }

  function AfterCheck(limit: RateLimit, buckets: map<string, Bucket>, key: string, now: real): map<string, Bucket> {
    var b := Refilled(limit, buckets, key, now);
    buckets[key := if b.tokens >= 1.0 then b.(tokens := b.tokens - 1.0) else b]
  }

  class RateLimiter {
    const limit: RateLimit
    var buckets: map<string, Bucket>
    /** Every check so far. */
    ghost var history: seq<Call>

    ghost predicate Valid()
      reads this
    {
      buckets == Run(limit, history)
    }

    constructor (limit: RateLimit)
      ensures Valid() && this.limit == limit && history == [] && buckets == map[]
    {
      this.limit := limit;
      buckets := map[];
      history := [];
    }

    /** Consume one token for `key` at the time read from the clock, or deny with a hint. */
    method Check(key: string, now: real) returns (decision: Decision)
      requires Valid()
      modifies this
      ensures Valid() && history == old(history) + [Call(key, now)]
      ensures buckets == AfterCheck(limit, old(buckets), key, now)
      ensures decision == DecisionAt(limit, history, |old(history)|)
    {
      hide Accrued, Min, Run;
      ghost var n := |history|;
      history := history + [Call(key, now)];
      assert history[..n] == old(history) && history[..n + 1] == history;
      RunStep(limit, history, n);
      var bucket: Bucket;
      if key in buckets {
        bucket := buckets[key];
      } else {
        bucket := Bucket(limit.capacity, now);
        buckets := buckets[key := bucket];
      }
      var elapsed := now - bucket.updated;
      if elapsed < 0.0 { elapsed := 0.0; }
      bucket := Bucket(Min(limit.capacity, bucket.tokens + Accrued(limit, elapsed)), now);
      buckets := buckets[key := bucket];
      if bucket.tokens >= 1.0 {
        buckets := buckets[key := bucket.(tokens := bucket.tokens - 1.0)];
        return Decision(true, 0.0);
      }
      var deficit := 1.0 - bucket.tokens;
      return Decision(false, if limit.refill > 0.0 then deficit / limit.refill else 0.0);
    }
  }

  // ----- Runs ----------------------------------------------------------------

  /** One check: whose, and when. */
  datatype Call = Call(key: string, at: real)

  /** The buckets after a run of checks. */
  function Run(limit: RateLimit, run: seq<Call>): map<string, Bucket> {
    if run == [] then map[]
    else
      var n := |run| - 1;
      AfterCheck(limit, Run(limit, run[..n]), run[n].key, run[n].at)
  }

  /** What check `j` of a run is told. */
  function DecisionAt(limit: RateLimit, run: seq<Call>, j: nat): Decision
    requires j < |run|
  {
    Decide(limit, Refilled(limit, Run(limit, run[..j]), run[j].key, run[j].at))
  }

  predicate Allowed(limit: RateLimit, run: seq<Call>, j: nat)
    requires j < |run|
  {
    DecisionAt(limit, run, j).allowed
  }

  /** The clock never steps back. */
  predicate Monotone(run: seq<Call>) {
    forall i, j :: 0 <= i < j < |run| ==> run[i].at <= run[j].at
  }

  /** How many checks of `key` from `i` up to, not including, `n` are admitted. */
  function Admitted(limit: RateLimit, run: seq<Call>, key: string, i: nat, n: nat): nat
    requires i <= n <= |run|
  {
    if i == n then 0
    else Admitted(limit, run, key, i, n - 1) + (if run[n - 1].key == key && Allowed(limit, run, n - 1) then 1 else 0)
  }

  /** What a window opened by check `i` still lets through at time `at`, after checks up to `n`. */
  function Room(limit: RateLimit, run: seq<Call>, key: string, i: nat, n: nat, at: real): real
    requires i <= n <= |run| && i < |run|
  {
    limit.capacity + Accrued(limit, at - run[i].at) - Admitted(limit, run, key, i, n) as real
  }

  /**
    * `tokens` is the least room, at time `at`, of the windows opened by the first `windows` checks
    * of the run, with the admissions among the first `n` checks counted.
    */
  ghost predicate IsLeastRoom(limit: RateLimit, run: seq<Call>, key: string, windows: nat, n: nat, tokens: real, at: real)
    requires windows <= |run| && n <= |run| && windows <= n + 1
  {
    (forall i :: 0 <= i < windows && i <= n && run[i].key == key ==> tokens <= Room(limit, run, key, i, n, at)) &&
    (exists i :: 0 <= i < windows && i <= n && run[i].key == key && tokens == Room(limit, run, key, i, n, at))
  }

  lemma RoomLater(limit: RateLimit, run: seq<Call>, key: string, i: nat, n: nat, at: real, later: real)
    requires i <= n <= |run| && i < |run|
    ensures Room(limit, run, key, i, n, later) == Room(limit, run, key, i, n, at) + Accrued(limit, later - at)
  {
    var r, a, b := limit.refill, at - run[i].at, later - at;
    assert (a + b) * r == a * r + b * r;
  }

  lemma NothingAccrued(limit: RateLimit)
    ensures Accrued(limit, 0.0) == 0.0
  {
  }

  predicate Asked(run: seq<Call>, key: string, n: nat)
    requires n <= |run|
  {
    exists i :: 0 <= i < n && run[i].key == key
  }

  lemma RunStep(limit: RateLimit, run: seq<Call>, n: nat)
    requires n < |run|
    ensures Run(limit, run[..n + 1]) == AfterCheck(limit, Run(limit, run[..n]), run[n].key, run[n].at)
  {
    hide AfterCheck;
    assert run[..n + 1][..n] == run[..n];
  }

  predicate StampedBy(run: seq<Call>, n: nat, at: real)
    requires n <= |run|
  {
    exists k :: 0 <= k < n && at == run[k].at
  }

  /** `key` has a bucket once it was checked; it holds the least room, as of its own last check. */
  ghost predicate HoldsLeastRoom(limit: RateLimit, run: seq<Call>, key: string, n: nat, buckets: map<string, Bucket>)
    requires n <= |run|
  {
    (key in buckets <==> Asked(run, key, n)) &&
    (key in buckets ==>
      IsLeastRoom(limit, run, key, n, n, buckets[key].tokens, buckets[key].updated) &&
      StampedBy(run, n, buckets[key].updated))
  }

  lemma AskedStep(run: seq<Call>, key: string, n: nat)
    requires n < |run|
    ensures Asked(run, key, n + 1) <==> Asked(run, key, n) || run[n].key == key
    ensures StampedBy(run, n + 1, run[n].at)
    ensures forall at :: StampedBy(run, n, at) ==> StampedBy(run, n + 1, at)
  {
  }

  lemma NoBucketsYet(limit: RateLimit, run: seq<Call>, key: string)
    ensures Run(limit, run[..0]) == map[] && !Asked(run, key, 0)
  {
  }

  /** After `n` checks every bucket holds the least room of the windows its key's checks opened. */
  lemma {:induction false} BucketIsLeastRoom(limit: RateLimit, run: seq<Call>, key: string, n: nat)
    requires Monotone(run) && n <= |run|
    ensures HoldsLeastRoom(limit, run, key, n, Run(limit, run[..n]))
    decreases n, 0
  {
    hide Accrued, Run, Room, Admitted, IsLeastRoom, Min, Asked, StampedBy, Monotone;
    if n == 0 {
      NoBucketsYet(limit, run, key);
    } else {
      RunStep(limit, run, n - 1);
      AskedStep(run, key, n - 1);
      var before, after := Run(limit, run[..n - 1]), Run(limit, run[..n]);
      BucketIsLeastRoom(limit, run, key, n - 1);
      if run[n - 1].key == key {
        CheckFindsLeastRoom(limit, run, n - 1);
        LeastRoomAfterCheck(limit, run, n - 1, after[key].tokens);
      } else if key in before {
        LeastRoomSkipsOthers(limit, run, key, n, before[key].tokens, before[key].updated);
      }
    }
  }

  lemma LeastRoomSkipsOthers(limit: RateLimit, run: seq<Call>, key: string, n: nat, tokens: real, at: real)
    requires 0 < n <= |run| && run[n - 1].key != key
    requires IsLeastRoom(limit, run, key, n - 1, n - 1, tokens, at)
    ensures IsLeastRoom(limit, run, key, n, n, tokens, at)
  {
    hide Accrued;
    forall i | 0 <= i < n - 1 ensures Room(limit, run, key, i, n, at) == Room(limit, run, key, i, n - 1, at) {
    }
    var i :| 0 <= i < n - 1 && run[i].key == key && tokens == Room(limit, run, key, i, n - 1, at);
    assert tokens == Room(limit, run, key, i, n, at);
  }

  lemma LeastRoomAfterCheck(limit: RateLimit, run: seq<Call>, j: nat, tokens: real)
    requires j < |run|
    requires var b := Refilled(limit, Run(limit, run[..j]), run[j].key, run[j].at);
             IsLeastRoom(limit, run, run[j].key, j + 1, j, b.tokens, run[j].at) &&
             tokens == (if b.tokens >= 1.0 then b.tokens - 1.0 else b.tokens)
    ensures IsLeastRoom(limit, run, run[j].key, j + 1, j + 1, tokens, run[j].at)
  {
    hide Accrued, Refilled;
    var key, at := run[j].key, run[j].at;
    var b := Refilled(limit, Run(limit, run[..j]), key, at);
    var spent := if b.tokens >= 1.0 then 1.0 else 0.0;
    forall i | 0 <= i <= j && run[i].key == key
      ensures Room(limit, run, key, i, j + 1, at) == Room(limit, run, key, i, j, at) - spent
    {
    }
    var i :| 0 <= i < j + 1 && i <= j && run[i].key == key && b.tokens == Room(limit, run, key, i, j, at);
    assert tokens == Room(limit, run, key, i, j + 1, at);
  }

  /** A check finds in its bucket the least room of all windows opened so far, its own included. */
  lemma CheckFindsLeastRoom(limit: RateLimit, run: seq<Call>, j: nat)
    requires Monotone(run) && j < |run|
    ensures var b := Refilled(limit, Run(limit, run[..j]), run[j].key, run[j].at);
            IsLeastRoom(limit, run, run[j].key, j + 1, j, b.tokens, run[j].at)
    decreases j, 1
  {
    hide Accrued;
    var key, at, buckets := run[j].key, run[j].at, Run(limit, run[..j]);
    var b := Refilled(limit, buckets, key, at);
    BucketIsLeastRoom(limit, run, key, j);
    assert Room(limit, run, key, j, j, at) == limit.capacity by { NothingAccrued(limit); }
    if key in buckets {
      var was, tokens := buckets[key].updated, buckets[key].tokens;
      var k :| 0 <= k < j && was == run[k].at;
      assert at - was >= 0.0;
      assert b.tokens == Min(limit.capacity, tokens + Accrued(limit, at - was));
      forall i | 0 <= i < j && run[i].key == key
        ensures Room(limit, run, key, i, j, at) == Room(limit, run, key, i, j, was) + Accrued(limit, at - was)
      {
        RoomLater(limit, run, key, i, j, was, at);
      }
      var i :| 0 <= i < j && i <= j && run[i].key == key && tokens == Room(limit, run, key, i, j, was);
      assert b.tokens == Room(limit, run, key, i, j, at) || b.tokens == Room(limit, run, key, j, j, at);
    } else {
      NothingAccrued(limit);
      assert forall i :: 0 <= i < j ==> run[i].key != key;
      assert b.tokens == Room(limit, run, key, j, j, at);
    }
  }

  // ----- The most permissive limiter for its bound ---------------------------

  /** The bound: no window [i, j] holds more admissions than a full bucket and its refill. */
  predicate WindowOpen(limit: RateLimit, run: seq<Call>, i: nat, j: nat)
    requires i <= j < |run|
  {
    Admitted(limit, run, run[j].key, i, j) as real + 1.0 <= limit.capacity + Accrued(limit, run[j].at - run[i].at)
  }

  /** A check is admitted exactly when every window that ends with it has room for one more. */
  lemma AdmittedIffWindowsOpen(limit: RateLimit, run: seq<Call>, j: nat)
    requires Monotone(run) && j < |run|
    ensures Allowed(limit, run, j) <==>
            forall i :: 0 <= i <= j && run[i].key == run[j].key ==> WindowOpen(limit, run, i, j)
  {
    hide Accrued, Refilled;
    CheckFindsLeastRoom(limit, run, j);
    var key, at := run[j].key, run[j].at;
    forall i | 0 <= i <= j && run[i].key == key
      ensures WindowOpen(limit, run, i, j) <==> Room(limit, run, key, i, j, at) >= 1.0
    {
    }
  }

  /** A bucket smaller than one token never admits; otherwise it admits each key's first check. */
  lemma CapacityAtLeastOne(limit: RateLimit, run: seq<Call>, j: nat)
    requires Monotone(run) && j < |run|
    ensures limit.capacity < 1.0 ==> !Allowed(limit, run, j)
    ensures limit.capacity >= 1.0 && !Asked(run, run[j].key, j) ==> Allowed(limit, run, j)
  {
    AdmittedIffWindowsOpen(limit, run, j);
    assert WindowOpen(limit, run, j, j) <==> limit.capacity >= 1.0 by { NothingAccrued(limit); }
  }

  /** A limit of so many per minute admits nobody, ever, exactly when its bucket holds no whole token. */
  lemma PerMinuteAdmitsNobody(rate: real, burst: real)
    ensures (forall run, j: nat :: Monotone(run) && j < |run| ==> !Allowed(PerMinute(rate, burst), run, j))
            <==> if burst > 0.0 then burst < 1.0 else rate < 1.0
  {
    hide Allowed, Asked;
    var limit := PerMinute(rate, burst);
    forall run, j: nat | Monotone(run) && j < |run| && limit.capacity < 1.0 ensures !Allowed(limit, run, j) {
      CapacityAtLeastOne(limit, run, j);
    }
    var first := [Call("", 0.0)];
    NobodyAsked(first, "");
    CapacityAtLeastOne(limit, first, 0);
  }

  lemma NobodyAsked(run: seq<Call>, key: string)
    ensures !Asked(run, key, 0)
  {
  }

  lemma {:induction false} AdmittedSplit(limit: RateLimit, run: seq<Call>, key: string, i: nat, j: nat, n: nat)
    requires i <= j <= n <= |run|
    ensures Admitted(limit, run, key, i, n) == Admitted(limit, run, key, i, j) + Admitted(limit, run, key, j, n)
  {
    if j < n { AdmittedSplit(limit, run, key, i, j, n - 1); }
  }

  lemma AccruedMonotone(limit: RateLimit, a: real, b: real)
    requires limit.refill >= 0.0 && a <= b
    ensures Accrued(limit, a) <= Accrued(limit, b)
  {
  }

  /** Any stretch of checks inside [from, to] admits at most the capacity and the refill of its length. */
  lemma {:induction false} WindowBound(limit: RateLimit, run: seq<Call>, key: string, i: nat, n: nat, from: real, to: real)
    requires Monotone(run) && i <= n <= |run| && from <= to
    requires limit.capacity >= 0.0 && limit.refill >= 0.0
    requires forall k :: i <= k < n ==> from <= run[k].at <= to
    ensures Admitted(limit, run, key, i, n) as real <= limit.capacity + Accrued(limit, to - from)
  {
    hide Accrued, DecisionAt, Allowed;
    if i == n {
      NothingAccrued(limit);
      AccruedMonotone(limit, 0.0, to - from);
    } else if run[n - 1].key == key && Allowed(limit, run, n - 1) {
      var first := i;
      while run[first].key != key
        invariant i <= first <= n - 1
        invariant Admitted(limit, run, key, i, first) == 0
        decreases n - first
      {
        first := first + 1;
      }
      AdmittedSplit(limit, run, key, i, first, n - 1);
      AdmittedIffWindowsOpen(limit, run, n - 1);
      assert WindowOpen(limit, run, first, n - 1);
      AccruedMonotone(limit, run[n - 1].at - run[first].at, to - from);
    } else {
      WindowBound(limit, run, key, i, n - 1, from, to);
    }
  }

  // ----- A limit told in minutes ---------------------------------------------

  /**
    * A limit of `rate` per minute admits a check exactly when each stretch that ends with it keeps
    * within the burst, or without one the rate, and `rate` for every minute of the stretch.
    */
  lemma PerMinuteIsExact(rate: real, burst: real, run: seq<Call>, j: nat)
    requires Monotone(run) && j < |run|
    ensures var limit, key := PerMinute(rate, burst), run[j].key;
            Allowed(limit, run, j) <==>
            forall i :: 0 <= i <= j && run[i].key == key ==>
              Admitted(limit, run, key, i, j) as real + 1.0 <=
              (if burst > 0.0 then burst else rate) + rate * ((run[j].at - run[i].at) / 60.0)
  {
    hide Allowed, Admitted, WindowOpen, PerMinute, Monotone;
    var limit, key := PerMinute(rate, burst), run[j].key;
    AdmittedIffWindowsOpen(limit, run, j);
    forall i | 0 <= i <= j && run[i].key == key
      ensures WindowOpen(limit, run, i, j) <==>
              Admitted(limit, run, key, i, j) as real + 1.0 <=
              (if burst > 0.0 then burst else rate) + rate * ((run[j].at - run[i].at) / 60.0)
    {
      PerMinuteWindow(rate, burst, run, i, j);
    }
  }

  lemma PerMinuteWindow(rate: real, burst: real, run: seq<Call>, i: nat, j: nat)
    requires i <= j < |run|
    ensures WindowOpen(PerMinute(rate, burst), run, i, j) <==>
            Admitted(PerMinute(rate, burst), run, run[j].key, i, j) as real + 1.0 <=
            (if burst > 0.0 then burst else rate) + rate * ((run[j].at - run[i].at) / 60.0)
  {
    hide Admitted, PerMinute, Accrued;
    var elapsed, limit := run[j].at - run[i].at, PerMinute(rate, burst);
    var more := rate * (elapsed / 60.0);
    assert limit.capacity == (if burst > 0.0 then burst else rate) && Accrued(limit, elapsed) == more by {
      PerMinuteTerms(rate, burst, elapsed);
    }
  }

  lemma PerMinuteTerms(rate: real, burst: real, elapsed: real)
    ensures PerMinute(rate, burst).capacity == if burst > 0.0 then burst else rate
    ensures Accrued(PerMinute(rate, burst), elapsed) == rate * (elapsed / 60.0)
    ensures rate >= 0.0 ==> PerMinute(rate, burst).refill >= 0.0
  {
    assert elapsed * (rate / 60.0) == rate * (elapsed / 60.0);
  }

  /** Any stretch of `minutes` admits at most the burst, or without one the rate, and `rate` a minute. */
  lemma PerMinuteBound(rate: real, burst: real, run: seq<Call>, key: string, i: nat, n: nat, from: real, minutes: real)
    requires Monotone(run) && i <= n <= |run| && rate >= 0.0 && minutes >= 0.0
    requires forall k :: i <= k < n ==> from <= run[k].at <= from + 60.0 * minutes
    ensures Admitted(PerMinute(rate, burst), run, key, i, n) as real <=
            (if burst > 0.0 then burst else rate) + rate * minutes
  {
    hide Admitted, PerMinute, Accrued;
    PerMinuteTerms(rate, burst, 60.0 * minutes);
    WindowBound(PerMinute(rate, burst), run, key, i, n, from, from + 60.0 * minutes);
  }

  /** How many checks of `key` there are from `i` up to, not including, `n`. */
  function Checks(run: seq<Call>, key: string, i: nat, n: nat): nat
    requires i <= n <= |run|
  {
    if i == n then 0 else Checks(run, key, i, n - 1) + (if run[n - 1].key == key then 1 else 0)
  }

  lemma {:induction false} ChecksAre(run: seq<Call>, key: string, i: nat, n: nat)
    requires i <= n <= |run|
    ensures Checks(run, key, i, n) == |set m | i <= m < n && run[m].key == key|
  {
    if i < n {
      ChecksAre(run, key, i, n - 1);
      OneMoreCheck(run, key, i, n);
    }
  }

  lemma OneMoreCheck(run: seq<Call>, key: string, i: nat, n: nat)
    requires i < n <= |run|
    ensures |set m | i <= m < n && run[m].key == key| ==
            |set m | i <= m < n - 1 && run[m].key == key| + if run[n - 1].key == key then 1 else 0
  {
    var before, all := set m | i <= m < n - 1 && run[m].key == key, set m | i <= m < n && run[m].key == key;
    assert all == before + if run[n - 1].key == key then {n - 1} else {};
  }

  lemma {:induction false} AdmittedWithinChecks(limit: RateLimit, run: seq<Call>, key: string, j: nat, i: nat, k: nat)
    requires j <= i <= k <= |run|
    ensures Admitted(limit, run, key, i, k) <= Checks(run, key, j, k)
  {
    hide Allowed;
    if i < k { AdmittedWithinChecks(limit, run, key, j, i, k - 1); }
  }

  /** A key unheard of for a minute has its next `rate` checks admitted, however fast they come. */
  lemma PerMinuteServesTheIdle(rate: real, burst: real, run: seq<Call>, j: nat, k: nat)
    requires Monotone(run) && j <= k < |run| && 0.0 <= rate && (burst > 0.0 ==> rate <= burst)
    requires forall i :: 0 <= i < j && run[i].key == run[k].key ==> run[i].at + 60.0 <= run[j].at
    requires |set i | j <= i < k && run[i].key == run[k].key| < rate.Floor
    ensures Allowed(PerMinute(rate, burst), run, k)
  {
    hide Allowed, Admitted, Checks, Accrued, PerMinute, Monotone, WindowOpen;
    var limit, key := PerMinute(rate, burst), run[k].key;
    ChecksAre(run, key, j, k);
    assert limit.capacity >= rate == Accrued(limit, 60.0) && limit.refill >= 0.0 by { PerMinuteTerms(rate, burst, 60.0); }
    assert Checks(run, key, j, k) as real + 1.0 <= rate;
    Between(run, j, k);
    AdmittedIffWindowsOpen(limit, run, k);
    forall i | 0 <= i <= k && run[i].key == key ensures WindowOpen(limit, run, i, k) {
      if i < j {
        var last := LastCheck(limit, run, key, i, j);
        IdleMinuteRefills(limit, run, i, last, j, k);
      } else {
        BurstServes(limit, run, i, j, k);
      }
    }
  }

  /** A minute without checks refills a window opened before it by a minute's worth. */
  lemma IdleMinuteRefills(limit: RateLimit, run: seq<Call>, i: nat, last: nat, j: nat, k: nat)
    requires Monotone(run) && i <= last < j <= k < |run| && run[last].key == run[k].key
    requires limit.capacity >= 0.0 && limit.refill >= 0.0
    requires Admitted(limit, run, run[k].key, last + 1, j) == 0 && run[last].at + 60.0 <= run[k].at
    requires Checks(run, run[k].key, j, k) as real + 1.0 <= Accrued(limit, 60.0)
    ensures WindowOpen(limit, run, i, k)
  {
    hide Accrued, Admitted, Monotone, Checks;
    var key := run[k].key;
    AdmittedSplit(limit, run, key, i, j, k);
    AdmittedSplit(limit, run, key, i, last + 1, j);
    AdmittedWithinChecks(limit, run, key, j, j, k);
    BoundUntil(limit, run, i, last);
    RefillSplits(limit, run[i].at, run[last].at, run[k].at);
  }

  /** A window opened since has the whole burst. */
  lemma BurstServes(limit: RateLimit, run: seq<Call>, i: nat, j: nat, k: nat)
    requires Monotone(run) && j <= i <= k < |run| && limit.refill >= 0.0
    requires Checks(run, run[k].key, j, k) as real + 1.0 <= limit.capacity
    ensures WindowOpen(limit, run, i, k)
  {
    hide Accrued, Admitted, Monotone, Checks;
    Between(run, i, k);
    AdmittedWithinChecks(limit, run, run[k].key, j, i, k);
    AccruedMonotone(limit, 0.0, run[k].at - run[i].at);
    NothingAccrued(limit);
  }

  lemma BoundUntil(limit: RateLimit, run: seq<Call>, i: nat, last: nat)
    requires Monotone(run) && i <= last < |run| && limit.capacity >= 0.0 && limit.refill >= 0.0
    ensures Admitted(limit, run, run[last].key, i, last + 1) as real <= limit.capacity + Accrued(limit, run[last].at - run[i].at)
  {
    hide Accrued, Admitted, Monotone;
    Between(run, i, last);
    WindowBound(limit, run, run[last].key, i, last + 1, run[i].at, run[last].at);
  }

  lemma RefillSplits(limit: RateLimit, from: real, mid: real, to: real)
    requires limit.refill >= 0.0 && mid + 60.0 <= to
    ensures Accrued(limit, to - from) >= Accrued(limit, mid - from) + Accrued(limit, 60.0)
  {
    var r, idle := limit.refill, to - mid;
    assert (to - from) * r == (mid - from) * r + idle * r;
    AccruedMonotone(limit, 60.0, idle);
  }

  lemma Between(run: seq<Call>, i: nat, n: nat)
    requires Monotone(run) && i <= n < |run|
    ensures forall k :: i <= k <= n ==> run[i].at <= run[k].at <= run[n].at
  {
  }

  lemma LastCheck(limit: RateLimit, run: seq<Call>, key: string, i: nat, j: nat) returns (last: nat)
    requires i < j <= |run| && run[i].key == key
    ensures i <= last < j && run[last].key == key && Admitted(limit, run, key, last + 1, j) == 0
  {
    hide Allowed;
    last := j - 1;
    while run[last].key != key
      invariant i <= last < j && Admitted(limit, run, key, last + 1, j) == 0
      decreases last
    {
      AdmittedSplit(limit, run, key, last, last + 1, j);
      assert Admitted(limit, run, key, last, last) == 0;
      last := last - 1;
    }
  }

  // ----- No limiter admits more ----------------------------------------------

  /** How many checks of `key` in [i, n) some other limiter, deciding by `grants`, admits. */
  function Granted(run: seq<Call>, grants: seq<bool>, key: string, i: nat, n: nat): nat
    requires |grants| == |run| && i <= n <= |run|
  {
    if i == n then 0
    else Granted(run, grants, key, i, n - 1) + (if run[n - 1].key == key && grants[n - 1] then 1 else 0)
  }

  /** Another limiter keeps the same bound on every window. */
  predicate KeepsBound(limit: RateLimit, run: seq<Call>, grants: seq<bool>)
    requires |grants| == |run|
  {
    forall i, j :: 0 <= i <= j < |run| && run[i].key == run[j].key && grants[j] ==>
      Granted(run, grants, run[j].key, i, j) as real + 1.0 <= limit.capacity + Accrued(limit, run[j].at - run[i].at)
  }

  lemma {:induction false} GrantedSplit(run: seq<Call>, grants: seq<bool>, key: string, i: nat, j: nat, n: nat)
    requires |grants| == |run| && i <= j <= n <= |run|
    ensures Granted(run, grants, key, i, n) == Granted(run, grants, key, i, j) + Granted(run, grants, key, j, n)
  {
    if j < n { GrantedSplit(run, grants, key, i, j, n - 1); }
  }

  /** The limiter's own decisions keep the bound, and are counted as its admissions. */
  lemma OwnDecisionsKeepBound(limit: RateLimit, run: seq<Call>, grants: seq<bool>)
    requires Monotone(run) && |grants| == |run| && forall j :: 0 <= j < |run| ==> grants[j] == Allowed(limit, run, j)
    ensures KeepsBound(limit, run, grants)
    ensures forall key, i: nat, n: nat :: i <= n <= |run| ==>
              Granted(run, grants, key, i, n) == Admitted(limit, run, key, i, n)
  {
    hide Allowed, Accrued, Monotone, Granted, Admitted;
    forall key, i: nat, n: nat | i <= n <= |run|
      ensures Granted(run, grants, key, i, n) == Admitted(limit, run, key, i, n)
    {
      OwnGrants(limit, run, grants, key, i, n);
    }
    forall i, j | 0 <= i <= j < |run| && run[i].key == run[j].key && grants[j]
      ensures Granted(run, grants, run[j].key, i, j) as real + 1.0 <= limit.capacity + Accrued(limit, run[j].at - run[i].at)
    {
      AdmittedIffWindowsOpen(limit, run, j);
      assert WindowOpen(limit, run, i, j);
    }
  }

  lemma {:induction false} OwnGrants(limit: RateLimit, run: seq<Call>, grants: seq<bool>, key: string, i: nat, n: nat)
    requires |grants| == |run| && i <= n <= |run| && forall j :: 0 <= j < |run| ==> grants[j] == Allowed(limit, run, j)
    ensures Granted(run, grants, key, i, n) == Admitted(limit, run, key, i, n)
  {
    hide Allowed;
    if i < n { OwnGrants(limit, run, grants, key, i, n - 1); }
  }

  /** No limiter that keeps the bound, not even one that knows the future, ever gets ahead. */
  lemma {:induction false} MostPermissive(limit: RateLimit, run: seq<Call>, grants: seq<bool>, key: string, n: nat)
    requires Monotone(run) && |grants| == |run| && KeepsBound(limit, run, grants) && n <= |run|
    ensures Granted(run, grants, key, 0, n) <= Admitted(limit, run, key, 0, n)
  {
    hide Accrued, Allowed;
    if n > 0 {
      var j := n - 1;
      MostPermissive(limit, run, grants, key, j);
      if run[j].key == key && grants[j] && !Allowed(limit, run, j) {
        AdmittedIffWindowsOpen(limit, run, j);
        var i :| 0 <= i <= j && run[i].key == key && !WindowOpen(limit, run, i, j);
        MostPermissive(limit, run, grants, key, i);
        AdmittedSplit(limit, run, key, 0, i, j);
        GrantedSplit(run, grants, key, 0, i, j);
      }
    }
  }

  // ----- Keys do not disturb each other --------------------------------------

  function Only(run: seq<Call>, key: string): seq<Call> {
    if run == [] then []
    else
      var n := |run| - 1;
      Only(run[..n], key) + (if run[n].key == key then [run[n]] else [])
  }

  lemma {:induction false} BucketIsPrivate(limit: RateLimit, run: seq<Call>, key: string)
    ensures key in Run(limit, run) <==> key in Run(limit, Only(run, key))
    ensures key in Run(limit, run) ==> Run(limit, run)[key] == Run(limit, Only(run, key))[key]
  {
    hide Accrued;
    if run != [] {
      var n := |run| - 1;
      BucketIsPrivate(limit, run[..n], key);
      if run[n].key == key {
        var only := Only(run, key);
        assert only[..|only| - 1] == Only(run[..n], key);
      } else {
        assert Only(run, key) == Only(run[..n], key);
      }
    }
  }

  /** A key is told what it would be told if it were the only one. */
  lemma KeysAreIndependent(limit: RateLimit, run: seq<Call>, j: nat)
    requires j < |run|
    ensures var only := Only(run[..j + 1], run[j].key);
            |only| > 0 && only[|only| - 1] == run[j] &&
            DecisionAt(limit, run, j) == DecisionAt(limit, only, |only| - 1)
  {
    hide Accrued;
    var key := run[j].key;
    var only := Only(run[..j + 1], key);
    assert run[..j + 1][..j] == run[..j];
    assert only[..|only| - 1] == Only(run[..j], key);
    BucketIsPrivate(limit, run[..j], key);
  }

  // ----- The retry hint ------------------------------------------------------

  /** Check `j` is denied and told to come back when one token will have accrued. */
  predicate Denied(limit: RateLimit, run: seq<Call>, j: nat)
    requires j < |run|
  {
    limit.capacity >= 1.0 && limit.refill > 0.0 && !Allowed(limit, run, j)
  }

  function RetryAt(limit: RateLimit, run: seq<Call>, j: nat): real
    requires j < |run|
  {
    run[j].at + DecisionAt(limit, run, j).retryAfter
  }

  lemma DeniedBucket(limit: RateLimit, run: seq<Call>, j: nat) returns (tokens: real)
    requires j < |run| && Denied(limit, run, j)
    ensures tokens == Refilled(limit, Run(limit, run[..j]), run[j].key, run[j].at).tokens < 1.0
    ensures forall wait: real :: (Accrued(limit, wait) + tokens >= 1.0) <==> wait >= DecisionAt(limit, run, j).retryAfter
  {
    hide Run, Refilled, Accrued;
    tokens := Refilled(limit, Run(limit, run[..j]), run[j].key, run[j].at).tokens;
    var deficit, retry := 1.0 - tokens, DecisionAt(limit, run, j).retryAfter;
    assert retry == deficit / limit.refill;
    forall wait: real ensures (Accrued(limit, wait) + tokens >= 1.0) <==> wait >= retry {
      WaitForDeficit(limit, deficit, wait);
    }
  }

  lemma WaitForDeficit(limit: RateLimit, deficit: real, wait: real)
    requires limit.refill > 0.0
    ensures Accrued(limit, wait) >= deficit <==> wait >= deficit / limit.refill
  {
    var q := deficit / limit.refill;
    assert q * limit.refill == deficit;
    assert wait * limit.refill - q * limit.refill == (wait - q) * limit.refill;
  }

  lemma RoomAfter(limit: RateLimit, run: seq<Call>, key: string, i: nat, j: nat, k: nat)
    requires i <= j <= k < |run|
    ensures Room(limit, run, key, i, k, run[k].at) ==
            Room(limit, run, key, i, j, run[j].at) + Accrued(limit, run[k].at - run[j].at)
            - Admitted(limit, run, key, j, k) as real
  {
    hide Accrued;
    AdmittedSplit(limit, run, key, i, j, k);
    RoomLater(limit, run, key, i, j, run[j].at, run[k].at);
  }

  /** Before the hinted time every check of the key stays denied. */
  lemma DeniedUntilRetry(limit: RateLimit, run: seq<Call>, j: nat, k: nat)
    requires Monotone(run) && j < k < |run| && run[k].key == run[j].key
    requires limit.capacity >= 1.0 && limit.refill > 0.0 && !Allowed(limit, run, j)
    requires run[k].at < run[j].at + DecisionAt(limit, run, j).retryAfter
    ensures !Allowed(limit, run, k)
  {
    hide Accrued, Refilled, DecisionAt;
    var key := run[j].key;
    var tokens := DeniedBucket(limit, run, j);
    CheckFindsLeastRoom(limit, run, j);
    var i :| 0 <= i < j + 1 && i <= j && run[i].key == key && tokens == Room(limit, run, key, i, j, run[j].at);
    RoomAfter(limit, run, key, i, j, k);
    AdmittedIffWindowsOpen(limit, run, k);
    assert !WindowOpen(limit, run, i, k);
  }

  /** The first check of the key at or after the hinted time is admitted. */
  lemma AdmittedAtRetry(limit: RateLimit, run: seq<Call>, j: nat, k: nat)
    requires Monotone(run) && j < k < |run| && run[k].key == run[j].key
    requires limit.capacity >= 1.0 && limit.refill > 0.0 && !Allowed(limit, run, j)
    requires run[j].at + DecisionAt(limit, run, j).retryAfter <= run[k].at
    requires forall m :: j < m < k && run[m].key == run[j].key ==> run[m].at < RetryAt(limit, run, j)
    ensures Allowed(limit, run, k)
  {
    hide Accrued, Refilled, DecisionAt;
    var key := run[j].key;
    var tokens := DeniedBucket(limit, run, j);
    CheckFindsLeastRoom(limit, run, j);
    NoneAdmitted(limit, run, j, j, k);
    AdmittedIffWindowsOpen(limit, run, k);
    forall i | 0 <= i <= k && run[i].key == key ensures WindowOpen(limit, run, i, k) {
      if i <= j {
        RoomAfter(limit, run, key, i, j, k);
      } else {
        AdmittedSplit(limit, run, key, j, i, k);
        NothingAccrued(limit);
        AccruedMonotone(limit, 0.0, run[k].at - run[i].at);
      }
    }
  }

  lemma {:induction false} NoneAdmitted(limit: RateLimit, run: seq<Call>, j: nat, from: nat, k: nat)
    requires Monotone(run) && j <= from <= k < |run| && Denied(limit, run, j)
    requires forall m :: j < m < k && run[m].key == run[j].key ==> run[m].at < RetryAt(limit, run, j)
    ensures Admitted(limit, run, run[j].key, from, k) == 0
    decreases k - from
  {
    hide Accrued, Refilled, DecisionAt;
    if from < k {
      NoneAdmitted(limit, run, j, from + 1, k);
      AdmittedSplit(limit, run, run[j].key, from, from + 1, k);
      if run[from].key == run[j].key && from > j { DeniedUntilRetry(limit, run, j, from); }
      assert Admitted(limit, run, run[j].key, from, from) == 0;
    }
  }

  /** `math.ceil`. */
  function Ceil(x: real): (n: int)
    ensures n as real - 1.0 < x <= n as real
  {
    -(-x).Floor
  }

  /** The whole-second wait in the 429 answer: it suffices for the key's next check, and no shorter one does. */
  lemma CeilingSuffices(limit: RateLimit, run: seq<Call>, j: nat, k: nat, wait: int)
    requires Monotone(run) && j < k < |run| && run[k].key == run[j].key
    requires limit.capacity >= 1.0 && limit.refill > 0.0 && !Allowed(limit, run, j)
    requires forall m :: j < m < k ==> run[m].key != run[j].key
    requires run[k].at == run[j].at + wait as real
    ensures Allowed(limit, run, k) <==> wait >= Ceil(DecisionAt(limit, run, j).retryAfter)
  {
    hide Accrued, Refilled;
    if run[k].at < RetryAt(limit, run, j) {
      DeniedUntilRetry(limit, run, j, k);
    } else {
      AdmittedAtRetry(limit, run, j, k);
    }
  }

  /** Without refill a denied key is denied for good, and its hint is zero. */
  lemma NoRefillNeverRecovers(limit: RateLimit, run: seq<Call>, j: nat, k: nat)
    requires Monotone(run) && j < k < |run| && run[k].key == run[j].key
    requires limit.refill == 0.0 && !Allowed(limit, run, j)
    ensures DecisionAt(limit, run, j).retryAfter == 0.0 && !Allowed(limit, run, k)
  {
    var key := run[j].key;
    CheckFindsLeastRoom(limit, run, j);
    var tokens := Refilled(limit, Run(limit, run[..j]), key, run[j].at).tokens;
    var i :| 0 <= i < j + 1 && i <= j && run[i].key == key && tokens == Room(limit, run, key, i, j, run[j].at);
    RoomAfter(limit, run, key, i, j, k);
    AdmittedIffWindowsOpen(limit, run, k);
    assert !WindowOpen(limit, run, i, k);
  }
}
