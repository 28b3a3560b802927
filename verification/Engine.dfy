/**
  * The proxy engine (`parcus.proxy.engine`) as a transition system: each request has a step up to
  * the upstream call and a step after it, and other requests run in between.
  */
module Engine {
  import opened Requests
  import opened CacheKeys
  import opened ResponseCache
  import opened Encryption
  import Quota
  import Similarity

  datatype EngineConfig = EngineConfig(
    cacheEnabled: bool,
    ttl: int,
    salt: string,
    multiTenant: bool,
    allowed: set<string>)

  /** The near-duplicate index, when one is wired. */
  datatype Index<!V> = Index(embed: string -> V, cosine: (V, V) -> real, threshold: real, max: nat)

  /** Configuration and the foreign functions the engine is wired with. */
  datatype Setup<!V> = Setup(
    config: EngineConfig,
    dump: Json -> string,
    dumps: Payload -> string,
    limit: Option<Quota.RateLimit>,
    index: Option<Index<V>>)

  /**
    * A request as it reaches the engine: whether it can be routed, the principal its credential
    * stands for, its canonical form if it has one, whether memory replaced its turns, and whether
    * the policy lets it be cached.
    */
  datatype Inbound = Inbound(
    routable: bool,
    principal: string,
    canonical: Option<Request>,
    compacted: bool,
    cacheable: bool)

  datatype Kind = Hit | Similar

  /** What a suspended request keeps until its upstream answer arrives. */
  datatype Pending = Pending(tenant: string, key: Option<CacheKey>, canonical: Option<Request>)

  datatype Outcome =
    | Unroutable
    | Unauthorized
    | Limited(retryAfter: int)
    | Served(kind: Kind, response: Response<Bytes>)
    | Forwarded(pending: Pending)

  // ----- The first step ------------------------------------------------------

  /** The tenant, derived from the credential only when something depends on it. */
  function TenantOf(config: EngineConfig, inbound: Inbound): string {
    if config.multiTenant || config.allowed != {} then inbound.principal else ""
  }

  predicate Authorized(config: EngineConfig, tenant: string) {
    config.allowed == {} || tenant in config.allowed
  }

  /** Routing, authorisation and rate limiting, shared by buffered and streaming requests. */
  function Front<V>(setup: Setup<V>, calls: seq<Quota.Call>, inbound: Inbound, tick: real): (seq<Quota.Call>, Option<Outcome>) {
    var tenant := TenantOf(setup.config, inbound);
    if !inbound.routable then (calls, Some(Unroutable))
    else if !Authorized(setup.config, tenant) then (calls, Some(Unauthorized))
    else if setup.limit.None? then (calls, None)
    else
      var calls' := calls + [Quota.Call(tenant, tick)];
      var decision := Quota.DecisionAt(setup.limit.value, calls', |calls|);
      (calls', if decision.allowed then None else Some(Limited(Quota.Ceil(decision.retryAfter))))
  }

  /** `_maybe_cache_key`, and no key for a memory-compacted request. */
  function MaybeCacheKey<V>(setup: Setup<V>, inbound: Inbound, tenant: string): Option<CacheKey> {
    if inbound.canonical.None? || inbound.compacted then None
    else
      var r := inbound.canonical.value;
      if !setup.config.cacheEnabled || r.stream then None
      else if r.dialect == Gemini && r.model == Null then None
      else if !inbound.cacheable then None
      else Some(ComputeKey(r, TenantSalt(setup.config.salt, tenant), setup.dump, setup.dumps))
  }

  type Rows = map<CacheKey, Row<Bytes>>
  type Entries<V> = seq<Similarity.Entry<V, CacheKey>>

  function Neighbour<V>(setup: Setup<V>, entries: Entries<V>, r: Request, tenant: string): Option<CacheKey> {
    if setup.index.None? then None
    else
      var i := setup.index.value;
      Similarity.BestKey(entries, i.cosine, i.threshold, i.embed(RequestText(r, setup.dump)), r.model, tenant)
  }

  /** The exact cache, then the near-duplicate index: the table afterwards and what was found. */
  function LookUp<V>(setup: Setup<V>, rows: Rows, entries: Entries<V>, inbound: Inbound, tenant: string, now: real)
    : (Rows, Option<Outcome>)
  {
    var key := MaybeCacheKey(setup, inbound, tenant);
    if key.None? then (rows, None)
    else
      var hit, rows' := Lookup(rows, key.value, now), AfterGet(rows, key.value, now);
      if hit.Some? then (rows', Some(Served(Hit, hit.value)))
      else
        var neighbour := Neighbour(setup, entries, inbound.canonical.value, tenant);
        if neighbour.None? then (rows', None)
        else
          var near := Lookup(rows', neighbour.value, now);
          (AfterGet(rows', neighbour.value, now), if near.Some? then Some(Served(Similar, near.value)) else None)
  }

  // ----- The second step -----------------------------------------------------

  predicate IsSuccess(response: Response<Bytes>) {
    200 <= response.status < 300
  }

  predicate Keeps(p: Pending, response: Response<Bytes>) {
    p.key.Some? && IsSuccess(response)
  }

  function RowsAfter<V>(setup: Setup<V>, rows: Rows, p: Pending, response: Response<Bytes>, now: real): Rows {
    if Keeps(p, response) then AfterPut(rows, p.key.value, response, setup.config.ttl, now) else rows
  }

  function EntriesAfter<V>(setup: Setup<V>, entries: Entries<V>, p: Pending, response: Response<Bytes>): Entries<V> {
    if Keeps(p, response) && setup.index.Some? && p.canonical.Some? then
      var r, i := p.canonical.value, setup.index.value;
      Similarity.Recent(
        entries + [Similarity.Entry(i.embed(RequestText(r, setup.dump)), p.key.value, r.model, p.tenant)], i.max)
    else entries
  }

  // ----- The engine ----------------------------------------------------------

  class ProxyEngine<V, B> {
    const setup: Setup<V>
    const cache: SqliteCache<CacheKey, Bytes>
    const limiter: Quota.RateLimiter?
    const similarity: Similarity.SimilarityCache?<V, CacheKey, B>
    /** Every step so far. */
    ghost var events: seq<Event>

    /** The stores are what the steps made of empty ones. */
    ghost predicate Follows()
      reads this, cache, if limiter != null then {limiter} else {}, if similarity != null then {similarity} else {}
    {
      var s := Run(setup, events);
      cache.responses == s.rows && Indexed() == s.entries && Calls() == s.calls
    }

    ghost function Calls(): seq<Quota.Call>
      reads if limiter != null then {limiter} else {}
    {
      if limiter == null then [] else limiter.history
    }

    ghost function Indexed(): Entries<V>
      reads if similarity != null then {similarity} else {}
    {
      if similarity == null then [] else similarity.entries
    }

    ghost predicate Valid()
      reads cache, if limiter != null then {limiter} else {}, if similarity != null then {similarity} else {}
    {
      cache.Valid() &&
      (if limiter == null then setup.limit.None? else limiter.Valid() && setup.limit == Some(limiter.limit)) &&
      (if similarity == null then setup.index.None?
       else similarity.Valid() && similarity.store == null &&
            setup.index == Some(Index(similarity.embed, similarity.cosine, similarity.threshold, similarity.max)))
    }

    constructor (setup: Setup<V>, cache: SqliteCache<CacheKey, Bytes>, limiter: Quota.RateLimiter?,
                 similarity: Similarity.SimilarityCache?<V, CacheKey, B>)
      requires cache.Valid()
      requires if limiter == null then setup.limit.None? else limiter.Valid() && setup.limit == Some(limiter.limit)
      requires if similarity == null then setup.index.None?
               else similarity.Valid() && similarity.store == null &&
                    setup.index == Some(Index(similarity.embed, similarity.cosine, similarity.threshold, similarity.max))
      ensures Valid() && this.setup == setup && this.cache == cache
      ensures this.limiter == limiter && this.similarity == similarity && events == []
      ensures cache.responses == map[] && Calls() == [] && Indexed() == [] ==> Follows()
    {
      this.setup, this.cache, this.limiter, this.similarity := setup, cache, limiter, similarity;
      events := [];
    }

    method Admit(inbound: Inbound, tick: real) returns (refusal: Option<Outcome>)
      requires Valid()
      modifies limiter
      ensures Valid() && (Calls(), refusal) == Front(setup, old(Calls()), inbound, tick)
    {
      if !inbound.routable {
        return Some(Unroutable);
      }
      var tenant := TenantOf(setup.config, inbound);
      if !Authorized(setup.config, tenant) {
        return Some(Unauthorized);
      }
      if limiter != null {
        var decision := limiter.Check(tenant, tick);
        if !decision.allowed {
          return Some(Limited(Quota.Ceil(decision.retryAfter)));
        }
      }
      return None;
    }

    /** The exact cache, then the near-duplicate index (`_cache_get` and `_similar_hit`). */
    method Serve(inbound: Inbound, tenant: string, now: real) returns (found: Option<Outcome>)
      requires Valid()
      modifies cache
      ensures Valid() && (cache.responses, found) == LookUp(setup, old(cache.responses), Indexed(), inbound, tenant, now)
    {
      hide Quota.Run, Table, RequestText, AfterGet, ComputeKey;
      var key := MaybeCacheKey(setup, inbound, tenant);
      if key.None? {
        return None;
      }
      var hit := cache.Get(key.value, now);
      if hit.Some? {
        return Some(Served(Hit, hit.value));
      }
      if similarity == null {
        return None;
      }
      var r := inbound.canonical.value;
      var neighbour := similarity.Lookup(RequestText(r, setup.dump), r.model, tenant);
      if neighbour.None? {
        return None;
      }
      var near := cache.Get(neighbour.value, now);
      return if near.Some? then Some(Served(Similar, near.value)) else None;
    }

    /** `_handle` up to the upstream call. */
    method HandleBegin(inbound: Inbound, now: real, tick: real) returns (outcome: Outcome)
      requires Valid()
      modifies this`events, cache, limiter
      ensures Valid() && events == old(events) + [Begin(inbound, now, tick)]
      ensures var (calls, refusal) := Front(setup, old(Calls()), inbound, tick);
              var tenant := TenantOf(setup.config, inbound);
              var (rows, found) := LookUp(setup, old(cache.responses), Indexed(), inbound, tenant, now);
              Calls() == calls &&
              if refusal.Some? then outcome == refusal.value && cache.responses == old(cache.responses)
              else cache.responses == rows &&
                   outcome == if found.Some? then found.value
                              else Forwarded(Pending(tenant, MaybeCacheKey(setup, inbound, tenant), inbound.canonical))
      ensures old(Follows()) ==> Follows() && outcome == OutcomeOf(setup, Run(setup, old(events)), inbound, now, tick)
    {
      hide Quota.Run, Table, Front, LookUp, Run, Step, MaybeCacheKey;
      RunStep(setup, events, Begin(inbound, now, tick));
      StoresAfter(setup, Run(setup, events), Begin(inbound, now, tick));
      events := events + [Begin(inbound, now, tick)];
      var refusal := Admit(inbound, tick);
      if refusal.Some? {
        return refusal.value;
      }
      var tenant := TenantOf(setup.config, inbound);
      var found := Serve(inbound, tenant, now);
      return if found.Some? then found.value
             else Forwarded(Pending(tenant, MaybeCacheKey(setup, inbound, tenant), inbound.canonical));
    }

    /** `_store` and indexing: a successful answer with a key is kept. */
    method KeepAnswer(p: Pending, response: Response<Bytes>, now: real)
      requires Valid()
      modifies cache, similarity
      ensures Valid()
      ensures cache.responses == RowsAfter(setup, old(cache.responses), p, response, now)
      ensures Indexed() == EntriesAfter(setup, old(Indexed()), p, response)
    {
      hide Quota.Run, Table, AfterPut, RequestText, Similarity.Recent;
      if p.key.Some? && 200 <= response.status < 300 {
        cache.Put(p.key.value, response, setup.config.ttl, now);
        if similarity != null && p.canonical.Some? {
          var r := p.canonical.value;
          similarity.Remember(RequestText(r, setup.dump), p.key.value, r.model, p.tenant);
        }
      }
    }

    /** `_handle` after the upstream call. */
    method HandleFinish(p: Pending, response: Response<Bytes>, now: real)
      requires Valid()
      modifies this`events, cache, similarity
      ensures Valid() && events == old(events) + [Finish(p, response, now)]
      ensures cache.responses == RowsAfter(setup, old(cache.responses), p, response, now)
      ensures Indexed() == EntriesAfter(setup, old(Indexed()), p, response)
      ensures old(Follows()) ==> Follows()
    {
      hide Quota.Run, Table, Run, Step, RowsAfter, EntriesAfter;
      RunStep(setup, events, Finish(p, response, now));
      StoresAfter(setup, Run(setup, events), Finish(p, response, now));
      events := events + [Finish(p, response, now)];
      KeepAnswer(p, response, now);
    }

    /** `prepare_stream`: the same front half, and never the response cache. */
    method PrepareStream(inbound: Inbound, tick: real) returns (outcome: Outcome)
      requires Valid()
      modifies this`events, limiter
      ensures Valid() && events == old(events) + [Stream(inbound, tick)]
      ensures var (calls, refusal) := Front(setup, old(Calls()), inbound, tick);
              Calls() == calls &&
              outcome == if refusal.Some? then refusal.value
                         else Forwarded(Pending(TenantOf(setup.config, inbound), None, inbound.canonical))
      ensures old(Follows()) ==> Follows()
    {
      hide Quota.Run, Table, Run, Step, Front;
      RunStep(setup, events, Stream(inbound, tick));
      StoresAfter(setup, Run(setup, events), Stream(inbound, tick));
      events := events + [Stream(inbound, tick)];
      var refusal := Admit(inbound, tick);
      if refusal.Some? {
        return refusal.value;
      }
      return Forwarded(Pending(TenantOf(setup.config, inbound), None, inbound.canonical));
    }
  }

  // ----- Interleaved runs ----------------------------------------------------

  /** An upstream answer that was stored: for whom, under which key, and when. */
  datatype Answer = Answer(tenant: string, request: Request, key: CacheKey, response: Response<Bytes>, at: real)

  /**
    * The engine between steps: its stores, the requests waiting upstream, the answers stored so
    * far, the rate checks that let a request through to the upstream, and the two clocks.
    */
  datatype State<V> = State(
    rows: Rows,
    entries: Entries<V>,
    calls: seq<Quota.Call>,
    waiting: multiset<Pending>,
    answers: seq<Answer>,
    sent: set<int>,
    clock: real,
    ticks: real)

  datatype Event =
    | Begin(inbound: Inbound, now: real, tick: real)
    | Finish(p: Pending, response: Response<Bytes>, now: real)
    | Stream(inbound: Inbound, tick: real)

  /** Clocks do not step back, and only waiting requests are answered. */
  predicate Enabled<V>(s: State<V>, e: Event) {
    match e
    case Begin(_, now, tick) => s.clock <= now && s.ticks <= tick
    case Finish(p, _, now) => p in s.waiting && s.clock <= now
    case Stream(_, tick) => s.ticks <= tick
  }

  /** What the caller of a first step is told. */
  function OutcomeOf<V>(setup: Setup<V>, s: State<V>, inbound: Inbound, now: real, tick: real): Outcome {
    var (_, refusal) := Front(setup, s.calls, inbound, tick);
    var tenant := TenantOf(setup.config, inbound);
    var (_, found) := LookUp(setup, s.rows, s.entries, inbound, tenant, now);
    if refusal.Some? then refusal.value
    else if found.Some? then found.value
    else Forwarded(Pending(tenant, MaybeCacheKey(setup, inbound, tenant), inbound.canonical))
  }

  /** A request let through to the upstream, remembered by its rate check if it had one. */
  function Send<V>(setup: Setup<V>, s: State<V>, calls: seq<Quota.Call>, p: Pending): State<V> {
    s.(waiting := s.waiting + multiset{p}, sent := if setup.limit.Some? then s.sent + {|calls| - 1} else s.sent)
  }

  function Step<V>(setup: Setup<V>, s: State<V>, e: Event): State<V> {
    match e
    case Begin(inbound, now, tick) =>
      var (calls, refusal) := Front(setup, s.calls, inbound, tick);
      var (rows, _) := LookUp(setup, s.rows, s.entries, inbound, TenantOf(setup.config, inbound), now);
      var s' := s.(calls := calls, clock := now, ticks := tick, rows := if refusal.Some? then s.rows else rows);
      var outcome := OutcomeOf(setup, s, inbound, now, tick);
      if outcome.Forwarded? then Send(setup, s', calls, outcome.pending) else s'
    case Finish(p, response, now) =>
      s.(waiting := s.waiting - multiset{p}, clock := now,
         rows := RowsAfter(setup, s.rows, p, response, now),
         entries := EntriesAfter(setup, s.entries, p, response),
         answers := if Keeps(p, response) && p.canonical.Some? && setup.config.ttl > 0
                    then s.answers + [Answer(p.tenant, p.canonical.value, p.key.value, response, now)] else s.answers)
    case Stream(inbound, tick) =>
      var (calls, refusal) := Front(setup, s.calls, inbound, tick);
      var s' := s.(calls := calls, ticks := tick);
      if refusal.Some? then s'
      else Send(setup, s', calls, Pending(TenantOf(setup.config, inbound), None, inbound.canonical))
  }

  function Start<V>(): State<V> {
    State(map[], [], [], multiset{}, [], {}, 0.0, 0.0)
  }

  function Run<V>(setup: Setup<V>, events: seq<Event>): State<V> {
    if events == [] then Start() else Step(setup, Run(setup, events[..|events| - 1]), events[|events| - 1])
  }

  /** What a step does to the stores. */
  lemma StoresAfter<V>(setup: Setup<V>, s: State<V>, e: Event)
    ensures var s' := Step(setup, s, e);
            match e
            case Begin(inbound, now, tick) =>
              var (calls, refusal) := Front(setup, s.calls, inbound, tick);
              var (rows, _) := LookUp(setup, s.rows, s.entries, inbound, TenantOf(setup.config, inbound), now);
              s'.calls == calls && s'.entries == s.entries && s'.rows == if refusal.Some? then s.rows else rows
            case Finish(p, response, now) =>
              s'.calls == s.calls && s'.rows == RowsAfter(setup, s.rows, p, response, now) &&
              s'.entries == EntriesAfter(setup, s.entries, p, response)
            case Stream(inbound, tick) =>
              s'.calls == Front(setup, s.calls, inbound, tick).0 && s'.rows == s.rows && s'.entries == s.entries
  {
    hide LookUp, Front, RowsAfter, EntriesAfter;
  }

  lemma RunStep<V>(setup: Setup<V>, events: seq<Event>, e: Event)
    ensures Run(setup, events + [e]) == Step(setup, Run(setup, events), e)
  {
    hide Step;
    assert (events + [e])[..|events|] == events;
  }

  ghost predicate IsRun<V>(setup: Setup<V>, events: seq<Event>) {
    events == [] ||
    (IsRun(setup, events[..|events| - 1]) && Enabled(Run(setup, events[..|events| - 1]), events[|events| - 1]))
  }

  // ----- What every reachable state keeps ------------------------------------

  function KeyFor<V>(setup: Setup<V>, r: Request, tenant: string): CacheKey {
    ComputeKey(r, TenantSalt(setup.config.salt, tenant), setup.dump, setup.dumps)
  }

  /** A key is carried only by the request and tenant it was computed for. */
  predicate PendingIsKeyed<V>(setup: Setup<V>, p: Pending) {
    p.key.Some? ==> p.canonical.Some? && p.key.value == KeyFor(setup, p.canonical.value, p.tenant)
  }

  predicate AnswerIsReal<V>(setup: Setup<V>, a: Answer, clock: real) {
    IsSuccess(a.response) && a.at <= clock && a.key == KeyFor(setup, a.request, a.tenant)
  }

  /** A row is a stored answer under its key, expiring one time to live after it was stored. */
  predicate RowIsAnswer<V>(setup: Setup<V>, key: CacheKey, row: Row<Bytes>, a: Answer) {
    a.key == key && row.value == a.response && row.createdAt == a.at && row.expiresAt == a.at + setup.config.ttl as real
  }

  predicate RowsAreAnswers<V>(setup: Setup<V>, rows: Rows, answers: seq<Answer>) {
    forall key :: key in rows ==> exists a <- answers :: RowIsAnswer(setup, key, rows[key], a)
  }

  predicate PendingsAreKeyed<V>(setup: Setup<V>, waiting: multiset<Pending>) {
    forall p :: p in waiting ==> PendingIsKeyed(setup, p)
  }

  /** An index entry carries the model and tenant of a request with its key. */
  predicate EntryIsKeyed<V>(setup: Setup<V>, e: Similarity.Entry<V, CacheKey>, r: Request) {
    e.model == r.model && e.key == KeyFor(setup, r, e.tenant)
  }

  ghost predicate HasRequest<V>(setup: Setup<V>, e: Similarity.Entry<V, CacheKey>) {
    exists r :: EntryIsKeyed(setup, e, r)
  }

  ghost predicate EntriesAreKeyed<V>(setup: Setup<V>, entries: Entries<V>) {
    forall i :: 0 <= i < |entries| ==> HasRequest(setup, entries[i])
  }

  ghost predicate Invariant<V>(setup: Setup<V>, s: State<V>) {
    RowsAreAnswers(setup, s.rows, s.answers) && PendingsAreKeyed(setup, s.waiting) && EntriesAreKeyed(setup, s.entries) &&
    forall a <- s.answers :: AnswerIsReal(setup, a, s.clock)
  }

  lemma LookUpKeepsRows<V>(setup: Setup<V>, rows: Rows, entries: Entries<V>, inbound: Inbound, tenant: string, now: real)
    ensures var rows' := LookUp(setup, rows, entries, inbound, tenant, now).0;
            forall key :: key in rows' ==> key in rows && rows'[key] == rows[key]
  {
    hide Neighbour, MaybeCacheKey;
  }

  lemma BeginKeepsInvariant<V>(setup: Setup<V>, s: State<V>, e: Event)
    requires Invariant(setup, s) && Enabled(s, e) && !e.Finish?
    ensures Invariant(setup, Step(setup, s, e))
  {
    hide LookUp, KeyFor, Front;
    match e
    case Begin(inbound, now, tick) =>
      var tenant := TenantOf(setup.config, inbound);
      LookUpKeepsRows(setup, s.rows, s.entries, inbound, tenant, now);
      assert PendingIsKeyed(setup, Pending(tenant, MaybeCacheKey(setup, inbound, tenant), inbound.canonical)) by { MaybeKeyIsKey(setup, inbound, tenant); }
      var s' := Step(setup, s, e);
      LookUpForwards(setup, s.rows, s.entries, inbound, tenant, now);
      FrontRefuses(setup, s.calls, inbound, tick);
      assert forall p :: p in s'.waiting ==> p in s.waiting || p == Pending(tenant, MaybeCacheKey(setup, inbound, tenant), inbound.canonical);
    case Stream(inbound, tick) =>
      var s' := Step(setup, s, e);
      assert forall p :: p in s'.waiting ==> p in s.waiting || p == Pending(TenantOf(setup.config, inbound), None, inbound.canonical);
  }

  lemma MaybeKeyIsKey<V>(setup: Setup<V>, inbound: Inbound, tenant: string)
    ensures PendingIsKeyed(setup, Pending(tenant, MaybeCacheKey(setup, inbound, tenant), inbound.canonical))
    ensures MaybeCacheKey(setup, inbound, tenant).Some? ==> !inbound.compacted
  {
  }

  lemma LookUpForwards<V>(setup: Setup<V>, rows: Rows, entries: Entries<V>, inbound: Inbound, tenant: string, now: real)
    ensures var found := LookUp(setup, rows, entries, inbound, tenant, now).1; found.Some? ==> found.value.Served?
  {
    hide Neighbour, MaybeCacheKey;
  }

  lemma FrontRefuses<V>(setup: Setup<V>, calls: seq<Quota.Call>, inbound: Inbound, tick: real)
    ensures var refusal := Front(setup, calls, inbound, tick).1;
            refusal.Some? ==> refusal.value.Unroutable? || refusal.value.Unauthorized? || refusal.value.Limited?
  {
  }

  lemma FinishKeepsInvariant<V>(setup: Setup<V>, s: State<V>, p: Pending, response: Response<Bytes>, now: real)
    requires Invariant(setup, s) && p in s.waiting && s.clock <= now
    ensures Invariant(setup, Step(setup, s, Finish(p, response, now)))
  {
    hide KeyFor;
    var s' := Step(setup, s, Finish(p, response, now));
    forall q | q in s'.waiting ensures PendingIsKeyed(setup, q) {
      assert q in s.waiting;
    }
    forall key | key in s'.rows ensures exists a <- s'.answers :: RowIsAnswer(setup, key, s'.rows[key], a) {
      if Keeps(p, response) && setup.config.ttl > 0 && key == p.key.value {
        var a := Answer(p.tenant, p.canonical.value, p.key.value, response, now);
        assert a in s'.answers && RowIsAnswer(setup, key, s'.rows[key], a);
      } else {
        assert key in s.rows && s'.rows[key] == s.rows[key];
        var a :| a in s.answers && RowIsAnswer(setup, key, s.rows[key], a);
        assert a in s'.answers;
      }
    }
    FinishKeepsEntries(setup, s.entries, p, response);
  }

  lemma FinishKeepsEntries<V>(setup: Setup<V>, entries: Entries<V>, p: Pending, response: Response<Bytes>)
    requires EntriesAreKeyed(setup, entries) && PendingIsKeyed(setup, p)
    ensures EntriesAreKeyed(setup, EntriesAfter(setup, entries, p, response))
  {
    hide KeyFor;
    if Keeps(p, response) && setup.index.Some? && p.canonical.Some? {
      var r, i := p.canonical.value, setup.index.value;
      var e := Similarity.Entry(i.embed(RequestText(r, setup.dump)), p.key.value, r.model, p.tenant);
      assert EntryIsKeyed(setup, e, r);
      var all := entries + [e];
      assert HasRequest(setup, e);
      var kept := EntriesAfter(setup, entries, p, response);
      var cut := |all| - |kept|;
      forall k | 0 <= k < |kept| ensures HasRequest(setup, kept[k]) {
        assert kept[k] == all[cut + k];
      }
    }
  }

  lemma {:induction false} EveryStateKeepsInvariant<V>(setup: Setup<V>, events: seq<Event>)
    requires IsRun(setup, events)
    ensures Invariant(setup, Run(setup, events))
  {
    hide Invariant, Enabled;
    if events == [] {
      StartIsFine(setup);
    } else {
      var before, e := events[..|events| - 1], events[|events| - 1];
      EveryStateKeepsInvariant(setup, before);
      StepKeepsInvariant(setup, Run(setup, before), e);
    }
  }

  lemma StartIsFine<V>(setup: Setup<V>)
    ensures Invariant(setup, Start())
  {
  }

  lemma StepKeepsInvariant<V>(setup: Setup<V>, s: State<V>, e: Event)
    requires Invariant(setup, s) && Enabled(s, e)
    ensures Invariant(setup, Step(setup, s, e))
  {
    match e
    case Finish(p, response, now) => FinishKeepsInvariant(setup, s, p, response, now);
    case _ => BeginKeepsInvariant(setup, s, e);
  }

  // ----- Served answers are real ---------------------------------------------

  /** What a request served from the caches is told, and the stored answer behind it. */
  predicate Backs<V>(setup: Setup<V>, a: Answer, inbound: Inbound, response: Response<Bytes>, now: real) {
    a.response == response && IsSuccess(response) && a.tenant == TenantOf(setup.config, inbound) &&
    a.at <= now < a.at + setup.config.ttl as real
  }

  lemma LookUpServes<V>(setup: Setup<V>, rows: Rows, entries: Entries<V>, inbound: Inbound, tenant: string, now: real)
    ensures var key, found := MaybeCacheKey(setup, inbound, tenant), LookUp(setup, rows, entries, inbound, tenant, now).1;
            found.Some? ==>
              key.Some? && !inbound.compacted && inbound.canonical.Some? &&
              exists k ::
                k in rows && rows[k].value == found.value.response && now < rows[k].expiresAt &&
                if found.value.kind == Hit then k == key.value
                else Neighbour(setup, entries, inbound.canonical.value, tenant) == Some(k)
    ensures LookUp(setup, rows, entries, inbound, tenant, now).1.Some? ==>
              LookUp(setup, rows, entries, inbound, tenant, now).1.value.Served?
  {
    hide Neighbour, KeyFor;
    var key := MaybeCacheKey(setup, inbound, tenant);
    if key.Some? {
      var rows' := AfterGet(rows, key.value, now);
      var neighbour := Neighbour(setup, entries, inbound.canonical.value, tenant);
      if Lookup(rows, key.value, now).Some? {
        assert key.value in rows;
      } else if neighbour.Some? && Lookup(rows', neighbour.value, now).Some? {
        assert neighbour.value in rows;
      }
    }
  }

  /** A neighbour was indexed for the same tenant and model. */
  lemma NeighbourIsKeyed<V>(setup: Setup<V>, entries: Entries<V>, r: Request, tenant: string)
    requires EntriesAreKeyed(setup, entries) && Neighbour(setup, entries, r, tenant).Some?
    ensures exists q: Request :: q.model == r.model && Neighbour(setup, entries, r, tenant).value == KeyFor(setup, q, tenant)
  {
    hide KeyFor;
    var i := setup.index.value;
    var vector := i.embed(RequestText(r, setup.dump));
    var k :| Similarity.IsBest(entries, i.cosine, i.threshold, vector, r.model, tenant, k) &&
             entries[k].key == Neighbour(setup, entries, r, tenant).value;
    assert HasRequest(setup, entries[k]);
    var q :| EntryIsKeyed(setup, entries[k], q);
  }

  /**
    * In every interleaved run a served response is an earlier successful upstream answer, stored
    * less than a time to live ago for the same tenant and model; a hit also agrees with its
    * request on dialect, system, tools and every message's role and text.
    */
  lemma ServedAnswersAreReal<V>(setup: Setup<V>, events: seq<Event>, inbound: Inbound, now: real, tick: real)
    requires IsCanonicalJson(setup.dumps) && IsRun(setup, events)
    requires Enabled(Run(setup, events), Begin(inbound, now, tick))
    requires OutcomeOf(setup, Run(setup, events), inbound, now, tick).Served?
    ensures var s := Run(setup, events);
            var outcome := OutcomeOf(setup, s, inbound, now, tick);
            !inbound.compacted && inbound.canonical.Some? &&
            exists a <- s.answers ::
              Backs(setup, a, inbound, outcome.response, now) &&
              a.request.model == inbound.canonical.value.model &&
              (outcome.kind == Hit ==> SaysTheSame(a.request, inbound.canonical.value, setup.dump))
  {
    hide LookUp, Front, Neighbour, IsRun, Run, ComputeKey, SaysTheSame, Enabled;
    var s, tenant := Run(setup, events), TenantOf(setup.config, inbound);
    EveryStateKeepsInvariant(setup, events);
    FrontRefuses(setup, s.calls, inbound, tick);
    LookUpServes(setup, s.rows, s.entries, inbound, tenant, now);
    var found := LookUp(setup, s.rows, s.entries, inbound, tenant, now).1.value;
    var r := inbound.canonical.value;
    var k :| k in s.rows && s.rows[k].value == found.response && now < s.rows[k].expiresAt &&
             if found.kind == Hit then Some(k) == MaybeCacheKey(setup, inbound, tenant)
             else Neighbour(setup, s.entries, r, tenant) == Some(k);
    var a :| a in s.answers && RowIsAnswer(setup, k, s.rows[k], a);
    assert AnswerIsReal(setup, a, s.clock);
    BeginIsLater(setup, s, inbound, now, tick);
    if found.kind == Hit {
      MaybeKeyIsKey(setup, inbound, tenant);
      SameKeySameRequest(setup, a.request, r, a.tenant, tenant);
    } else {
      NeighbourIsKeyed(setup, s.entries, r, tenant);
      var q: Request :| q.model == r.model && k == KeyFor(setup, q, tenant);
      SameKeySameRequest(setup, a.request, q, a.tenant, tenant);
    }
  }

  lemma BeginIsLater<V>(setup: Setup<V>, s: State<V>, inbound: Inbound, now: real, tick: real)
    requires Enabled(s, Begin(inbound, now, tick))
    ensures s.clock <= now
  {
  }

  lemma SameKeySameRequest<V>(setup: Setup<V>, a: Request, b: Request, t1: string, t2: string)
    requires IsCanonicalJson(setup.dumps) && KeyFor(setup, a, t1) == KeyFor(setup, b, t2)
    ensures t1 == t2 && a.model == b.model && SaysTheSame(a, b, setup.dump)
  {
    KeyIsExact(a, b, setup.config.salt, t1, t2, setup.dump, setup.dumps);
  }

  // ----- Where stored answers come from --------------------------------------

  /** Event `i` is the start of the request that waits as `p`, which memory did not compact. */
  predicate BeganAs<V>(setup: Setup<V>, e: Event, p: Pending) {
    e.Begin? && !e.inbound.compacted && e.inbound.canonical == p.canonical &&
    p.tenant == TenantOf(setup.config, e.inbound) && Authorized(setup.config, p.tenant) &&
    p.key.Some? && p.key == MaybeCacheKey(setup, e.inbound, p.tenant)
  }

  /** A stored answer is what the upstream answered to a request that began before. */
  ghost predicate AnswerHasOrigin<V>(setup: Setup<V>, events: seq<Event>, a: Answer) {
    exists i, j :: 0 <= i < j < |events| && events[j].Finish? && BeganAs(setup, events[i], events[j].p) &&
      events[j].response == a.response && events[j].now == a.at &&
      events[j].p.tenant == a.tenant && events[j].p.canonical == Some(a.request) && events[j].p.key == Some(a.key)
  }

  ghost predicate PendingHasOrigin<V>(setup: Setup<V>, events: seq<Event>, p: Pending) {
    exists i :: 0 <= i < |events| && BeganAs(setup, events[i], p)
  }

  lemma WaitingAfter<V>(setup: Setup<V>, s: State<V>, e: Event, p: Pending)
    requires p in Step(setup, s, e).waiting && p.key.Some?
    ensures p in s.waiting || BeganAs(setup, e, p)
  {
    hide LookUp, KeyFor;
    match e
    case Begin(inbound, now, tick) =>
      var tenant := TenantOf(setup.config, inbound);
      LookUpForwards(setup, s.rows, s.entries, inbound, tenant, now);
      FrontRefuses(setup, s.calls, inbound, tick);
      MaybeKeyIsKey(setup, inbound, tenant);
    case Finish(_, _, _) =>
    case Stream(inbound, tick) =>
  }

  lemma {:induction false} OriginsExtend<V>(setup: Setup<V>, events: seq<Event>, e: Event)
    ensures forall p :: PendingHasOrigin(setup, events, p) ==> PendingHasOrigin(setup, events + [e], p)
    ensures forall a :: AnswerHasOrigin(setup, events, a) ==> AnswerHasOrigin(setup, events + [e], a)
  {
    var more := events + [e];
    forall p | PendingHasOrigin(setup, events, p) ensures PendingHasOrigin(setup, more, p) {
      var i :| 0 <= i < |events| && BeganAs(setup, events[i], p);
      assert more[i] == events[i];
    }
    forall a | AnswerHasOrigin(setup, events, a) ensures AnswerHasOrigin(setup, more, a) {
      var i, j :| 0 <= i < j < |events| && events[j].Finish? && BeganAs(setup, events[i], events[j].p) &&
        events[j].response == a.response && events[j].now == a.at &&
        events[j].p.tenant == a.tenant && events[j].p.canonical == Some(a.request) && events[j].p.key == Some(a.key);
      assert more[i] == events[i] && more[j] == events[j];
    }
  }

  /** Nothing is stored that the upstream did not answer, and nothing for a compacted request. */
  lemma {:induction false} AnswersHaveOrigins<V>(setup: Setup<V>, events: seq<Event>)
    requires IsRun(setup, events)
    ensures forall p :: p in Run(setup, events).waiting && p.key.Some? ==> PendingHasOrigin(setup, events, p)
    ensures forall a <- Run(setup, events).answers :: AnswerHasOrigin(setup, events, a)
  {
    hide BeganAs, PendingHasOrigin, AnswerHasOrigin;
    if events != [] {
      var n := |events| - 1;
      var before, e := events[..n], events[n];
      var s, s' := Run(setup, before), Run(setup, events);
      assert events == before + [e];
      AnswersHaveOrigins(setup, before);
      OriginsExtend(setup, before, e);
      forall p | p in s'.waiting && p.key.Some? ensures PendingHasOrigin(setup, events, p) {
        WaitingAfter(setup, s, e, p);
        if BeganAs(setup, e, p) { PendingOrigin(setup, events, n, p); }
      }
      forall a | a in s'.answers ensures AnswerHasOrigin(setup, events, a) {
        if a !in s.answers { AnswerOrigin(setup, before, e, a); }
      }
    }
  }

  lemma PendingOrigin<V>(setup: Setup<V>, events: seq<Event>, i: nat, p: Pending)
    requires i < |events| && BeganAs(setup, events[i], p)
    ensures PendingHasOrigin(setup, events, p)
  {
  }

  lemma AnswerOrigin<V>(setup: Setup<V>, before: seq<Event>, e: Event, a: Answer)
    requires Enabled(Run(setup, before), e)
    requires a in Step(setup, Run(setup, before), e).answers && a !in Run(setup, before).answers
    requires forall p :: p in Run(setup, before).waiting && p.key.Some? ==> PendingHasOrigin(setup, before, p)
    ensures AnswerHasOrigin(setup, before + [e], a)
  {
    hide BeganAs, Front, LookUp;
    var events := before + [e];
    assert e.Finish?;
    assert PendingHasOrigin(setup, before, e.p);
    var i :| 0 <= i < |before| && BeganAs(setup, before[i], e.p);
    assert events[i] == before[i] && events[|before|] == e;
  }

  // ----- The limiter bounds what reaches the upstream ------------------------

  /** Rate checks are in clock order, and whatever was sent upstream was admitted by its own check. */
  ghost predicate SentWereAllowed<V>(setup: Setup<V>, s: State<V>) {
    (forall i, j :: 0 <= i < j < |s.calls| ==> s.calls[i].at <= s.calls[j].at) &&
    (forall i :: 0 <= i < |s.calls| ==> s.calls[i].at <= s.ticks) &&
    (setup.limit.Some? ==> forall i <- s.sent :: 0 <= i < |s.calls| && Quota.Allowed(setup.limit.value, s.calls, i))
  }

  lemma AllowedInPrefix(limit: Quota.RateLimit, calls: seq<Quota.Call>, c: Quota.Call, i: nat)
    requires i < |calls|
    ensures Quota.Allowed(limit, calls + [c], i) == Quota.Allowed(limit, calls, i)
  {
    assert (calls + [c])[..i] == calls[..i];
  }

  lemma FrontAllows<V>(setup: Setup<V>, s: State<V>, inbound: Inbound, tick: real)
    requires SentWereAllowed(setup, s) && s.ticks <= tick
    ensures var (calls, refusal) := Front(setup, s.calls, inbound, tick);
            SentWereAllowed(setup, s.(calls := calls, ticks := tick)) &&
            (refusal.None? && setup.limit.Some? ==>
              |calls| == |s.calls| + 1 && calls[|s.calls|].key == TenantOf(setup.config, inbound) &&
              Quota.Allowed(setup.limit.value, calls, |s.calls|))
  {
    if setup.limit.Some? {
      var c := Quota.Call(TenantOf(setup.config, inbound), tick);
      forall i | i in s.sent ensures 0 <= i < |s.calls| && Quota.Allowed(setup.limit.value, s.calls + [c], i) {
        AllowedInPrefix(setup.limit.value, s.calls, c, i);
      }
    }
  }

  /** Every step keeps that, and each request sent upstream has a check of its own. */
  lemma StepSendsAllowed<V>(setup: Setup<V>, s: State<V>, e: Event)
    requires SentWereAllowed(setup, s) && Enabled(s, e)
    ensures SentWereAllowed(setup, Step(setup, s, e))
    ensures setup.limit.Some? ==> |Step(setup, s, e).sent| - |s.sent| >= |Step(setup, s, e).waiting| - |s.waiting|
  {
    hide LookUp, Front, Quota.Allowed, RowsAfter, EntriesAfter, MaybeCacheKey;
    if !e.Finish? {
      FrontAllows(setup, s, e.inbound, e.tick);
      FrontRefuses(setup, s.calls, e.inbound, e.tick);
    }
    if e.Begin? { LookUpForwards(setup, s.rows, s.entries, e.inbound, TenantOf(setup.config, e.inbound), e.now); }
  }

  lemma {:induction false} EverySentWasAllowed<V>(setup: Setup<V>, events: seq<Event>)
    requires IsRun(setup, events)
    ensures SentWereAllowed(setup, Run(setup, events))
  {
    hide SentWereAllowed, Enabled, Step;
    if events == [] {
      NothingSentYet(setup);
    } else {
      EverySentWasAllowed(setup, events[..|events| - 1]);
      StepSendsAllowed(setup, Run(setup, events[..|events| - 1]), events[|events| - 1]);
    }
  }

  lemma NothingSentYet<V>(setup: Setup<V>)
    ensures SentWereAllowed(setup, Start())
  {
  }

  /** The checks of a tenant inside [from, to] that let a request through. */
  function SentWithin<V>(s: State<V>, tenant: string, from: real, to: real): set<int> {
    set i | i in s.sent && 0 <= i < |s.calls| && s.calls[i].key == tenant && from <= s.calls[i].at <= to
  }

  lemma {:induction false} CountAdmitted(limit: Quota.RateLimit, calls: seq<Quota.Call>, key: string, i: nat, n: nat, chosen: set<int>)
    requires i <= n <= |calls|
    requires forall k <- chosen :: i <= k < n && calls[k].key == key && Quota.Allowed(limit, calls, k)
    ensures |chosen| <= Quota.Admitted(limit, calls, key, i, n)
  {
    hide Quota.Allowed;
    if i == n {
      assert forall k :: k !in chosen;
      assert chosen == {};
    } else if n - 1 in chosen {
      CountAdmitted(limit, calls, key, i, n - 1, chosen - {n - 1});
    } else {
      CountAdmitted(limit, calls, key, i, n - 1, chosen);
    }
  }

  /** In every run, any stretch of time sends upstream for a tenant at most the capacity and its refill. */
  lemma UpstreamBudget<V>(setup: Setup<V>, events: seq<Event>, tenant: string, from: real, to: real)
    requires IsRun(setup, events) && setup.limit.Some? && from <= to
    requires setup.limit.value.capacity >= 0.0 && setup.limit.value.refill >= 0.0
    ensures |SentWithin(Run(setup, events), tenant, from, to)| as real <=
            setup.limit.value.capacity + Quota.Accrued(setup.limit.value, to - from)
  {
    hide Quota.Accrued, Quota.Allowed, IsRun, Run;
    EverySentWasAllowed(setup, events);
    var limit, calls := setup.limit.value, Run(setup, events).calls;
    var i, n := FirstAt(calls, from, false), FirstAt(calls, to, true);
    assert i <= n;
    CountAdmitted(limit, calls, tenant, i, n, SentWithin(Run(setup, events), tenant, from, to));
    Quota.WindowBound(limit, calls, tenant, i, n, from, to);
  }

  /** The first check at or after `t`, or, when `strict`, after it. */
  function FirstAt(calls: seq<Quota.Call>, t: real, strict: bool): (n: nat)
    ensures n <= |calls|
    ensures n < |calls| ==> if strict then calls[n].at > t else calls[n].at >= t
    ensures forall k :: 0 <= k < n ==> if strict then calls[k].at <= t else calls[k].at < t
  {
    if calls == [] || (if strict then calls[0].at > t else calls[0].at >= t) then 0
    else 1 + FirstAt(calls[1..], t, strict)
  }

  /** A limited tenant that waits the announced seconds is not limited again. */
  lemma RetryAfterSuffices<V>(setup: Setup<V>, calls: seq<Quota.Call>, j: nat, inbound: Inbound, tick: real)
    requires setup.limit.Some? && j < |calls| && Quota.Monotone(calls + [Quota.Call(TenantOf(setup.config, inbound), tick)])
    requires setup.limit.value.capacity >= 1.0 && setup.limit.value.refill > 0.0
    requires !Quota.Allowed(setup.limit.value, calls, j) && calls[j].key == TenantOf(setup.config, inbound)
    requires forall m :: j < m < |calls| ==> calls[m].key != calls[j].key
    requires tick >= calls[j].at + Quota.Ceil(Quota.DecisionAt(setup.limit.value, calls, j).retryAfter) as real
    ensures var refusal := Front(setup, calls, inbound, tick).1; refusal.Some? ==> !refusal.value.Limited?
  {
    hide Quota.Refilled, Quota.Run;
    var limit, c := setup.limit.value, Quota.Call(TenantOf(setup.config, inbound), tick);
    var calls' := calls + [c];
    assert calls'[..j] == calls[..j];
    Quota.AdmittedAtRetry(limit, calls', j, |calls|);
  }
}
