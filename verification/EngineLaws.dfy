/**
  * What the engine (`parcus.proxy.engine`) promises its callers, told by principal and request:
  * who is refused, whose answers are served to whom, and when they are.
  */
module EngineLaws {
  import opened Requests
  import opened CacheKeys
  import opened ResponseCache
  import opened Encryption
  import opened Engine
  import Quota
  import Similarity

  /** A request whose answer may be stored and which may be served a stored answer. */
  predicate MayBeCached<V>(setup: Setup<V>, inbound: Inbound) {
    setup.config.cacheEnabled && inbound.cacheable && !inbound.compacted && inbound.canonical.Some? &&
    !inbound.canonical.value.stream && !(inbound.canonical.value.dialect == Gemini && inbound.canonical.value.model == Null)
  }

  /** A key exactly for a request that may be cached, under the install's salt and its tenant. */
  lemma KeyIsGiven<V>(setup: Setup<V>, inbound: Inbound, tenant: string)
    ensures MaybeCacheKey(setup, inbound, tenant) ==
            if MayBeCached(setup, inbound) then Some(KeyFor(setup, inbound.canonical.value, tenant)) else None
    ensures MayBeCached(setup, inbound) ==>
              KeyFor(setup, inbound.canonical.value, tenant) ==
              ComputeKey(inbound.canonical.value, TenantSalt(setup.config.salt, tenant), setup.dump, setup.dumps)
  {
  }

  // ----- Who is refused ------------------------------------------------------

  /**
    * An unroutable request is refused first, then a principal missing from a list that allows
    * anybody, then one whose own bucket is empty; everybody else is let through.
    */
  lemma RefusalsAreExact<V>(setup: Setup<V>, calls: seq<Quota.Call>, inbound: Inbound, tick: real)
    ensures var allowed, refusal := setup.config.allowed, Front(setup, calls, inbound, tick).1;
            var whose := if setup.config.multiTenant || allowed != {} then inbound.principal else "";
            var calls' := calls + [Quota.Call(whose, tick)];
            if !inbound.routable then refusal == Some(Unroutable)
            else if allowed != {} && inbound.principal !in allowed then refusal == Some(Unauthorized)
            else if setup.limit.Some? && !Quota.Allowed(setup.limit.value, calls', |calls|) then
              refusal.Some? && refusal.value.Limited? &&
              var wait := Quota.DecisionAt(setup.limit.value, calls', |calls|).retryAfter;
              refusal.value.retryAfter as real - 1.0 < wait <= refusal.value.retryAfter as real
            else refusal == None
  {
    hide Quota.Refilled, Quota.Run;
  }

  // ----- One principal is not told from another, or never sees the other -----

  /** Without tenants and without an allow-list it makes no difference who asks. */
  lemma PrincipalsShare<V>(setup: Setup<V>, s: State<V>, inbound: Inbound, other: string, now: real, tick: real)
    requires !setup.config.multiTenant && setup.config.allowed == {}
    ensures OutcomeOf(setup, s, inbound.(principal := other), now, tick) == OutcomeOf(setup, s, inbound, now, tick)
    ensures Step(setup, s, Begin(inbound.(principal := other), now, tick)) == Step(setup, s, Begin(inbound, now, tick))
    ensures Step(setup, s, Stream(inbound.(principal := other), tick)) == Step(setup, s, Stream(inbound, tick))
  {
    hide LookUp, Front, MaybeCacheKey;
    SharedParts(setup, s, inbound, other, now, tick);
  }

  lemma SharedParts<V>(setup: Setup<V>, s: State<V>, inbound: Inbound, other: string, now: real, tick: real)
    requires !setup.config.multiTenant && setup.config.allowed == {}
    ensures var same := inbound.(principal := other);
            Front(setup, s.calls, same, tick) == Front(setup, s.calls, inbound, tick) &&
            TenantOf(setup.config, same) == TenantOf(setup.config, inbound) == "" &&
            MaybeCacheKey(setup, same, "") == MaybeCacheKey(setup, inbound, "") &&
            LookUp(setup, s.rows, s.entries, same, "", now) == LookUp(setup, s.rows, s.entries, inbound, "", now)
  {
    hide Lookup, AfterGet, Quota.DecisionAt, ComputeKey, Neighbour;
  }

  /** The requests of one principal alone. */
  function RequestsOf(events: seq<Event>, principal: string): seq<Event> {
    if events == [] then []
    else
      var n := |events| - 1;
      RequestsOf(events[..n], principal) +
      (if !events[n].Finish? && events[n].inbound.principal == principal then [events[n]] else [])
  }

  lemma CallsAfter<V>(setup: Setup<V>, s: State<V>, e: Event)
    ensures Step(setup, s, e).calls ==
            if e.Finish? || !e.inbound.routable || (setup.config.allowed != {} && e.inbound.principal !in setup.config.allowed) ||
               setup.limit.None? then s.calls
            else s.calls + [Quota.Call(if setup.config.multiTenant || setup.config.allowed != {} then e.inbound.principal else "", e.tick)]
  {
    hide LookUp, MaybeCacheKey, Quota.DecisionAt, RowsAfter, EntriesAfter;
  }

  lemma {:induction false} OwnChecks<V>(setup: Setup<V>, events: seq<Event>, principal: string)
    requires setup.config.multiTenant || setup.config.allowed != {}
    ensures Run(setup, RequestsOf(events, principal)).calls == Quota.Only(Run(setup, events).calls, principal)
  {
    hide Step;
    if events != [] {
      var n := |events| - 1;
      var own := RequestsOf(events[..n], principal);
      OwnChecks(setup, events[..n], principal);
      CallsAfter(setup, Run(setup, events[..n]), events[n]);
      if !events[n].Finish? && events[n].inbound.principal == principal {
        RunStep(setup, own, events[n]);
        CallsAfter(setup, Run(setup, own), events[n]);
      } else {
        assert RequestsOf(events, principal) == own;
      }
      OnlyAppend(Run(setup, events[..n]).calls, principal);
    }
  }

  lemma OnlyAppend(calls: seq<Quota.Call>, key: string)
    ensures forall c: Quota.Call :: Quota.Only(calls + [c], key) == Quota.Only(calls, key) + (if c.key == key then [c] else [])
  {
    forall c: Quota.Call ensures Quota.Only(calls + [c], key) == Quota.Only(calls, key) + (if c.key == key then [c] else []) {
      assert (calls + [c])[..|calls|] == calls;
    }
  }

  /** Where principals are told apart, each is refused what it would be refused if it were the only one. */
  lemma PrincipalHasOwnBucket<V>(setup: Setup<V>, events: seq<Event>, inbound: Inbound, tick: real)
    requires setup.config.multiTenant || setup.config.allowed != {}
    ensures Front(setup, Run(setup, events).calls, inbound, tick).1 ==
            Front(setup, Run(setup, RequestsOf(events, inbound.principal)).calls, inbound, tick).1
  {
    hide Quota.DecisionAt, Run;
    var all, own := Run(setup, events).calls, Run(setup, RequestsOf(events, inbound.principal)).calls;
    OwnChecks(setup, events, inbound.principal);
    if setup.limit.Some? {
      var c := Quota.Call(inbound.principal, tick);
      OnlyAppend(all, inbound.principal);
      assert (all + [c])[..|all| + 1] == all + [c];
      Quota.KeysAreIndependent(setup.limit.value, all + [c], |all|);
    }
  }

  // ----- Whose answer is served ----------------------------------------------

  /** Event `i` began the request that was sent upstream as `p`. */
  ghost predicate SentAs<V>(setup: Setup<V>, events: seq<Event>, i: int, p: Pending) {
    0 <= i < |events| && events[i].Begin? &&
    OutcomeOf(setup, Run(setup, events[..i]), events[i].inbound, events[i].now, events[i].tick) == Forwarded(p)
  }

  lemma {:induction false} PrefixIsRun<V>(setup: Setup<V>, events: seq<Event>, j: nat)
    requires IsRun(setup, events) && j < |events|
    ensures IsRun(setup, events[..j]) && Enabled(Run(setup, events[..j]), events[j])
  {
    hide Enabled, Run;
    var before := events[..|events| - 1];
    if j < |before| {
      PrefixIsRun(setup, before, j);
      assert before[..j] == events[..j];
    }
  }

  lemma WaitsSince<V>(setup: Setup<V>, s: State<V>, e: Event, p: Pending)
    requires p in Step(setup, s, e).waiting && p.key.Some? && p !in s.waiting
    ensures e.Begin? && OutcomeOf(setup, s, e.inbound, e.now, e.tick) == Forwarded(p)
  {
    hide LookUp, Front, MaybeCacheKey, RowsAfter, EntriesAfter;
  }

  lemma {:induction false} WaitingWasSent<V>(setup: Setup<V>, events: seq<Event>, p: Pending)
    requires p in Run(setup, events).waiting && p.key.Some?
    ensures exists i :: SentAs(setup, events, i, p)
  {
    hide Step, OutcomeOf;
    if events != [] {
      var n := |events| - 1;
      var before := events[..n];
      if p in Run(setup, before).waiting {
        WaitingWasSent(setup, before, p);
        var i :| SentAs(setup, before, i, p);
        assert before[..i] == events[..i];
        assert SentAs(setup, events, i, p);
      } else {
        WaitsSince(setup, Run(setup, before), events[n], p);
        assert SentAs(setup, events, n, p);
      }
    }
  }

  /** What a request sent upstream carries, by the rules for tenants and keys. */
  lemma SentCarries<V>(setup: Setup<V>, events: seq<Event>, i: nat, p: Pending)
    requires SentAs(setup, events, i, p)
    ensures var inbound := events[i].inbound;
            p.canonical == inbound.canonical && (p.key.Some? <==> MayBeCached(setup, inbound)) &&
            p.tenant == (if setup.config.multiTenant || setup.config.allowed != {} then inbound.principal else "") &&
            (p.key.Some? ==> p.key.value == KeyFor(setup, inbound.canonical.value, p.tenant)) &&
            (setup.config.allowed == {} || inbound.principal in setup.config.allowed)
  {
    hide LookUp, KeyFor, Run;
    var e := events[i];
    var s := Run(setup, events[..i]);
    KeyIsGiven(setup, e.inbound, p.tenant);
    FrontRefuses(setup, s.calls, e.inbound, e.tick);
    LookUpForwards(setup, s.rows, s.entries, e.inbound, TenantOf(setup.config, e.inbound), e.now);
    RefusalsAreExact(setup, s.calls, e.inbound, e.tick);
  }

  /** Event `j` is a successful upstream answer that may be stored. */
  predicate IsKept(events: seq<Event>, j: int) {
    0 <= j < |events| && events[j].Finish? && events[j].p.key.Some? && 200 <= events[j].response.status < 300
  }

  /**
    * Nothing is stored, neither as a row nor in the index, but a success that the upstream gave to
    * an authorised request which may be cached: caching on, not streamed, not compacted, not refused by the policy.
    */
  lemma KeptWasAllowed<V>(setup: Setup<V>, events: seq<Event>, j: nat)
    requires IsRun(setup, events) && j < |events| && events[j].Finish?
    ensures !IsKept(events, j) ==>
              var s, s' := Run(setup, events[..j]), Run(setup, events[..j + 1]);
              s'.rows == s.rows && s'.entries == s.entries && s'.answers == s.answers
    ensures IsKept(events, j) ==>
              exists i :: 0 <= i < j && SentAs(setup, events, i, events[j].p) &&
                          events[i].Begin? && MayBeCached(setup, events[i].inbound) &&
                          (setup.config.allowed == {} || events[i].inbound.principal in setup.config.allowed)
  {
    hide SentAs, Run, Enabled, IsRun, KeyFor;
    PrefixIsRun(setup, events, j);
    assert events[..j + 1] == events[..j] + [events[j]];
    RunStep(setup, events[..j], events[j]);
    if IsKept(events, j) {
      FinishWaits(setup, events, j);
      WaitingWasSent(setup, events[..j], events[j].p);
      var i :| SentAs(setup, events[..j], i, events[j].p);
      SentBefore(setup, events, j, i, events[j].p);
      SentCarries(setup, events, i, events[j].p);
    }
  }

  lemma FinishWaits<V>(setup: Setup<V>, events: seq<Event>, j: nat)
    requires j < |events| && events[j].Finish? && Enabled(Run(setup, events[..j]), events[j])
    ensures events[j].p in Run(setup, events[..j]).waiting
  {
  }

  lemma SentBefore<V>(setup: Setup<V>, events: seq<Event>, j: nat, i: int, p: Pending)
    requires j <= |events| && SentAs(setup, events[..j], i, p)
    ensures 0 <= i < j && events[i].Begin? && SentAs(setup, events, i, p)
  {
    assert events[..j][..i] == events[..i] && events[..j][i] == events[i];
  }

  /**
    * The answer at event `j` to the request begun at event `i` is what is served: it is a success,
    * still alive, and given to the same principal, where principals are told apart, for the same model.
    */
  ghost predicate TracesTo<V>(setup: Setup<V>, events: seq<Event>, i: int, j: int, inbound: Inbound, served: Outcome, now: real)
    requires served.Served? && inbound.canonical.Some?
  {
    0 <= i < j < |events| && events[i].Begin? && events[j].Finish? && SentAs(setup, events, i, events[j].p) &&
    MayBeCached(setup, events[i].inbound) &&
    (setup.config.multiTenant || setup.config.allowed != {} ==> events[i].inbound.principal == inbound.principal) &&
    events[j].response == served.response && 200 <= served.response.status < 300 &&
    events[j].now <= now < events[j].now + setup.config.ttl as real &&
    events[i].inbound.canonical.value.model == inbound.canonical.value.model &&
    (served.kind == Hit ==> SaysTheSame(events[i].inbound.canonical.value, inbound.canonical.value, setup.dump))
  }

  /**
    * Whoever is served an answer may be: his request may be cached and he is allowed in, and the
    * answer is one the upstream gave, less than a time to live ago, to that principal himself
    * wherever principals are told apart; a hit answered a request that said the same.
    */
  lemma ServedTraces<V>(setup: Setup<V>, events: seq<Event>, inbound: Inbound, now: real, tick: real)
    requires IsCanonicalJson(setup.dumps) && IsRun(setup, events)
    requires Enabled(Run(setup, events), Begin(inbound, now, tick))
    requires OutcomeOf(setup, Run(setup, events), inbound, now, tick).Served?
    ensures inbound.routable && MayBeCached(setup, inbound) &&
            (setup.config.allowed == {} || inbound.principal in setup.config.allowed)
    ensures exists i, j :: TracesTo(setup, events, i, j, inbound, OutcomeOf(setup, Run(setup, events), inbound, now, tick), now)
  {
    hide LookUp, Front, Run, IsRun, Enabled, KeyFor, SaysTheSame, SentAs, AnswerHasOrigin;
    var s := Run(setup, events);
    var served := OutcomeOf(setup, s, inbound, now, tick);
    ServedMayBe(setup, s, inbound, now, tick);
    ServedAnswersAreReal(setup, events, inbound, now, tick);
    var a :| a in s.answers && Backs(setup, a, inbound, served.response, now) &&
             a.request.model == inbound.canonical.value.model &&
             (served.kind == Hit ==> SaysTheSame(a.request, inbound.canonical.value, setup.dump));
    AnswersHaveOrigins(setup, events);
    var j := OriginOf(setup, events, a);
    KeptWasAllowed(setup, events, j);
    var i :| 0 <= i < j && SentAs(setup, events, i, events[j].p) && events[i].Begin? && MayBeCached(setup, events[i].inbound);
    SentCarries(setup, events, i, events[j].p);
    assert TracesTo(setup, events, i, j, inbound, served, now);
  }

  lemma OriginOf<V>(setup: Setup<V>, events: seq<Event>, a: Answer) returns (j: nat)
    requires AnswerHasOrigin(setup, events, a) && IsSuccess(a.response)
    ensures IsKept(events, j) && events[j].response == a.response && events[j].now == a.at &&
            events[j].p.tenant == a.tenant && events[j].p.canonical == Some(a.request) && events[j].p.key == Some(a.key)
  {
    hide BeganAs;
    var i, k :| 0 <= i < k < |events| && events[k].Finish? && BeganAs(setup, events[i], events[k].p) &&
      events[k].response == a.response && events[k].now == a.at &&
      events[k].p.tenant == a.tenant && events[k].p.canonical == Some(a.request) && events[k].p.key == Some(a.key);
    j := k;
  }

  lemma ServedMayBe<V>(setup: Setup<V>, s: State<V>, inbound: Inbound, now: real, tick: real)
    requires OutcomeOf(setup, s, inbound, now, tick).Served?
    ensures inbound.routable && MayBeCached(setup, inbound) &&
            (setup.config.allowed == {} || inbound.principal in setup.config.allowed)
  {
    hide LookUp, Neighbour, Front;
    var tenant := TenantOf(setup.config, inbound);
    LookUpServes(setup, s.rows, s.entries, inbound, tenant, now);
    KeyIsGiven(setup, inbound, tenant);
    RefusalsAreExact(setup, s.calls, inbound, tick);
  }

  // ----- When a stored answer is served --------------------------------------

  /**
    * Whoever is let through with a request that may be cached is served the live row of his own
    * key, else the live row of the best neighbour in the index, else nothing; with any other
    * request he is always sent upstream, without a key.
    */
  lemma ServiceIsExact<V>(setup: Setup<V>, s: State<V>, inbound: Inbound, now: real, tick: real, tenant: string, near: int)
    requires Front(setup, s.calls, inbound, tick).1 == None
    requires tenant == if setup.config.multiTenant || setup.config.allowed != {} then inbound.principal else ""
    requires MayBeCached(setup, inbound) && setup.index.Some? ==>
               var index := setup.index.value;
               var vector := index.embed(RequestText(inbound.canonical.value, setup.dump));
               if 0 <= near < |s.entries| then
                 Similarity.IsBest(s.entries, index.cosine, index.threshold, vector, inbound.canonical.value.model, tenant, near)
               else forall i :: !Similarity.Candidate(s.entries, index.cosine, index.threshold, vector,
                                                      inbound.canonical.value.model, tenant, i)
    ensures var outcome := OutcomeOf(setup, s, inbound, now, tick);
            if !MayBeCached(setup, inbound) then outcome == Forwarded(Pending(tenant, None, inbound.canonical))
            else
              var key := KeyFor(setup, inbound.canonical.value, tenant);
              if key in s.rows && now < s.rows[key].expiresAt then outcome == Served(Hit, s.rows[key].value)
              else if setup.index.Some? && 0 <= near < |s.entries| && s.entries[near].key in s.rows &&
                      now < s.rows[s.entries[near].key].expiresAt then
                outcome == Served(Similar, s.rows[s.entries[near].key].value)
              else outcome == Forwarded(Pending(tenant, Some(key), inbound.canonical))
  {
    hide Front, Neighbour, KeyFor, MaybeCacheKey;
    KeyIsGiven(setup, inbound, tenant);
    if MayBeCached(setup, inbound) { NeighbourIs(setup, s.entries, inbound.canonical.value, tenant, near); }
  }

  lemma NeighbourIs<V>(setup: Setup<V>, entries: Entries<V>, r: Request, tenant: string, near: int)
    requires setup.index.Some? ==>
               var index := setup.index.value;
               var vector := index.embed(RequestText(r, setup.dump));
               if 0 <= near < |entries| then
                 Similarity.IsBest(entries, index.cosine, index.threshold, vector, r.model, tenant, near)
               else forall i :: !Similarity.Candidate(entries, index.cosine, index.threshold, vector, r.model, tenant, i)
    ensures Neighbour(setup, entries, r, tenant) ==
            if setup.index.Some? && 0 <= near < |entries| then Some(entries[near].key) else None
  {
    if setup.index.Some? {
      var index := setup.index.value;
      var vector := index.embed(RequestText(r, setup.dump));
      var best := Similarity.Best(entries, index.cosine, index.threshold, vector, r.model, tenant);
    }
  }

  lemma LookUpKeepsLiveRows<V>(setup: Setup<V>, rows: Rows, entries: Entries<V>, inbound: Inbound, tenant: string, now: real)
    ensures var rows' := LookUp(setup, rows, entries, inbound, tenant, now).0;
            forall key :: key in rows && now < rows[key].expiresAt ==> key in rows' && rows'[key] == rows[key]
  {
    hide Neighbour, MaybeCacheKey;
  }

  lemma StepKeepsRow<V>(setup: Setup<V>, s: State<V>, e: Event, key: CacheKey)
    requires Enabled(s, e) && key in s.rows && Step(setup, s, e).clock < s.rows[key].expiresAt
    requires e.Finish? && e.p.key.Some? && 200 <= e.response.status < 300 ==> e.p.key.value != key
    ensures s.clock <= Step(setup, s, e).clock
    ensures key in Step(setup, s, e).rows && Step(setup, s, e).rows[key] == s.rows[key]
  {
    hide Front, LookUp, MaybeCacheKey, EntriesAfter;
    if e.Begin? {
      LookUpKeepsLiveRows(setup, s.rows, s.entries, e.inbound, TenantOf(setup.config, e.inbound), e.now);
    }
  }

  lemma ClockSteps<V>(setup: Setup<V>, s: State<V>, e: Event)
    requires Enabled(s, e)
    ensures s.clock <= Step(setup, s, e).clock
    ensures e.Finish? ==> Step(setup, s, e).clock == e.now && Step(setup, s, e).rows == RowsAfter(setup, s.rows, e.p, e.response, e.now)
  {
    hide Front, LookUp, MaybeCacheKey, EntriesAfter, RowsAfter;
  }

  /** No later answer than the one at event `j` is stored under its key. */
  predicate IsLatest(events: seq<Event>, j: int) {
    IsKept(events, j) && forall m :: j < m < |events| && IsKept(events, m) ==> events[m].p.key != events[j].p.key
  }

  /** A stored answer keeps its row, whatever else is asked and answered, until it expires or is replaced. */
  lemma {:induction false} RowStays<V>(setup: Setup<V>, events: seq<Event>, j: nat)
    requires IsRun(setup, events) && IsLatest(events, j)
    requires Run(setup, events).clock < events[j].now + setup.config.ttl as real
    ensures var rows, key := Run(setup, events).rows, events[j].p.key.value;
            key in rows && rows[key] == Row(events[j].response, events[j].now, events[j].now + setup.config.ttl as real)
  {
    hide Step, Enabled;
    var n := |events| - 1;
    var before, e, key := events[..n], events[n], events[j].p.key.value;
    ClockSteps(setup, Run(setup, before), e);
    if j < n {
      assert forall m :: 0 <= m < n ==> IsKept(before, m) == IsKept(events, m);
      RowStays(setup, before, j);
      assert IsKept(events, n) ==> e.p.key.value != key;
      StepKeepsRow(setup, Run(setup, before), e, key);
    }
  }

  /**
    * Whoever repeats a request while its latest answer is alive is served that answer, unless he is
    * refused: the same principal where principals are told apart, anybody else otherwise.
    */
  lemma RepeatIsServed<V>(setup: Setup<V>, events: seq<Event>, i: nat, j: nat, inbound: Inbound, now: real, tick: real)
    requires IsCanonicalJson(setup.dumps) && IsRun(setup, events) && Enabled(Run(setup, events), Begin(inbound, now, tick))
    requires i < j < |events| && IsLatest(events, j) && SentAs(setup, events, i, events[j].p)
    requires MayBeCached(setup, inbound) && MayBeCached(setup, events[i].inbound)
    requires SaysTheSame(events[i].inbound.canonical.value, inbound.canonical.value, setup.dump)
    requires setup.config.multiTenant || setup.config.allowed != {} ==> events[i].inbound.principal == inbound.principal
    requires now < events[j].now + setup.config.ttl as real
    ensures var s := Run(setup, events);
            var refusal := Front(setup, s.calls, inbound, tick).1;
            OutcomeOf(setup, s, inbound, now, tick) ==
            if refusal.Some? then refusal.value else Served(Hit, events[j].response)
  {
    hide Run, IsRun, Front, LookUp, KeyFor, OutcomeOf, SaysTheSame, Enabled;
    var s, tenant := Run(setup, events), TenantOf(setup.config, inbound);
    BeginIsLater(setup, s, inbound, now, tick);
    SentCarries(setup, events, i, events[j].p);
    SameRequestSameKey(setup, events[i].inbound.canonical.value, inbound.canonical.value, tenant);
    RowStays(setup, events, j);
    OwnRowIsServed(setup, s, inbound, now, tick, tenant);
  }

  lemma SameRequestSameKey<V>(setup: Setup<V>, a: Request, b: Request, tenant: string)
    requires IsCanonicalJson(setup.dumps) && SaysTheSame(a, b, setup.dump)
    ensures KeyFor(setup, a, tenant) == KeyFor(setup, b, tenant)
  {
    KeyIsExact(a, b, setup.config.salt, tenant, tenant, setup.dump, setup.dumps);
  }

  lemma OwnRowIsServed<V>(setup: Setup<V>, s: State<V>, inbound: Inbound, now: real, tick: real, tenant: string)
    requires tenant == TenantOf(setup.config, inbound) && MayBeCached(setup, inbound)
    requires var key := KeyFor(setup, inbound.canonical.value, tenant); key in s.rows && now < s.rows[key].expiresAt
    ensures var refusal := Front(setup, s.calls, inbound, tick).1;
            OutcomeOf(setup, s, inbound, now, tick) ==
            if refusal.Some? then refusal.value else Served(Hit, s.rows[KeyFor(setup, inbound.canonical.value, tenant)].value)
  {
    hide Front, Neighbour, KeyFor, MaybeCacheKey;
    KeyIsGiven(setup, inbound, tenant);
  }

  // ----- The index over whole runs -------------------------------------------

  /** What the stored answers of a run put into the index, oldest first. */
  function Indexable<V>(setup: Setup<V>, events: seq<Event>): Entries<V>
    requires setup.index.Some?
  {
    if events == [] then []
    else
      var n := |events| - 1;
      Indexable(setup, events[..n]) +
      if IsKept(events, n) && events[n].p.canonical.Some? then
        var r := events[n].p.canonical.value;
        [Similarity.Entry(setup.index.value.embed(RequestText(r, setup.dump)), events[n].p.key.value, r.model, events[n].p.tenant)]
      else []
  }

  lemma RecentOfRecent<T>(items: seq<T>, x: T, max: nat)
    ensures Similarity.Recent(Similarity.Recent(items, max) + [x], max) == Similarity.Recent(items + [x], max)
  {
  }

  lemma EntriesStep<V>(setup: Setup<V>, s: State<V>, e: Event)
    ensures Step(setup, s, e).entries == if e.Finish? then EntriesAfter(setup, s.entries, e.p, e.response) else s.entries
  {
    hide Front, LookUp, MaybeCacheKey, EntriesAfter, RowsAfter;
  }

  /** The index holds what the most recent stored answers put there. */
  lemma {:induction false} IndexIsRecent<V>(setup: Setup<V>, events: seq<Event>)
    requires setup.index.Some?
    ensures Run(setup, events).entries == Similarity.Recent(Indexable(setup, events), setup.index.value.max)
    ensures var all, entries := Indexable(setup, events), Run(setup, events).entries;
            |entries| == (if |all| <= setup.index.value.max then |all| else setup.index.value.max) &&
            forall k :: 0 <= k < |entries| ==> entries[k] == all[|all| - |entries| + k]
  {
    hide Run, Indexable, Similarity.Recent;
    if events == [] {
      NothingIndexed(setup);
    } else {
      IndexIsRecent(setup, events[..|events| - 1]);
      IndexStep(setup, events);
    }
    RecentAre(Indexable(setup, events), setup.index.value.max);
  }

  lemma NothingIndexed<V>(setup: Setup<V>)
    requires setup.index.Some?
    ensures Run(setup, []).entries == Similarity.Recent(Indexable(setup, []), setup.index.value.max)
  {
  }

  lemma IndexStep<V>(setup: Setup<V>, events: seq<Event>)
    requires setup.index.Some? && events != []
    requires Run(setup, events[..|events| - 1]).entries ==
             Similarity.Recent(Indexable(setup, events[..|events| - 1]), setup.index.value.max)
    ensures Run(setup, events).entries == Similarity.Recent(Indexable(setup, events), setup.index.value.max)
  {
    hide Step, Similarity.Recent, RequestText;
    var n := |events| - 1;
    var before, all := Indexable(setup, events[..n]), Indexable(setup, events);
    EntriesStep(setup, Run(setup, events[..n]), events[n]);
    if IsKept(events, n) && events[n].p.canonical.Some? {
      assert all == before + [all[|before|]];
      RecentOfRecent(before, all[|before|], setup.index.value.max);
    } else {
      assert all == before;
    }
  }

  lemma RecentAre<T>(items: seq<T>, max: nat)
    ensures var recent := Similarity.Recent(items, max);
            |recent| == (if |items| <= max then |items| else max) &&
            forall k :: 0 <= k < |recent| ==> recent[k] == items[|items| - |recent| + k]
  {
  }

  /**
    * Whoever has no live answer of his own is served the answer of his best neighbour among the
    * most recently indexed, while that answer is the latest under its key and alive.
    */
  lemma NeighbourIsServed<V>(setup: Setup<V>, events: seq<Event>, near: nat, j: nat, inbound: Inbound, now: real, tick: real, tenant: string)
    requires IsRun(setup, events) && Enabled(Run(setup, events), Begin(inbound, now, tick))
    requires Front(setup, Run(setup, events).calls, inbound, tick).1 == None && MayBeCached(setup, inbound)
    requires tenant == if setup.config.multiTenant || setup.config.allowed != {} then inbound.principal else ""
    requires setup.index.Some? && j < |events| && IsLatest(events, j) && now < events[j].now + setup.config.ttl as real
    requires var index, entries := setup.index.value, Similarity.Recent(Indexable(setup, events), setup.index.value.max);
             near < |entries| && events[j].p.key.value == entries[near].key &&
             Similarity.IsBest(entries, index.cosine, index.threshold, index.embed(RequestText(inbound.canonical.value, setup.dump)),
                               inbound.canonical.value.model, tenant, near)
    requires forall m :: IsKept(events, m) && events[m].p.key.value == KeyFor(setup, inbound.canonical.value, tenant) ==>
               events[m].now + setup.config.ttl as real <= now
    ensures OutcomeOf(setup, Run(setup, events), inbound, now, tick) == Served(Similar, events[j].response)
  {
    hide Run, IsRun, Front, KeyFor, OutcomeOf, Enabled, Similarity.Recent, Similarity.IsBest, RequestText, Indexable, IsKept;
    var s, key := Run(setup, events), KeyFor(setup, inbound.canonical.value, tenant);
    BeginIsLater(setup, s, inbound, now, tick);
    IndexIsRecent(setup, events);
    RowStays(setup, events, j);
    OwnRowIsDead(setup, events, key, now);
    ServiceIsExact(setup, s, inbound, now, tick, tenant, near);
  }

  lemma OwnRowIsDead<V>(setup: Setup<V>, events: seq<Event>, key: CacheKey, now: real)
    requires IsRun(setup, events)
    requires forall m :: IsKept(events, m) && events[m].p.key.value == key ==> events[m].now + setup.config.ttl as real <= now
    ensures key in Run(setup, events).rows ==> Run(setup, events).rows[key].expiresAt <= now
  {
    hide Run, IsRun, KeyFor, AnswerHasOrigin;
    var s := Run(setup, events);
    EveryStateKeepsInvariant(setup, events);
    AnswersHaveOrigins(setup, events);
    if key in s.rows {
      var a :| a in s.answers && RowIsAnswer(setup, key, s.rows[key], a);
      assert AnswerIsReal(setup, a, s.clock);
      var j := OriginOf(setup, events, a);
    }
  }

  // ----- Which runs there are ------------------------------------------------

  /** Event `i` is let through to the upstream, and waits there as `p`. */
  ghost predicate GoesOut<V>(setup: Setup<V>, events: seq<Event>, i: nat, p: Pending)
    requires i < |events|
  {
    var s := Run(setup, events[..i]);
    match events[i]
    case Begin(inbound, now, tick) => OutcomeOf(setup, s, inbound, now, tick) == Forwarded(p)
    case Finish(_, _, _) => false
    case Stream(inbound, tick) =>
      Front(setup, s.calls, inbound, tick).1 == None &&
      p == Pending(if setup.config.multiTenant || setup.config.allowed != {} then inbound.principal else "", None, inbound.canonical)
  }

  ghost function TimesSent<V>(setup: Setup<V>, events: seq<Event>, p: Pending): nat {
    if events == [] then 0
    else TimesSent(setup, events[..|events| - 1], p) + (if GoesOut(setup, events, |events| - 1, p) then 1 else 0)
  }

  function TimesAnswered(events: seq<Event>, p: Pending): nat {
    if events == [] then 0
    else
      var e := events[|events| - 1];
      TimesAnswered(events[..|events| - 1], p) + (if e.Finish? && e.p == p then 1 else 0)
  }

  lemma WaitingStep<V>(setup: Setup<V>, events: seq<Event>, p: Pending)
    requires events != [] && Enabled(Run(setup, events[..|events| - 1]), events[|events| - 1])
    ensures var n := |events| - 1;
            Run(setup, events).waiting[p] + (if events[n].Finish? && events[n].p == p then 1 else 0) ==
            Run(setup, events[..n]).waiting[p] + (if GoesOut(setup, events, n, p) then 1 else 0)
  {
    hide LookUp, Front, MaybeCacheKey, RowsAfter, EntriesAfter;
    var n := |events| - 1;
    var s := Run(setup, events[..n]);
    match events[n]
    case Begin(inbound, now, tick) =>
      FrontRefuses(setup, s.calls, inbound, tick);
      LookUpForwards(setup, s.rows, s.entries, inbound, TenantOf(setup.config, inbound), now);
    case Finish(_, _, _) =>
    case Stream(inbound, tick) =>
  }

  /** Who waits upstream was sent more often than answered. */
  lemma {:induction false} WaitingCounts<V>(setup: Setup<V>, events: seq<Event>, p: Pending)
    requires IsRun(setup, events)
    ensures Run(setup, events).waiting[p] + TimesAnswered(events, p) == TimesSent(setup, events, p)
  {
    hide Run, Enabled, GoesOut;
    if events == [] {
      NobodyWaits(setup, p);
    } else {
      WaitingCounts(setup, events[..|events| - 1], p);
      WaitingStep(setup, events, p);
    }
  }

  lemma NobodyWaits<V>(setup: Setup<V>, p: Pending)
    ensures Run(setup, []).waiting[p] == 0
  {
  }

  lemma ClocksStep<V>(setup: Setup<V>, s: State<V>, e: Event)
    ensures Step(setup, s, e).clock == if e.Stream? then s.clock else e.now
    ensures Step(setup, s, e).ticks == if e.Finish? then s.ticks else e.tick
  {
    hide LookUp, Front, MaybeCacheKey, RowsAfter, EntriesAfter;
  }

  /** The clocks stand at the latest time any event so far has read from them. */
  lemma {:induction false} ClocksAre<V>(setup: Setup<V>, events: seq<Event>, t: real)
    requires IsRun(setup, events)
    ensures Run(setup, events).clock <= t <==> 0.0 <= t && forall e <- events :: !e.Stream? ==> e.now <= t
    ensures Run(setup, events).ticks <= t <==> 0.0 <= t && forall e <- events :: !e.Finish? ==> e.tick <= t
  {
    hide Step, Enabled;
    if events != [] {
      var before, last := events[..|events| - 1], events[|events| - 1];
      ClocksAre(setup, before, t);
      ClocksStep(setup, Run(setup, before), last);
      EnabledLater(Run(setup, before), last);
      assert events == before + [last];
      assert forall e :: e in events <==> e in before || e == last;
      assert Run(setup, events) == Step(setup, Run(setup, before), last);
    }
  }

  lemma EnabledLater<V>(s: State<V>, e: Event)
    requires Enabled(s, e)
    ensures !e.Stream? ==> s.clock <= e.now
    ensures !e.Finish? ==> s.ticks <= e.tick
  {
  }

  /**
    * A run goes on with anything that steps neither clock back: any request at any time, and an
    * answer for whoever was sent upstream more often than answered.
    */
  lemma RunGoesOn<V>(setup: Setup<V>, events: seq<Event>, e: Event)
    requires IsRun(setup, events)
    ensures IsRun(setup, events + [e]) <==>
            (!e.Stream? ==> 0.0 <= e.now && forall b <- events :: !b.Stream? ==> b.now <= e.now) &&
            (!e.Finish? ==> 0.0 <= e.tick && forall b <- events :: !b.Finish? ==> b.tick <= e.tick) &&
            (e.Finish? ==> TimesAnswered(events, e.p) < TimesSent(setup, events, e.p))
  {
    hide Run;
    assert (events + [e])[..|events|] == events;
    if !e.Stream? { ClocksAre(setup, events, e.now); }
    if !e.Finish? { ClocksAre(setup, events, e.tick); }
    if e.Finish? { WaitingCounts(setup, events, e.p); }
  }

  // ----- What a principal may send -------------------------------------------

  /**
    * The steps between `from` and `to` that let a request of this principal through to the upstream;
    * where principals are not told apart, of anybody.
    */
  ghost function SentBy<V>(setup: Setup<V>, events: seq<Event>, principal: string, from: real, to: real): set<nat> {
    set i: nat | i < |events| && !events[i].Finish? && from <= events[i].tick <= to && (exists p :: GoesOut(setup, events, i, p)) &&
      (setup.config.multiTenant || setup.config.allowed != {} ==> events[i].inbound.principal == principal)
  }

  /** The admitted checks of a key between `from` and `to`. */
  function AdmittedBetween(limit: Quota.RateLimit, calls: seq<Quota.Call>, key: string, from: real, to: real): set<nat> {
    set k: nat | k < |calls| && calls[k].key == key && from <= calls[k].at <= to && Quota.Allowed(limit, calls, k)
  }

  lemma MoreAdmitted(limit: Quota.RateLimit, calls: seq<Quota.Call>, c: Quota.Call, key: string, from: real, to: real)
    ensures |AdmittedBetween(limit, calls + [c], key, from, to)| ==
            |AdmittedBetween(limit, calls, key, from, to)| +
            if c.key == key && from <= c.at <= to && Quota.Allowed(limit, calls + [c], |calls|) then 1 else 0
  {
    hide Quota.Allowed;
    var more, before, all := calls + [c], AdmittedBetween(limit, calls, key, from, to), AdmittedBetween(limit, calls + [c], key, from, to);
    forall k: nat | k < |calls| ensures more[k] == calls[k] && Quota.Allowed(limit, more, k) == Quota.Allowed(limit, calls, k) {
      AllowedInPrefix(limit, calls, c, k);
    }
    assert all == before + if |calls| in all then {|calls|} else {};
  }

  lemma SentEarlier<V>(setup: Setup<V>, events: seq<Event>, i: nat, principal: string, from: real, to: real)
    requires i + 1 < |events|
    ensures i in SentBy(setup, events, principal, from, to) <==> i in SentBy(setup, events[..|events| - 1], principal, from, to)
  {
    var before := events[..|events| - 1];
    assert before[..i] == events[..i] && before[i] == events[i];
    assert forall p :: GoesOut(setup, before, i, p) == GoesOut(setup, events, i, p);
  }

  /** Who goes out was just admitted. */
  lemma GoesOutAdmitted<V>(setup: Setup<V>, events: seq<Event>, i: nat, p: Pending)
    requires i < |events| && GoesOut(setup, events, i, p) && setup.limit.Some?
    ensures var e, calls := events[i], Run(setup, events[..i]).calls;
            var c := Quota.Call(if setup.config.multiTenant || setup.config.allowed != {} then e.inbound.principal else "", e.tick);
            Step(setup, Run(setup, events[..i]), e).calls == calls + [c] && Quota.Allowed(setup.limit.value, calls + [c], |calls|)
  {
    hide LookUp, Front, Quota.Allowed, RowsAfter, EntriesAfter, MaybeCacheKey;
    var e, s := events[i], Run(setup, events[..i]);
    CallsAfter(setup, s, e);
    RefusalsAreExact(setup, s.calls, e.inbound, e.tick);
    if e.Begin? { LookUpForwards(setup, s.rows, s.entries, e.inbound, TenantOf(setup.config, e.inbound), e.now); }
  }

  lemma OneMoreSent<V>(setup: Setup<V>, events: seq<Event>, principal: string, from: real, to: real)
    requires events != []
    ensures var n := |events| - 1;
            |SentBy(setup, events, principal, from, to)| ==
            |SentBy(setup, events[..n], principal, from, to)| + if n in SentBy(setup, events, principal, from, to) then 1 else 0
  {
    hide GoesOut;
    var n := |events| - 1;
    var sent, earlier := SentBy(setup, events, principal, from, to), SentBy(setup, events[..n], principal, from, to);
    forall i: nat | i < n ensures i in sent <==> i in earlier { SentEarlier(setup, events, i, principal, from, to); }
    assert sent == earlier + if n in sent then {n} else {};
  }

  /** Whatever a step does to the checks, no admission is forgotten, and one that lets a request out is added. */
  lemma OneMoreAdmitted<V>(setup: Setup<V>, events: seq<Event>, principal: string, from: real, to: real)
    requires events != [] && setup.limit.Some?
    ensures var key, n := if setup.config.multiTenant || setup.config.allowed != {} then principal else "", |events| - 1;
            |AdmittedBetween(setup.limit.value, Run(setup, events).calls, key, from, to)| >=
            |AdmittedBetween(setup.limit.value, Run(setup, events[..n]).calls, key, from, to)| +
            if n in SentBy(setup, events, principal, from, to) then 1 else 0
  {
    hide Step, GoesOut, AdmittedBetween, Quota.Allowed;
    var key, n := if setup.config.multiTenant || setup.config.allowed != {} then principal else "", |events| - 1;
    var calls, calls' := Run(setup, events[..n]).calls, Run(setup, events).calls;
    CallsAfter(setup, Run(setup, events[..n]), events[n]);
    if n in SentBy(setup, events, principal, from, to) {
      var p :| GoesOut(setup, events, n, p);
      GoesOutAdmitted(setup, events, n, p);
    }
    if calls' != calls { MoreAdmitted(setup.limit.value, calls, calls'[|calls|], key, from, to); }
  }

  lemma {:induction false} SentWereAdmitted<V>(setup: Setup<V>, events: seq<Event>, principal: string, from: real, to: real)
    requires setup.limit.Some?
    ensures var key := if setup.config.multiTenant || setup.config.allowed != {} then principal else "";
            |SentBy(setup, events, principal, from, to)| <=
            |AdmittedBetween(setup.limit.value, Run(setup, events).calls, key, from, to)|
  {
    hide Run, GoesOut, AdmittedBetween;
    if events == [] {
      assert SentBy(setup, events, principal, from, to) == {};
    } else {
      SentWereAdmitted(setup, events[..|events| - 1], principal, from, to);
      OneMoreSent(setup, events, principal, from, to);
      OneMoreAdmitted(setup, events, principal, from, to);
    }
  }

  /**
    * With a limit per minute, any `minutes` of any run let through to the upstream at most the burst,
    * or without one the rate, and the rate for every minute: of each principal where they are told
    * apart, in all otherwise.
    */
  lemma PrincipalBudget<V>(setup: Setup<V>, events: seq<Event>, principal: string, rate: real, burst: real, from: real, minutes: real)
    requires IsRun(setup, events) && setup.limit == Some(Quota.PerMinute(rate, burst)) && rate >= 0.0 && minutes >= 0.0
    ensures var sent := set i: nat | i < |events| && !events[i].Finish? && from <= events[i].tick <= from + 60.0 * minutes &&
                            (exists p :: GoesOut(setup, events, i, p)) &&
                            (setup.config.multiTenant || setup.config.allowed != {} ==> events[i].inbound.principal == principal);
            |sent| as real <= (if burst > 0.0 then burst else rate) + rate * minutes
  {
    hide Quota.PerMinute, IsRun, Run, GoesOut;
    SentByBudget(setup, events, principal, rate, burst, from, minutes);
  }

  lemma SentByBudget<V>(setup: Setup<V>, events: seq<Event>, principal: string, rate: real, burst: real, from: real, minutes: real)
    requires IsRun(setup, events) && setup.limit == Some(Quota.PerMinute(rate, burst)) && rate >= 0.0 && minutes >= 0.0
    ensures |SentBy(setup, events, principal, from, from + 60.0 * minutes)| as real <=
            (if burst > 0.0 then burst else rate) + rate * minutes
  {
    hide Quota.PerMinute, IsRun, Run, SentBy;
    var i, n := SentWithinChecks(setup, events, principal, from, from + 60.0 * minutes);
    var key := if setup.config.multiTenant || setup.config.allowed != {} then principal else "";
    Quota.PerMinuteBound(rate, burst, Run(setup, events).calls, key, i, n, from, minutes);
  }

  /** The checks between two times, and that no more were sent than they admitted. */
  lemma SentWithinChecks<V>(setup: Setup<V>, events: seq<Event>, principal: string, from: real, to: real) returns (i: nat, n: nat)
    requires IsRun(setup, events) && setup.limit.Some? && from <= to
    ensures var key := if setup.config.multiTenant || setup.config.allowed != {} then principal else "";
            var calls := Run(setup, events).calls;
            Quota.Monotone(calls) && i <= n <= |calls| && (forall k :: i <= k < n ==> from <= calls[k].at <= to) &&
            |SentBy(setup, events, principal, from, to)| <= Quota.Admitted(setup.limit.value, calls, key, i, n)
  {
    hide Quota.Allowed, IsRun, Run, SentBy, Quota.Admitted;
    var limit, calls := setup.limit.value, Run(setup, events).calls;
    var key := if setup.config.multiTenant || setup.config.allowed != {} then principal else "";
    EverySentWasAllowed(setup, events);
    SentWereAdmitted(setup, events, principal, from, to);
    i, n := FirstAt(calls, from, false), FirstAt(calls, to, true);
    assert i <= n;
    CountAdmitted(limit, calls, key, i, n, AdmittedBetween(limit, calls, key, from, to));
  }
}
