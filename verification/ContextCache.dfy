/**
  * The registrar of paid context caches (`parcus.cache.context_cache`). `ensure` is suspended
  * while the provider creates a cache, so it is modelled as a step before and a step after.
  */
module ContextCache {
  import opened Requests

  /** SHA-256 as an ideal hash: equal digests come from equal texts. */
  datatype Digest = Sha256(text: string)

  datatype HandleKey = HandleKey(credential: Digest, model: string, prefix: Digest)

  datatype Handle = Handle(name: string, model: string, expiresAt: real) {
    predicate IsExpired(now: real) {
      now >= expiresAt
    }
  }

  type Handles = map<HandleKey, Handle>

  const PRUNE_FACTOR: nat := 4

  datatype Config = Config(ttl: int, maxEntries: int)

  /** What a caller asks a cache for. */
  datatype Ask = Ask(prefix: string, model: Option<string>, credential: string) {
    /** `model or ""`. */
    function ModelName(): string {
      if model.Some? then model.value else ""
    }

    function Key(): HandleKey {
      HandleKey(Sha256(credential), ModelName(), Sha256(prefix))
    }
  }

  /** A call suspended in `create`: what it asked for and the time it read before suspending. */
  datatype Ticket = Ticket(ask: Ask, now: real)

  /** A cache the provider did create. */
  datatype Created = Created(ticket: Ticket, name: string) {
    function Held(c: Config): Handle {
      Handle(name, ticket.ask.ModelName(), ticket.now + c.ttl as real)
    }
  }

  /** The outcome of the first step: a live handle, send inline, or suspended in `create`. */
  datatype Outcome = Reuse(handle: Handle) | Inline | Creating(ticket: Ticket)

  // ----- The steps -----------------------------------------------------------

  function Live(handles: Handles, now: real): set<HandleKey> {
    set k | k in handles && !handles[k].IsExpired(now)
  }

  function Pruned(handles: Handles, now: real): Handles {
    map k | k in handles && !handles[k].IsExpired(now) :: handles[k]
  }

  /** The handle map after the first step of `ensure`, and its outcome. */
  function Begin(c: Config, handles: Handles, ask: Ask, now: real): (Handles, Outcome) {
    var kept := if |handles| > c.maxEntries * PRUNE_FACTOR then Pruned(handles, now) else handles;
    var key := ask.Key();
    if key in kept && !kept[key].IsExpired(now) then (kept, Reuse(kept[key]))
    else
      var rest := kept - {key};
      (rest, if |Live(rest, now)| >= c.maxEntries then Inline else Creating(Ticket(ask, now)))
  }

  /** The handle map after the second step, when the provider answered with a name. */
  function Finish(c: Config, handles: Handles, made: Created): Handles {
    handles[made.ticket.ask.Key() := made.Held(c)]
  }

  class GeminiContextCacheRegistrar {
    const config: Config
    var handles: Handles

    constructor (config: Config)
      ensures this.config == config && handles == map[]
    {
      this.config := config;
      handles := map[];
    }

    method LiveCount(now: real) returns (count: nat)
      ensures count == |Live(handles, now)|
    {
      count := 0;
      var keys := handles.Keys;
      assert Live(handles, now) - keys == {};
      while keys != {}
        invariant keys <= handles.Keys
        invariant count == |Live(handles, now) - keys|
        decreases keys
      {
        var k :| k in keys;
        if !handles[k].IsExpired(now) {
          count := count + 1;
          assert Live(handles, now) - (keys - {k}) == (Live(handles, now) - keys) + {k};
        } else {
          assert Live(handles, now) - (keys - {k}) == Live(handles, now) - keys;
        }
        keys := keys - {k};
      }
      assert Live(handles, now) - keys == Live(handles, now);
    }

    method Prune(now: real)
      modifies this`handles
      ensures handles == Pruned(old(handles), now)
    {
      var expired := set k | k in handles && handles[k].IsExpired(now);
      while expired != {}
        invariant forall k :: k in expired <==> k in handles && handles[k].IsExpired(now)
        invariant Pruned(handles, now) == Pruned(old(handles), now)
        decreases expired
      {
        var k :| k in expired;
        handles := handles - {k};
        expired := expired - {k};
      }
      assert Pruned(handles, now) == handles;
    }

    method EvictExpired(now: real)
      modifies this`handles
      ensures handles == Pruned(old(handles), now)
    {
      Prune(now);
    }

    /** `ensure` up to the `await`. */
    method EnsureBegin(ask: Ask, now: real) returns (outcome: Outcome)
      modifies this`handles
      ensures (handles, outcome) == Begin(config, old(handles), ask, now)
    {
      if |handles| > config.maxEntries * PRUNE_FACTOR {
        Prune(now);
      }
      var key := ask.Key();
      if key in handles && !handles[key].IsExpired(now) {
        return Reuse(handles[key]);
      }
      handles := handles - {key};
      var live := LiveCount(now);
      if live >= config.maxEntries {
        return Inline;
      }
      return Creating(Ticket(ask, now));
    }

    /** `ensure` after the `await`; a failed `create` leaves the map alone and sends inline. */
    method EnsureFinish(ticket: Ticket, name: Option<string>) returns (handle: Option<Handle>)
      modifies this`handles
      ensures name.None? ==> handle.None? && handles == old(handles)
      ensures name.Some? ==>
                var made := Created(ticket, name.value);
                handle == Some(made.Held(config)) && handles == Finish(config, old(handles), made)
    {
      if name.None? {
        return None;
      }
      var made := Handle(name.value, ticket.ask.ModelName(), ticket.now + config.ttl as real);
      handles := handles[ticket.ask.Key() := made];
      return Some(made);
    }
  }

  // ----- Interleaved runs ----------------------------------------------------

  /** What happens to the registrar: a call starts, a suspended call resumes, or handles are evicted. */
  datatype Event =
    | Started(ask: Ask, now: real)
    | Resumed(ticket: Ticket, name: Option<string>)
    | Evicted(now: real)

  /** The map, the calls suspended in `create`, the caches created so far, and the clock. */
  datatype State = State(handles: Handles, pending: multiset<Ticket>, created: seq<Created>, clock: real)

  const START: State := State(map[], multiset{}, [], 0.0)

  /** The event can happen: the clock does not step back, and only suspended calls resume. */
  predicate Enabled(s: State, e: Event) {
    match e
    case Started(_, now) => s.clock <= now
    case Resumed(ticket, _) => ticket in s.pending
    case Evicted(now) => s.clock <= now
  }

  function Step(c: Config, s: State, e: Event): State {
    match e
    case Started(ask, now) =>
      var (handles, outcome) := Begin(c, s.handles, ask, now);
      s.(handles := handles, clock := now,
         pending := if outcome.Creating? then s.pending + multiset{outcome.ticket} else s.pending)
    case Resumed(ticket, name) =>
      var rest := s.(pending := s.pending - multiset{ticket});
      if name.None? then rest
      else
        var made := Created(ticket, name.value);
        rest.(handles := Finish(c, s.handles, made), created := s.created + [made])
    case Evicted(now) => s.(handles := Pruned(s.handles, now), clock := now)
  }

  function RunFrom(c: Config, s: State, events: seq<Event>): State
    decreases |events|
  {
    if events == [] then s else RunFrom(c, Step(c, s, events[0]), events[1..])
  }

  /** Every event is enabled, and no more than `p` calls are ever suspended at once. */
  predicate RunsWithin(c: Config, s: State, events: seq<Event>, p: nat)
    decreases |events|
  {
    |s.pending| <= p &&
    (events == [] || (Enabled(s, events[0]) && RunsWithin(c, Step(c, s, events[0]), events[1..], p)))
  }

  /** Every handle in the map was created under its own key. */
  predicate HandlesAreOwn(c: Config, handles: Handles, created: seq<Created>) {
    forall k :: k in handles ==> exists m <- created :: m.ticket.ask.Key() == k && handles[k] == m.Held(c)
  }

  /** The bounds kept with at most `p` calls suspended. */
  predicate Bounded(c: Config, s: State, p: nat) {
    |Live(s.handles, s.clock)| + |s.pending| <= c.maxEntries - 1 + p &&
    |s.handles| + |s.pending| <= c.maxEntries * PRUNE_FACTOR + p &&
    HandlesAreOwn(c, s.handles, s.created)
  }

  lemma SubmapIsSmaller(a: Handles, b: Handles)
    requires a.Keys <= b.Keys
    ensures |a| <= |b|
  {
    SubsetIsSmaller(a.Keys, b.Keys);
  }

  lemma SubsetIsSmaller<T>(a: set<T>, b: set<T>)
    requires a <= b
    ensures |a| <= |b|
  {
    assert b == a + (b - a);
  }

  /** Time passing, pruning and forgetting handles only shrink what is live. */
  lemma LiveShrinks(a: Handles, b: Handles, now: real, later: real)
    requires now <= later && b.Keys <= a.Keys && forall k :: k in b ==> b[k] == a[k]
    ensures Live(b, later) <= Live(a, now) && |Live(b, later)| <= |Live(a, now)| && |b| <= |a|
  {
    SubsetIsSmaller(Live(b, later), Live(a, now));
    SubmapIsSmaller(b, a);
  }

  lemma PruneKeeps(c: Config, handles: Handles, now: real)
    ensures var kept := if |handles| > c.maxEntries * PRUNE_FACTOR then Pruned(handles, now) else handles;
            kept.Keys <= handles.Keys && (forall k :: k in kept ==> kept[k] == handles[k]) &&
            (forall k :: k in handles && !handles[k].IsExpired(now) ==> k in kept) &&
            (|handles| > c.maxEntries * PRUNE_FACTOR ==> forall k :: k in kept ==> !kept[k].IsExpired(now))
  {
  }

  lemma AllLive(handles: Handles, now: real)
    requires forall k :: k in handles ==> !handles[k].IsExpired(now)
    ensures |handles| <= |Live(handles, now)|
  {
    assert forall k :: k in handles ==> k in Live(handles, now);
    SubsetIsSmaller(handles.Keys, Live(handles, now));
  }

  /** The map after the first step holds old handles only, and is pruned when it was too large. */
  lemma BeginKeeps(c: Config, handles: Handles, ask: Ask, now: real)
    ensures var (rest, outcome) := Begin(c, handles, ask, now);
            rest.Keys <= handles.Keys && (forall k :: k in rest ==> rest[k] == handles[k]) &&
            (forall k :: k in handles && !handles[k].IsExpired(now) ==> k in rest) &&
            (|handles| > c.maxEntries * PRUNE_FACTOR ==> |rest| <= |Live(rest, now)|) &&
            (outcome.Creating? ==> |Live(rest, now)| < c.maxEntries &&
                                   ask.Key() !in rest && outcome.ticket == Ticket(ask, now))
  {
    hide Live, Pruned;
    PruneKeeps(c, handles, now);
    var (rest, outcome) := Begin(c, handles, ask, now);
    if |handles| > c.maxEntries * PRUNE_FACTOR { AllLive(rest, now); }
  }

  lemma FinishAddsOne(c: Config, handles: Handles, made: Created, now: real)
    ensures |Live(Finish(c, handles, made), now)| <= |Live(handles, now)| + 1
    ensures |Finish(c, handles, made)| <= |handles| + 1
  {
    var key, after := made.ticket.ask.Key(), Finish(c, handles, made);
    SubsetIsSmaller(Live(after, now), Live(handles, now) + {key});
    SubsetIsSmaller(after.Keys, handles.Keys + {key});
  }

  lemma StepKeepsOwn(c: Config, s: State, e: Event)
    requires HandlesAreOwn(c, s.handles, s.created)
    ensures HandlesAreOwn(c, Step(c, s, e).handles, Step(c, s, e).created)
  {
    match e
    case Started(ask, now) =>
      BeginKeeps(c, s.handles, ask, now);
    case Resumed(ticket, name) =>
      if name.Some? {
        var made := Created(ticket, name.value);
        var handles, created := Finish(c, s.handles, made), s.created + [made];
        forall k | k in handles ensures exists m <- created :: m.ticket.ask.Key() == k && handles[k] == m.Held(c) {
          if k == ticket.ask.Key() {
            assert made in created;
          } else {
            var m :| m in s.created && m.ticket.ask.Key() == k && s.handles[k] == m.Held(c);
            assert m in created;
          }
        }
      }
    case Evicted(now) =>
  }

  lemma StartKeepsBounds(c: Config, s: State, ask: Ask, now: real, p: nat)
    requires Bounded(c, s, p) && s.clock <= now
    ensures var s' := Step(c, s, Started(ask, now));
            |s'.pending| <= p ==>
              |Live(s'.handles, s'.clock)| + |s'.pending| <= c.maxEntries - 1 + p &&
              |s'.handles| + |s'.pending| <= c.maxEntries * PRUNE_FACTOR + p
  {
    hide HandlesAreOwn, Begin, Live;
    var (rest, outcome) := Begin(c, s.handles, ask, now);
    BeginKeeps(c, s.handles, ask, now);
    LiveShrinks(s.handles, rest, s.clock, now);
  }

  /** Every step keeps both bounds. */
  lemma StepKeepsBounds(c: Config, s: State, e: Event, p: nat)
    requires c.maxEntries >= 1 && Bounded(c, s, p) && Enabled(s, e) && |Step(c, s, e).pending| <= p
    ensures Bounded(c, Step(c, s, e), p)
  {
    hide HandlesAreOwn, Begin, Live, Finish, Pruned;
    StepKeepsOwn(c, s, e);
    match e
    case Started(ask, now) => StartKeepsBounds(c, s, ask, now, p);
    case Resumed(ticket, name) =>
      if name.Some? { FinishAddsOne(c, s.handles, Created(ticket, name.value), s.clock); }
    case Evicted(now) =>
      PrunedIsPart(s.handles, now);
      LiveShrinks(s.handles, Pruned(s.handles, now), s.clock, now);
  }

  lemma PrunedIsPart(handles: Handles, now: real)
    ensures var kept := Pruned(handles, now);
            kept.Keys <= handles.Keys && forall k :: k in kept ==> kept[k] == handles[k]
  {
  }

  /** With at most `p` calls suspended, however they interleave, both bounds hold throughout. */
  lemma {:induction false} InterleavedBounds(c: Config, s: State, events: seq<Event>, p: nat)
    requires c.maxEntries >= 1 && Bounded(c, s, p) && RunsWithin(c, s, events, p)
    ensures Bounded(c, RunFrom(c, s, events), p)
    decreases |events|
  {
    if events != [] {
      StepKeepsBounds(c, s, events[0], p);
      InterleavedBounds(c, Step(c, s, events[0]), events[1..], p);
    }
  }

  /** A registrar starts within its bounds. */
  lemma StartIsBounded(c: Config, p: nat)
    requires c.maxEntries >= 1
    ensures Bounded(c, START, p)
  {
    assert Live(START.handles, START.clock) == {};
  }

  /** A reused handle is live and was created for the same credential, model and prefix. */
  lemma ReusedHandleIsOwn(c: Config, s: State, ask: Ask, now: real)
    requires HandlesAreOwn(c, s.handles, s.created) && Begin(c, s.handles, ask, now).1.Reuse?
    ensures var handle := Begin(c, s.handles, ask, now).1.handle;
            handle.model == ask.ModelName() && !handle.IsExpired(now) &&
            exists m <- s.created ::
              m.ticket.ask.credential == ask.credential && m.ticket.ask.prefix == ask.prefix &&
              m.ticket.ask.ModelName() == ask.ModelName() && handle == m.Held(c)
  {
    BeginKeeps(c, s.handles, ask, now);
    var k := ask.Key();
    var m :| m in s.created && m.ticket.ask.Key() == k && s.handles[k] == m.Held(c);
  }

  // ----- What a call is answered ---------------------------------------------

  /**
    * A cache the provider created for this credential, model name and prefix, unexpired at `now`
    * and still in the map.
    */
  predicate IsHeld(c: Config, s: State, ask: Ask, now: real, m: Created) {
    var model := if ask.model.Some? then ask.model.value else "";
    var key := HandleKey(Sha256(ask.credential), model, Sha256(ask.prefix));
    m in s.created && m.ticket.ask.credential == ask.credential && m.ticket.ask.prefix == ask.prefix &&
    (if m.ticket.ask.model.Some? then m.ticket.ask.model.value else "") == model &&
    now < m.ticket.now + c.ttl as real &&
    key in s.handles && s.handles[key] == Handle(m.name, model, m.ticket.now + c.ttl as real)
  }

  lemma {:induction false} HandlesStayOwn(c: Config, s: State, events: seq<Event>)
    requires HandlesAreOwn(c, s.handles, s.created)
    ensures HandlesAreOwn(c, RunFrom(c, s, events).handles, RunFrom(c, s, events).created)
    decreases |events|
  {
    hide HandlesAreOwn, Step;
    if events != [] {
      StepKeepsOwn(c, s, events[0]);
      HandlesStayOwn(c, Step(c, s, events[0]), events[1..]);
    }
  }

  /**
    * In every reachable state a call is answered with a cache exactly when one created for its
    * credential, model name and prefix is unexpired and held; otherwise it is sent inline exactly
    * when the unexpired handles number the cap or more, and else creates a cache of its own.
    */
  lemma OutcomeIsExact(c: Config, events: seq<Event>, ask: Ask, now: real)
    ensures var s := RunFrom(c, START, events);
            var outcome := Begin(c, s.handles, ask, now).1;
            (forall m :: IsHeld(c, s, ask, now, m) ==>
              outcome == Reuse(Handle(m.name, if ask.model.Some? then ask.model.value else "", m.ticket.now + c.ttl as real))) &&
            ((forall m :: !IsHeld(c, s, ask, now, m)) ==>
              outcome == if |set k | k in s.handles && now < s.handles[k].expiresAt| >= c.maxEntries then Inline
                         else Creating(Ticket(ask, now)))
  {
    hide RunFrom, Begin, IsHeld;
    var s := RunFrom(c, START, events);
    HandlesStayOwn(c, START, events);
    OutcomeByKey(c, s.handles, ask, now);
    LiveIsUnexpired(s.handles, now);
    HeldByKey(c, s, ask, now);
  }

  lemma HeldByKey(c: Config, s: State, ask: Ask, now: real)
    requires HandlesAreOwn(c, s.handles, s.created)
    ensures var key := ask.Key();
            (forall m :: IsHeld(c, s, ask, now, m) ==>
              key in s.handles && now < s.handles[key].expiresAt &&
              s.handles[key] == Handle(m.name, if ask.model.Some? then ask.model.value else "", m.ticket.now + c.ttl as real)) &&
            (key in s.handles && now < s.handles[key].expiresAt ==> exists m :: IsHeld(c, s, ask, now, m))
  {
    var key := ask.Key();
    if key in s.handles && now < s.handles[key].expiresAt {
      var m :| m in s.created && m.ticket.ask.Key() == key && s.handles[key] == m.Held(c);
      assert IsHeld(c, s, ask, now, m);
    }
  }

  lemma LiveIsUnexpired(handles: Handles, now: real)
    ensures Live(handles, now) == set k | k in handles && now < handles[k].expiresAt
  {
  }

  /** Neither pruning nor dropping an expired handle changes what is live. */
  lemma OutcomeByKey(c: Config, handles: Handles, ask: Ask, now: real)
    ensures var key, (rest, outcome) := ask.Key(), Begin(c, handles, ask, now);
            (if key in handles && now < handles[key].expiresAt then outcome == Reuse(handles[key])
             else outcome == if |Live(handles, now)| >= c.maxEntries then Inline else Creating(Ticket(ask, now))) &&
            forall k :: k in rest <==>
              (k in handles && (k == key || |handles| > 4 * c.maxEntries ==> now < handles[k].expiresAt))
  {
    var kept := if |handles| > c.maxEntries * PRUNE_FACTOR then Pruned(handles, now) else handles;
    assert Live(kept - {ask.Key()}, now) == Live(handles, now) - {ask.Key()};
    assert ask.Key() !in Live(handles, now) ==> Live(handles, now) - {ask.Key()} == Live(handles, now);
  }

  // ----- When the cap holds --------------------------------------------------

  lemma {:induction false} RunConcat(c: Config, s: State, a: seq<Event>, b: seq<Event>, p: nat)
    ensures RunFrom(c, s, a + b) == RunFrom(c, RunFrom(c, s, a), b)
    ensures RunsWithin(c, s, a, p) && RunsWithin(c, RunFrom(c, s, a), b, p) ==> RunsWithin(c, s, a + b, p)
    decreases |a|
  {
    if a == [] {
      assert a + b == b;
    } else {
      assert (a + b)[1..] == a[1..] + b;
      RunConcat(c, Step(c, s, a[0]), a[1..], b, p);
    }
  }

  /** A different prefix for every number, asked for at time zero. */
  function Numbered(n: nat): (ask: Ask)
    ensures |ask.prefix| == n
  {
    Ask(seq(n, i => 'x'), None, "")
  }

  function FirstTicket(n: nat): Ticket {
    Ticket(Numbered(n), 0.0)
  }

  function Filled(c: Config, n: nat): Handles {
    if n == 0 then map[] else Finish(c, Filled(c, n - 1), Created(FirstTicket(n - 1), ""))
  }

  lemma {:induction false} FilledIsLive(c: Config, n: nat)
    requires c.ttl > 0
    ensures Live(Filled(c, n), 0.0) == Filled(c, n).Keys && |Filled(c, n)| == n
    ensures forall k <- Filled(c, n) :: k.prefix.Sha256? && |k.prefix.text| < n
  {
    if n > 0 { FilledIsLive(c, n - 1); }
  }

  /** At time zero a call for a new prefix is suspended in `create` while there is room. */
  lemma BeginNumbered(c: Config, n: nat, m: nat)
    requires c.ttl > 0 && n < c.maxEntries && n <= m
    ensures Begin(c, Filled(c, n), Numbered(m), 0.0) == (Filled(c, n), Creating(FirstTicket(m)))
  {
    FilledIsLive(c, n);
    assert Filled(c, n) - {Numbered(m).Key()} == Filled(c, n);
  }

  lemma CreateNext(c: Config, t: State, n: nat, p: nat)
    requires c.ttl > 0 && n < c.maxEntries && p >= 1
    requires t.handles == Filled(c, n) && t.pending == multiset{} && t.clock == 0.0
    ensures var more := [Started(Numbered(n), 0.0), Resumed(FirstTicket(n), Some(""))];
            var s := RunFrom(c, t, more);
            RunsWithin(c, t, more, p) && s.handles == Filled(c, n + 1) && s.pending == multiset{} && s.clock == 0.0
  {
    hide Filled, Numbered, Begin;
    BeginNumbered(c, n, n);
    FilledSteps(c, n);
    var e1, e2 := Started(Numbered(n), 0.0), Resumed(FirstTicket(n), Some(""));
    var u := Step(c, t, e1);
    assert u == t.(pending := multiset{FirstTicket(n)});
    assert Step(c, u, e2).pending == multiset{};
    RunOfTwo(c, t, e1, e2, p);
  }

  lemma {:induction false} Fill(c: Config, n: nat, p: nat) returns (events: seq<Event>)
    requires c.ttl > 0 && n <= c.maxEntries && p >= 1
    ensures var s := RunFrom(c, START, events);
            RunsWithin(c, START, events, p) && s.handles == Filled(c, n) && s.pending == multiset{} && s.clock == 0.0
  {
    if n == 0 {
      events := [];
    } else {
      var before := Fill(c, n - 1, p);
      hide RunFrom, RunsWithin, Filled;
      var more := [Started(Numbered(n - 1), 0.0), Resumed(FirstTicket(n - 1), Some(""))];
      CreateNext(c, RunFrom(c, START, before), n - 1, p);
      RunConcat(c, START, before, more, p);
      events := before + more;
    }
  }

  /** Two calls that overlap when one place is left both create. */
  function Overlap(c: Config): seq<Event>
    requires c.maxEntries >= 1
  {
    var a, b := FirstTicket(c.maxEntries - 1), FirstTicket(c.maxEntries);
    [Started(a.ask, 0.0), Started(b.ask, 0.0)] + [Resumed(a, Some("")), Resumed(b, Some(""))]
  }

  lemma BothSuspended(c: Config, s: State)
    requires c.ttl > 0 && c.maxEntries >= 1
    requires s.handles == Filled(c, c.maxEntries - 1) && s.pending == multiset{} && s.clock == 0.0
    ensures var a, b := FirstTicket(c.maxEntries - 1), FirstTicket(c.maxEntries);
            var s1 := Step(c, s, Started(a.ask, 0.0));
            s1 == s.(pending := multiset{a}) &&
            Step(c, s1, Started(b.ask, 0.0)) == s.(pending := multiset{a} + multiset{b})
  {
    hide Filled, Numbered, Begin;
    BeginNumbered(c, c.maxEntries - 1, c.maxEntries - 1);
    BeginNumbered(c, c.maxEntries - 1, c.maxEntries);
  }

  lemma BothResumed(c: Config, s: State)
    requires c.maxEntries >= 1
    requires var a, b := FirstTicket(c.maxEntries - 1), FirstTicket(c.maxEntries);
             s.handles == Filled(c, c.maxEntries - 1) && s.pending == multiset{a} + multiset{b}
    ensures var a, b := FirstTicket(c.maxEntries - 1), FirstTicket(c.maxEntries);
            var s1 := Step(c, s, Resumed(a, Some("")));
            var s2 := Step(c, s1, Resumed(b, Some("")));
            s1.pending == multiset{b} && s2.pending == multiset{} &&
            s2.handles == Filled(c, c.maxEntries + 1) && s2.clock == s.clock
  {
    hide Filled, Finish, Numbered;
    FilledSteps(c, c.maxEntries - 1);
  }

  lemma OverlapPassesCap(c: Config, s: State)
    requires c.ttl > 0 && c.maxEntries >= 1
    requires s.handles == Filled(c, c.maxEntries - 1) && s.pending == multiset{} && s.clock == 0.0
    ensures RunsWithin(c, s, Overlap(c), 2)
    ensures RunFrom(c, s, Overlap(c)).handles == Filled(c, c.maxEntries + 1) && RunFrom(c, s, Overlap(c)).clock == 0.0
  {
    hide Filled, Numbered, Step;
    var a, b := FirstTicket(c.maxEntries - 1), FirstTicket(c.maxEntries);
    var both := s.(pending := multiset{a} + multiset{b});
    BothSuspended(c, s);
    BothResumed(c, both);
    RunOfTwo(c, s, Started(a.ask, 0.0), Started(b.ask, 0.0), 2);
    RunOfTwo(c, both, Resumed(a, Some("")), Resumed(b, Some("")), 2);
    RunConcat(c, s, [Started(a.ask, 0.0), Started(b.ask, 0.0)], [Resumed(a, Some("")), Resumed(b, Some(""))], 2);
  }

  lemma FilledSteps(c: Config, n: nat)
    ensures Finish(c, Filled(c, n), Created(FirstTicket(n), "")) == Filled(c, n + 1)
    ensures Finish(c, Filled(c, n + 1), Created(FirstTicket(n + 1), "")) == Filled(c, n + 2)
  {
  }

  lemma RunOfTwo(c: Config, s: State, e1: Event, e2: Event, p: nat)
    requires |s.pending| <= p && Enabled(s, e1)
    requires var s1 := Step(c, s, e1); |s1.pending| <= p && Enabled(s1, e2) && |Step(c, s1, e2).pending| <= p
    ensures RunsWithin(c, s, [e1, e2], p)
    ensures RunFrom(c, s, [e1, e2]) == Step(c, Step(c, s, e1), e2)
  {
    hide Step, Enabled;
    assert [e1, e2][1..] == [e2] && [e2][1..] == [];
    var s1 := Step(c, s, e1);
    assert RunsWithin(c, s1, [e2], p) && RunFrom(c, s1, [e2]) == Step(c, s1, e2);
  }

  lemma {:induction false} WithinMore(c: Config, s: State, events: seq<Event>, p: nat, q: nat)
    requires p <= q && RunsWithin(c, s, events, p)
    ensures RunsWithin(c, s, events, q)
    decreases |events|
  {
    if events != [] { WithinMore(c, Step(c, s, events[0]), events[1..], p, q); }
  }

  /** The spend cap bounds the live handles exactly when no two calls are ever suspended together. */
  lemma CapHoldsIffNoOverlap(c: Config, p: nat)
    requires c.maxEntries >= 1 && c.ttl > 0
    ensures (forall events :: RunsWithin(c, START, events, p) ==>
              var s := RunFrom(c, START, events); |Live(s.handles, s.clock)| <= c.maxEntries)
            <==> p <= 1
  {
    hide RunFrom, RunsWithin, Live, Filled;
    if p <= 1 {
      StartIsBounded(c, p);
      forall events | RunsWithin(c, START, events, p)
        ensures var s := RunFrom(c, START, events); |Live(s.handles, s.clock)| <= c.maxEntries
      {
        InterleavedBounds(c, START, events, p);
      }
    } else {
      var fill := Fill(c, c.maxEntries - 1, 2);
      var more := Overlap(c);
      OverlapPassesCap(c, RunFrom(c, START, fill));
      RunConcat(c, START, fill, more, 2);
      WithinMore(c, START, fill + more, 2, p);
      FilledIsLive(c, c.maxEntries + 1);
      assert |Live(RunFrom(c, START, fill + more).handles, 0.0)| == c.maxEntries + 1;
    }
  }

  // ----- Serial runs: the spend bound ----------------------------------------

  /** A whole call of `ensure`, with the provider's answer should it be asked, or an eviction. */
  datatype Call = Ensure(ask: Ask, now: real, name: Option<string>) | Evict(now: real)

  /** One call after the other: nothing stays suspended. */
  function Serial(c: Config, s: State, call: Call): State {
    match call
    case Evict(now) => Step(c, s, Evicted(now))
    case Ensure(ask, now, name) =>
      var outcome := Begin(c, s.handles, ask, now).1;
      var next := Step(c, s, Started(ask, now));
      if outcome.Creating? then Step(c, next, Resumed(outcome.ticket, name)) else next
  }

  function SerialRun(c: Config, calls: seq<Call>): State {
    if calls == [] then START
    else Serial(c, SerialRun(c, calls[..|calls| - 1]), calls[|calls| - 1])
  }

  predicate MonotoneFrom(clock: real, calls: seq<Call>) {
    (forall i :: 0 <= i < |calls| ==> clock <= calls[i].now) &&
    forall i, j :: 0 <= i < j < |calls| ==> calls[i].now <= calls[j].now
  }

  /** The creations among the first `n` that are unexpired at time `t`. */
  function Unexpired(c: Config, created: seq<Created>, n: nat, t: real): set<nat>
    requires n <= |created|
  {
    set i: nat | i < n && t < created[i].ticket.now + c.ttl as real
  }

  /** Unexpired creations are in the map, each under its own key. */
  ghost predicate RemembersUnexpired(c: Config, s: State) {
    var live := Unexpired(c, s.created, |s.created|, s.clock);
    (forall i <- live :: s.created[i].ticket.ask.Key() in s.handles &&
                         s.handles[s.created[i].ticket.ask.Key()] == s.created[i].Held(c)) &&
    (forall i, j :: (i in live && j in live && i != j) ==>
      s.created[i].ticket.ask.Key() != s.created[j].ticket.ask.Key())
  }

  /** Creations are stamped in order, none later than the clock. */
  predicate InOrder(created: seq<Created>, clock: real) {
    (forall i :: 0 <= i < |created| ==> created[i].ticket.now <= clock) &&
    forall i, j :: 0 <= i < j < |created| ==> created[i].ticket.now <= created[j].ticket.now
  }

  /** At each creation no more than the cap are unexpired, itself included. */
  ghost predicate SpendsWithinCap(c: Config, created: seq<Created>) {
    forall i :: 0 <= i < |created| ==> |Unexpired(c, created, i + 1, created[i].ticket.now)| <= c.maxEntries
  }

  /** What serial runs keep. */
  ghost predicate SerialInvariant(c: Config, s: State) {
    s.pending == multiset{} && |s.handles| <= c.maxEntries * PRUNE_FACTOR + 1 &&
    InOrder(s.created, s.clock) && RemembersUnexpired(c, s) && SpendsWithinCap(c, s.created)
  }

  lemma {:induction false} DistinctKeysCount(created: seq<Created>, indices: set<nat>, keys: set<HandleKey>)
    requires forall i <- indices :: i < |created| && created[i].ticket.ask.Key() in keys
    requires forall i, j :: i in indices && j in indices && i != j ==> created[i].ticket.ask.Key() != created[j].ticket.ask.Key()
    ensures |indices| <= |keys|
    decreases indices
  {
    if indices != {} {
      var i :| i in indices;
      DistinctKeysCount(created, indices - {i}, keys - {created[i].ticket.ask.Key()});
    }
  }

  /** Dropping expired handles as time passes forgets no unexpired creation. */
  lemma StillRemembered(c: Config, s: State, s': State)
    requires RemembersUnexpired(c, s) && s'.created == s.created && s.clock <= s'.clock
    requires forall k :: k in s.handles && !s.handles[k].IsExpired(s'.clock) ==>
               k in s'.handles && s'.handles[k] == s.handles[k]
    ensures RemembersUnexpired(c, s')
  {
    var live, live' := Unexpired(c, s.created, |s.created|, s.clock), Unexpired(c, s.created, |s.created|, s'.clock);
    assert live' <= live;
  }

  lemma UnexpiredPrefix(c: Config, created: seq<Created>, made: Created, n: nat, t: real)
    requires n <= |created|
    ensures Unexpired(c, created + [made], n, t) == Unexpired(c, created, n, t)
    ensures Unexpired(c, created + [made], |created| + 1, t) <= Unexpired(c, created, |created|, t) + {|created|}
  {
    assert forall i :: 0 <= i < |created| ==> (created + [made])[i] == created[i];
  }

  lemma CreationWithinCap(c: Config, s: State, made: Created)
    requires RemembersUnexpired(c, s) && InOrder(s.created, s.clock) && SpendsWithinCap(c, s.created)
    requires made.ticket.now == s.clock && |Live(s.handles, s.clock)| < c.maxEntries
    ensures InOrder(s.created + [made], s.clock) && SpendsWithinCap(c, s.created + [made])
  {
    hide Unexpired;
    var n, created := |s.created|, s.created + [made];
    UnexpiredPrefix(c, s.created, made, n, s.clock);
    var live := Unexpired(c, s.created, n, s.clock);
    UnexpiredAreLive(c, s);
    DistinctKeysCount(s.created, live, Live(s.handles, s.clock));
    SubsetIsSmaller(Unexpired(c, created, n + 1, s.clock), live + {n});
    forall i | 0 <= i <= n ensures |Unexpired(c, created, i + 1, created[i].ticket.now)| <= c.maxEntries {
      if i < n { UnexpiredPrefix(c, s.created, made, i + 1, s.created[i].ticket.now); }
    }
  }

  lemma UnexpiredAreLive(c: Config, s: State)
    requires RemembersUnexpired(c, s)
    ensures forall i <- Unexpired(c, s.created, |s.created|, s.clock) ::
              i < |s.created| && s.created[i].ticket.ask.Key() in Live(s.handles, s.clock)
  {
  }

  /** A new creation, under a key with no live handle. */
  lemma CreationRemembered(c: Config, s: State, made: Created)
    requires RemembersUnexpired(c, s) && made.ticket.ask.Key() !in s.handles
    ensures RemembersUnexpired(c, s.(handles := Finish(c, s.handles, made), created := s.created + [made]))
  {
    var n, created := |s.created|, s.created + [made];
    var live, live' := Unexpired(c, s.created, n, s.clock), Unexpired(c, created, n + 1, s.clock);
    UnexpiredPrefix(c, s.created, made, n, s.clock);
    assert forall i :: 0 <= i < n ==> created[i] == s.created[i];
    assert forall i <- live' :: i == n || i in live;
  }

  lemma EvictKeepsInvariant(c: Config, s: State, now: real)
    requires SerialInvariant(c, s) && s.clock <= now
    ensures SerialInvariant(c, Step(c, s, Evicted(now)))
  {
    hide Unexpired;
    var s' := Step(c, s, Evicted(now));
    StillRemembered(c, s, s');
    SubmapIsSmaller(s'.handles, s.handles);
  }

  lemma CreateKeepsInvariant(c: Config, s: State, made: Created)
    requires SerialInvariant(c, s) && |s.handles| <= c.maxEntries * PRUNE_FACTOR && made.ticket.now == s.clock
    requires |Live(s.handles, s.clock)| < c.maxEntries && made.ticket.ask.Key() !in s.handles
    ensures SerialInvariant(c, s.(handles := Finish(c, s.handles, made), created := s.created + [made]))
  {
    hide Unexpired, Finish, Live;
    CreationRemembered(c, s, made);
    CreationWithinCap(c, s, made);
    FinishAddsOne(c, s.handles, made, s.clock);
  }

  lemma SerialKeepsInvariant(c: Config, s: State, call: Call)
    requires c.maxEntries >= 0 && SerialInvariant(c, s) && s.clock <= call.now
    ensures SerialInvariant(c, Serial(c, s, call)) && Serial(c, s, call).clock == call.now
  {
    hide Begin, Finish, Live, RemembersUnexpired, SpendsWithinCap, Pruned, Unexpired;
    match call
    case Evict(now) => EvictKeepsInvariant(c, s, now);
    case Ensure(ask, now, name) =>
      var (rest, outcome) := Begin(c, s.handles, ask, now);
      var next := s.(handles := rest, clock := now);
      BeginKeeps(c, s.handles, ask, now);
      LiveIsSmaller(rest, now);
      StillRemembered(c, s, next);
      SubmapIsSmaller(rest, s.handles);
      if outcome.Creating? {
        var ticket := outcome.ticket;
        assert multiset{} + multiset{ticket} - multiset{ticket} == multiset{};
        if name.Some? { CreateKeepsInvariant(c, next, Created(ticket, name.value)); }
      }
  }

  lemma LiveIsSmaller(handles: Handles, now: real)
    ensures |Live(handles, now)| <= |handles|
  {
    SubsetIsSmaller(Live(handles, now), handles.Keys);
  }

  /** Serial runs keep their invariant: in particular the map never outgrows 4 caps and one. */
  lemma {:induction false} SerialRunInvariant(c: Config, calls: seq<Call>)
    requires c.maxEntries >= 0 && MonotoneFrom(0.0, calls)
    ensures SerialInvariant(c, SerialRun(c, calls))
    ensures |SerialRun(c, calls).handles| <= 4 * c.maxEntries + 1
    ensures SerialRun(c, calls).clock == if calls == [] then 0.0 else calls[|calls| - 1].now
  {
    if calls != [] {
      var n := |calls| - 1;
      SerialRunInvariant(c, calls[..n]);
      SerialKeepsInvariant(c, SerialRun(c, calls[..n]), calls[n]);
    }
  }

  lemma CreatedGrows(c: Config, s: State, call: Call)
    ensures s.created <= Serial(c, s, call).created
  {
    hide Begin, Finish, Pruned;
  }

  lemma {:induction false} CreationsStay(c: Config, calls: seq<Call>, i: nat)
    requires i <= |calls|
    ensures SerialRun(c, calls[..i]).created <= SerialRun(c, calls).created
  {
    hide Serial;
    if i < |calls| {
      var n := |calls| - 1;
      assert calls[..n][..i] == calls[..i];
      CreationsStay(c, calls[..n], i);
      CreatedGrows(c, SerialRun(c, calls[..n]), calls[n]);
    } else {
      assert calls[..i] == calls;
    }
  }

  /** One call at a time, who asks again while his own cache lives is answered with that cache. */
  lemma CreatorReuses(c: Config, calls: seq<Call>, i: nat, j: nat)
    requires MonotoneFrom(0.0, calls) && i < j < |calls| && calls[i].Ensure? && calls[j].Ensure?
    requires Begin(c, SerialRun(c, calls[..i]).handles, calls[i].ask, calls[i].now).1.Creating? && calls[i].name.Some?
    requires calls[j].ask.credential == calls[i].ask.credential && calls[j].ask.prefix == calls[i].ask.prefix
    requires calls[j].ask.model == calls[i].ask.model && calls[j].now < calls[i].now + c.ttl as real
    ensures Begin(c, SerialRun(c, calls[..j]).handles, calls[j].ask, calls[j].now).1 ==
            Reuse(Handle(calls[i].name.value, if calls[i].ask.model.Some? then calls[i].ask.model.value else "",
                         calls[i].now + c.ttl as real))
  {
    hide Begin, SerialRun, RemembersUnexpired, SpendsWithinCap, InOrder;
    var s, made := SerialRun(c, calls[..j]), Created(Ticket(calls[i].ask, calls[i].now), calls[i].name.value);
    MadeIsRecorded(c, calls, i);
    BeginKeeps(c, SerialRun(c, calls[..i]).handles, calls[i].ask, calls[i].now);
    assert calls[..j][..i + 1] == calls[..i + 1];
    CreationsStay(c, calls[..j], i + 1);
    assert made in s.created;
    SerialRunInvariant(c, calls[..j]);
    assert s.clock <= calls[j].now;
    UnexpiredIsHeld(c, s, made);
    OutcomeByKey(c, s.handles, calls[j].ask, calls[j].now);
  }

  lemma MadeIsRecorded(c: Config, calls: seq<Call>, i: nat)
    requires i < |calls| && calls[i].Ensure? && calls[i].name.Some?
    requires Begin(c, SerialRun(c, calls[..i]).handles, calls[i].ask, calls[i].now).1.Creating?
    ensures Created(Ticket(calls[i].ask, calls[i].now), calls[i].name.value) in SerialRun(c, calls[..i + 1]).created
  {
    hide Begin;
    assert calls[..i + 1][..i] == calls[..i];
    BeginKeeps(c, SerialRun(c, calls[..i]).handles, calls[i].ask, calls[i].now);
  }

  lemma UnexpiredIsHeld(c: Config, s: State, m: Created)
    requires RemembersUnexpired(c, s) && m in s.created && s.clock < m.ticket.now + c.ttl as real
    ensures m.ticket.ask.Key() in s.handles && s.handles[m.ticket.ask.Key()] == m.Held(c)
  {
    var i: nat :| i < |s.created| && s.created[i] == m;
    assert i in Unexpired(c, s.created, |s.created|, s.clock);
  }

  /** The creations stamped inside [from, to). */
  function InWindow(created: seq<Created>, from: real, to: real): set<nat> {
    set i: nat | i < |created| && from <= created[i].ticket.now < to
  }

  /** One TTL's worth of time never holds more creations than the cap. */
  lemma OneWindow(c: Config, created: seq<Created>, clock: real, from: real)
    requires c.maxEntries >= 0 && InOrder(created, clock) && SpendsWithinCap(c, created)
    ensures |InWindow(created, from, from + c.ttl as real)| <= c.maxEntries
  {
    var w := InWindow(created, from, from + c.ttl as real);
    if w != {} {
      var last := Greatest(w);
      var unexpired := Unexpired(c, created, last + 1, created[last].ticket.now);
      assert w <= unexpired;
      SubsetIsSmaller(w, unexpired);
    }
  }

  lemma {:induction false} Greatest(s: set<nat>) returns (m: nat)
    requires s != {}
    ensures m in s && forall i <- s :: i <= m
    decreases s
  {
    m :| m in s;
    if s != {m} {
      var rest := Greatest(s - {m});
      assert forall i <- s :: i == m || i in s - {m};
      m := if rest > m then rest else m;
    }
  }

  /** The end of `k` TTLs counted from `from`. */
  function After(c: Config, from: real, k: nat): real {
    from + k as real * c.ttl as real
  }

  lemma AfterStep(c: Config, from: real, k: nat)
    requires k > 0
    ensures After(c, from, k) == After(c, from, k - 1) + c.ttl as real
    ensures k * c.maxEntries == (k - 1) * c.maxEntries + c.maxEntries
  {
    assert k as real == (k - 1) as real + 1.0;
  }

  lemma WindowSplits(created: seq<Created>, from: real, mid: real, to: real)
    ensures |InWindow(created, from, to)| <= |InWindow(created, from, mid)| + |InWindow(created, mid, to)|
  {
    SubsetIsSmaller(InWindow(created, from, to), InWindow(created, from, mid) + InWindow(created, mid, to));
  }

  /** Over any serial run, a window of `k` TTLs holds at most `k` caps of creations. */
  lemma {:induction false} SpendBound(c: Config, calls: seq<Call>, from: real, k: nat)
    requires c.maxEntries >= 0 && MonotoneFrom(0.0, calls)
    ensures |InWindow(SerialRun(c, calls).created, from, After(c, from, k))| <= k * c.maxEntries
  {
    hide After, SerialRun, InWindow;
    var s := SerialRun(c, calls);
    SerialRunInvariant(c, calls);
    if k == 0 {
      NoTimeNoCreation(c, s.created, from);
    } else {
      SpendBound(c, calls, from, k - 1);
      OneWindow(c, s.created, s.clock, After(c, from, k - 1));
      AfterStep(c, from, k);
      WindowSplits(s.created, from, After(c, from, k - 1), After(c, from, k));
    }
  }

  lemma NoTimeNoCreation(c: Config, created: seq<Created>, from: real)
    ensures InWindow(created, from, After(c, from, 0)) == {}
  {
  }
}
