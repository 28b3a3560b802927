/** The encrypting wrapper over the response table, and why shredding a tenant is irreversible. */
module EncryptedCaching {
  import opened Requests
  import opened ResponseCache
  import opened Epochs
  import opened Encryption

  // ----- The wrapper ---------------------------------------------------------

  datatype CipherProvider =
    | StaticKey(cipher: CacheCipher)
    | PerTenant(tenants: TenantCipherProvider)
    | FromKms(kms: KmsCipherProvider)
    | PerEpoch(epochs: EpochCipherProvider)
  {
    ghost function Repr(): set<object>
      reads if FromKms? then {kms} else {}
    {
      match this
      case StaticKey(_) => {}
      case PerTenant(tenants) => {tenants}
      case FromKms(kms) => if kms.delegate == null then {kms} else {kms, kms.delegate}
      case PerEpoch(epochs) => {epochs}
    }

    ghost predicate Valid()
      reads Repr(), if FromKms? then {kms} else {}
    {
      match this
      case StaticKey(_) => true
      case PerTenant(tenants) => tenants.Valid()
      case FromKms(kms) => kms.Valid()
      case PerEpoch(epochs) => epochs.Valid()
    }

    /** The tenant's cipher: nothing if its key is withheld or cannot be unwrapped. */
    ghost function CipherFor(tenant: string): Option<CacheCipher>
      reads if PerEpoch? then {epochs.store} else {}
    {
      match this
      case StaticKey(cipher) => Some(cipher)
      case PerTenant(p) => if tenant in p.shredded then None else Some(Fresh(p.master, p.previous, LABEL_PREFIX + tenant))
      case FromKms(p) =>
        (match p.Masters()
         case None => None
         case Some((m, retired)) => if tenant in p.shredded then None else Some(Fresh(m, retired, LABEL_PREFIX + tenant)))
      case PerEpoch(p) =>
        Some(Fresh(p.master, p.previous, LABEL_PREFIX + EpochLabel(tenant, p.store.Current(tenant))))
    }

    method ForTenant(tenant: string) returns (cipher: Option<CacheCipher>)
      requires Valid()
      modifies Repr()
      ensures Valid() && fresh(Repr() - old(Repr()))
      ensures cipher == CipherFor(tenant) == old(CipherFor(tenant))
    {
      match this {
        case StaticKey(c) => cipher := Some(c);
        case PerTenant(p) => cipher := p.ForTenant(tenant);
        case FromKms(p) =>
          var found := p.ForTenant(tenant);
          cipher := if found.Cipher? then Some(found.cipher) else None;
        case PerEpoch(p) =>
          var c := p.ForTenant(tenant);
          cipher := Some(c);
      }
    }
  }

  function SealResponse<K>(cipher: CacheCipher, key: K, value: Response<Bytes>, nonce: Bytes): Response<Blob<K>> {
    Response(value.status, Seal(cipher, key, value.body, nonce), value.contentType)
  }

  /** What the wrapper answers from a sealed hit. */
  function OpenResponse<K(==)>(cipher: CacheCipher, key: K, hit: Option<Response<Blob<K>>>): Option<Response<Bytes>> {
    if hit.Some? && Opens(cipher, key, hit.value.body) then
      Some(Response(hit.value.status, hit.value.body.ciphertext.plaintext, hit.value.contentType))
    else None
  }

  class EncryptedCache<K(==)> {
    const inner: SqliteCache<K, Blob<K>>
    const provider: CipherProvider
    /** Every call so far, with the cipher the provider answered. */
    ghost var calls: seq<CacheCall<K>>

    /** The inner table is what the calls made of an empty one. */
    ghost predicate Follows()
      reads this, inner
    {
      inner.responses == Table(InnerOps(calls))
    }

    ghost predicate Valid()
      reads inner, provider.Repr(), if provider.FromKms? then {provider.kms} else {}
    {
      inner.Valid() && provider.Valid()
    }

    constructor (inner: SqliteCache<K, Blob<K>>, provider: CipherProvider)
      requires inner.Valid() && provider.Valid()
      ensures Valid() && this.inner == inner && this.provider == provider && calls == []
      ensures inner.responses == map[] ==> Follows()
    {
      this.inner, this.provider := inner, provider;
      calls := [];
    }

    method Get(key: K, tenant: string, now: real) returns (hit: Option<Response<Bytes>>)
      requires Valid()
      modifies this`calls, inner, provider.Repr()
      ensures Valid() && calls == old(calls) + [GetCall(key, now, old(provider.CipherFor(tenant)))]
      ensures var cipher := old(provider.CipherFor(tenant));
              if cipher.None? then hit.None? && inner.responses == old(inner.responses)
              else hit == OpenResponse(cipher.value, key, Lookup(old(inner.responses), key, now)) &&
                   inner.responses == AfterGet(old(inner.responses), key, now)
      ensures old(Follows()) ==> Follows() && hit == WrappedGet(old(calls), key, now, old(provider.CipherFor(tenant)))
    {
      hide Table, AfterGet, Fresh, EpochLabel, MastersFullLength, UnwrapAll, InnerOps, OpenResponse;
      var cipher := provider.ForTenant(tenant);
      TablesStep(calls, GetCall(key, now, cipher));
      calls := calls + [GetCall(key, now, cipher)];
      if cipher.None? {
        return None;
      }
      ghost var answer := Lookup(inner.responses, key, now);
      var found := inner.Get(key, now);
      hit := None;
      if found.Some? {
        var plaintext := Open(cipher.value, key, found.value.body);
        if plaintext.Some? {
          hit := Some(Response(found.value.status, plaintext.value, found.value.contentType));
        }
      }
      assert hit == OpenResponse(cipher.value, key, answer) by { Opened(cipher.value, key, answer); }
    }

    method Put(key: K, value: Response<Bytes>, ttl: int, tenant: string, now: real, nonce: Bytes)
      requires Valid()
      modifies this`calls, inner, provider.Repr()
      ensures Valid() && calls == old(calls) + [PutCall(key, value, ttl, now, old(provider.CipherFor(tenant)), nonce)]
      ensures var cipher := old(provider.CipherFor(tenant));
              inner.responses ==
              if cipher.None? then old(inner.responses)
              else AfterPut(old(inner.responses), key, SealResponse(cipher.value, key, value, nonce), ttl, now)
      ensures old(Follows()) ==> Follows()
    {
      hide Table, AfterPut, SealResponse, Fresh, EpochLabel, MastersFullLength, UnwrapAll, InnerOps;
      var cipher := provider.ForTenant(tenant);
      TablesStep(calls, PutCall(key, value, ttl, now, cipher, nonce));
      calls := calls + [PutCall(key, value, ttl, now, cipher, nonce)];
      if cipher.None? {
        return;
      }
      inner.Put(key, SealResponse(cipher.value, key, value, nonce), ttl, now);
    }
  }

  lemma Opened<K>(cipher: CacheCipher, key: K, hit: Option<Response<Blob<K>>>)
    ensures OpenResponse(cipher, key, hit) ==
            if hit.Some? && Opens(cipher, key, hit.value.body) then
              Some(Response(hit.value.status, hit.value.body.ciphertext.plaintext, hit.value.contentType))
            else None
  {
  }

  // ----- Runs: encryption is invisible where the key is still held -----------

  /** A call on the wrapper, with the cipher the provider answered at that moment. */
  datatype CacheCall<K> =
    | GetCall(key: K, at: real, cipher: Option<CacheCipher>)
    | PutCall(key: K, value: Response<Bytes>, ttl: int, at: real, cipher: Option<CacheCipher>, nonce: Bytes)

  /** What reaches the inner table: nothing when the key is withheld. */
  function InnerOps<K>(calls: seq<CacheCall<K>>): seq<Op<K, Blob<K>>> {
    if calls == [] then []
    else
      var before, call := InnerOps(calls[..|calls| - 1]), calls[|calls| - 1];
      if call.cipher.None? then before
      else match call
        case GetCall(key, at, _) => before + [Op.Get(key, at)]
        case PutCall(key, value, ttl, at, cipher, nonce) =>
          before + [Op.Put(key, SealResponse(cipher.value, key, value, nonce), ttl, at)]
  }

  /** The same calls on a plain cache. */
  function PlainOps<K>(calls: seq<CacheCall<K>>): seq<Op<K, Bytes>> {
    if calls == [] then []
    else
      var before, call := PlainOps(calls[..|calls| - 1]), calls[|calls| - 1];
      if call.cipher.None? then before
      else match call
        case GetCall(key, at, _) => before + [Op.Get(key, at)]
        case PutCall(key, value, ttl, at, _, _) => before + [Op.Put(key, value, ttl, at)]
  }

  /** Call `i` is the latest that stored something under `key`. */
  predicate IsLatestStore<K(==)>(calls: seq<CacheCall<K>>, key: K, i: int) {
    0 <= i < |calls| && StoresAt(calls[i], key) && forall j :: i < j < |calls| ==> !StoresAt(calls[j], key)
  }

  predicate StoresAt<K(==)>(call: CacheCall<K>, key: K) {
    call.PutCall? && call.key == key && call.ttl > 0 && call.cipher.Some?
  }

  /** One call's effect on the sealed table and on the plain one. */
  function SealedAfter<K>(table: map<K, Row<Blob<K>>>, call: CacheCall<K>): map<K, Row<Blob<K>>> {
    if call.cipher.None? then table
    else match call
      case GetCall(key, at, _) => AfterGet(table, key, at)
      case PutCall(key, value, ttl, at, cipher, nonce) =>
        AfterPut(table, key, SealResponse(cipher.value, key, value, nonce), ttl, at)
  }

  function PlainAfter<K>(table: map<K, Row<Bytes>>, call: CacheCall<K>): map<K, Row<Bytes>> {
    if call.cipher.None? then table
    else match call
      case GetCall(key, at, _) => AfterGet(table, key, at)
      case PutCall(key, value, ttl, at, _, _) => AfterPut(table, key, value, ttl, at)
  }

  lemma TablesStep<K>(before: seq<CacheCall<K>>, call: CacheCall<K>)
    ensures Table(InnerOps(before + [call])) == SealedAfter(Table(InnerOps(before)), call)
    ensures Table(PlainOps(before + [call])) == PlainAfter(Table(PlainOps(before)), call)
  {
    hide AfterGet, AfterPut, SealResponse;
    var calls := before + [call];
    assert calls[..|calls| - 1] == before;
    var si, pi := InnerOps(calls), PlainOps(calls);
    if call.cipher.Some? {
      assert si[..|si| - 1] == InnerOps(before) && pi[..|pi| - 1] == PlainOps(before);
    }
  }

  /** Call `i` wrote the rows of `key`: in the plain table its value, in the sealed one the same sealed. */
  ghost predicate WroteRows<K>(calls: seq<CacheCall<K>>, key: K, i: int, sealed: Row<Blob<K>>, plain: Row<Bytes>) {
    IsLatestStore(calls, key, i) && plain.value == calls[i].value &&
    sealed.value == SealResponse(calls[i].cipher.value, key, calls[i].value, calls[i].nonce)
  }

  /** At `key` the sealed table is the plain one, the body sealed by the key's latest writer. */
  ghost predicate MirrorsAt<K>(calls: seq<CacheCall<K>>, key: K, sealed: map<K, Row<Blob<K>>>, plain: map<K, Row<Bytes>>) {
    (key in sealed <==> key in plain) &&
    (key in sealed ==>
      sealed[key].expiresAt == plain[key].expiresAt && exists i :: WroteRows(calls, key, i, sealed[key], plain[key]))
  }

  /** A store makes its own call the latest; any other leaves the latest store as it was. */
  lemma LatestStoreStep<K>(before: seq<CacheCall<K>>, call: CacheCall<K>, key: K)
    ensures StoresAt(call, key) ==> IsLatestStore(before + [call], key, |before|)
    ensures !StoresAt(call, key) ==> forall i :: IsLatestStore(before + [call], key, i) <==> IsLatestStore(before, key, i)
  {
    var calls := before + [call];
    assert calls[|before|] == call && forall i :: 0 <= i < |before| ==> calls[i] == before[i];
    if !StoresAt(call, key) {
      forall i ensures IsLatestStore(calls, key, i) <==> IsLatestStore(before, key, i) {
      }
    }
  }

  lemma MirrorsAfterStore<K>(before: seq<CacheCall<K>>, call: CacheCall<K>, key: K,
                             sealed: map<K, Row<Blob<K>>>, plain: map<K, Row<Bytes>>)
    requires StoresAt(call, key)
    ensures MirrorsAt(before + [call], key, SealedAfter(sealed, call), PlainAfter(plain, call))
  {
    hide SealResponse;
    LatestStoreStep(before, call, key);
    assert (before + [call])[|before|] == call;
    assert WroteRows(before + [call], key, |before|, SealedAfter(sealed, call)[key], PlainAfter(plain, call)[key]);
  }

  lemma MirrorsAfterOther<K>(before: seq<CacheCall<K>>, call: CacheCall<K>, key: K,
                             sealed: map<K, Row<Blob<K>>>, plain: map<K, Row<Bytes>>)
    requires !StoresAt(call, key) && MirrorsAt(before, key, sealed, plain)
    ensures MirrorsAt(before + [call], key, SealedAfter(sealed, call), PlainAfter(plain, call))
  {
    hide WroteRows, StoresAt, SealedAfter, PlainAfter;
    RowAfterOther(call, key, sealed, plain);
    if key in SealedAfter(sealed, call) {
      var i :| WroteRows(before, key, i, sealed[key], plain[key]);
      StillWrote(before, call, key, i, sealed[key], plain[key]);
    }
  }

  lemma StillWrote<K>(before: seq<CacheCall<K>>, call: CacheCall<K>, key: K, i: int, sealed: Row<Blob<K>>, plain: Row<Bytes>)
    requires !StoresAt(call, key) && WroteRows(before, key, i, sealed, plain)
    ensures WroteRows(before + [call], key, i, sealed, plain)
  {
    hide SealResponse;
    LatestStoreStep(before, call, key);
    assert (before + [call])[i] == before[i];
  }

  /** A call that stores nothing under `key` keeps its row, or drops it from both tables. */
  lemma RowAfterOther<K>(call: CacheCall<K>, key: K, sealed: map<K, Row<Blob<K>>>, plain: map<K, Row<Bytes>>)
    requires !StoresAt(call, key)
    requires (key in sealed <==> key in plain) && (key in sealed ==> sealed[key].expiresAt == plain[key].expiresAt)
    ensures var s, p := SealedAfter(sealed, call), PlainAfter(plain, call);
            (key in s <==> key in p) && (key in s ==> key in sealed && s[key] == sealed[key] && p[key] == plain[key])
  {
    hide SealResponse;
  }

  /** Row by row the sealed table is the plain one, each body sealed by its latest writer. */
  lemma {:induction false} SealedTableMirrorsPlain<K>(calls: seq<CacheCall<K>>, key: K)
    ensures MirrorsAt(calls, key, Table(InnerOps(calls)), Table(PlainOps(calls)))
  {
    if calls != [] {
      hide Table, InnerOps, PlainOps, MirrorsAt, StoresAt;
      var n := |calls| - 1;
      var before, call := calls[..n], calls[n];
      var sealed, plain := Table(InnerOps(before)), Table(PlainOps(before));
      assert calls == before + [call];
      SealedTableMirrorsPlain(before, key);
      TablesStep(before, call);
      if StoresAt(call, key) {
        MirrorsAfterStore(before, call, key, sealed, plain);
      } else {
        MirrorsAfterOther(before, call, key, sealed, plain);
      }
    }
  }

  /** The wrapper's answer after a run of calls, for a caller whose provider answers `cipher`. */
  function WrappedGet<K(==)>(calls: seq<CacheCall<K>>, key: K, now: real, cipher: Option<CacheCipher>): Option<Response<Bytes>> {
    if cipher.None? then None
    else OpenResponse(cipher.value, key, ResponseCache.Lookup(Table(InnerOps(calls)), key, now))
  }

  /**
    * The wrapper answers what the plain cache answers, exactly when the key that sealed the latest
    * entry is still among the caller's keys; otherwise it misses.
    */
  lemma EncryptionIsInvisible<K>(calls: seq<CacheCall<K>>, key: K, now: real, cipher: Option<CacheCipher>)
    ensures var plain := ResponseCache.Lookup(Table(PlainOps(calls)), key, now);
            WrappedGet(calls, key, now, cipher) ==
            if cipher.Some? && exists i :: IsLatestStore(calls, key, i) && calls[i].cipher.value.key in cipher.value.Openers()
            then plain else None
  {
    SealedTableMirrorsPlain(calls, key);
    assert forall i, j :: IsLatestStore(calls, key, i) && IsLatestStore(calls, key, j) ==> i == j;
  }

  // ----- Runs: shredding -----------------------------------------------------

  /** The masters a provider was opened with; a restart or a rotation opens another. */
  datatype Masters = Masters(current: Bytes, retired: seq<Bytes>)

  /** What happens to the wrapper and its epoch store, through whatever providers. */
  datatype Event<K> =
    | Bumped(tenant: string)
    | Got(masters: Masters, key: K, tenant: string, at: real)
    | Stored(masters: Masters, key: K, value: Response<Bytes>, ttl: int, tenant: string, at: real, nonce: Bytes)

  /** A tenant's epoch after some events: the number of its bumps. */
  function EpochAfter<K>(events: seq<Event<K>>, tenant: string): nat {
    if events == [] then 0
    else
      var last := events[|events| - 1];
      EpochAfter(events[..|events| - 1], tenant) + (if last.Bumped? && last.tenant == tenant then 1 else 0)
  }

  function EpochCipher<K>(events: seq<Event<K>>, masters: Masters, tenant: string): CacheCipher {
    Fresh(masters.current, masters.retired, LABEL_PREFIX + EpochLabel(tenant, EpochAfter(events, tenant)))
  }

  /** The calls the events amount to, each with its tenant's cipher of that moment. */
  function CallsOf<K>(events: seq<Event<K>>): (calls: seq<CacheCall<K>>)
    ensures |calls| <= |events|
  {
    if events == [] then []
    else
      var before, e := events[..|events| - 1], events[|events| - 1];
      match e
      case Bumped(_) => CallsOf(before)
      case Got(masters, key, tenant, at) => CallsOf(before) + [GetCall(key, at, Some(EpochCipher(before, masters, tenant)))]
      case Stored(masters, key, value, ttl, tenant, at, nonce) =>
        CallsOf(before) + [PutCall(key, value, ttl, at, Some(EpochCipher(before, masters, tenant)), nonce)]
  }

  predicate StoresUnder<K(==)>(e: Event<K>, key: K) {
    e.Stored? && e.key == key && e.ttl > 0
  }

  predicate IsLatestStored<K(==)>(events: seq<Event<K>>, key: K, i: int) {
    0 <= i < |events| && StoresUnder(events[i], key) && forall j :: i < j < |events| ==> !StoresUnder(events[j], key)
  }

  predicate Unshredded<K>(events: seq<Event<K>>, tenant: string, i: int)
    requires 0 <= i <= |events|
  {
    forall j :: i <= j < |events| ==> !(events[j].Bumped? && events[j].tenant == tenant)
  }

  /** Epochs only grow, and grow at each bump. */
  lemma {:induction false} EpochGrows<K>(events: seq<Event<K>>, tenant: string, i: int)
    requires 0 <= i <= |events|
    ensures EpochAfter(events[..i], tenant) <= EpochAfter(events, tenant)
    ensures EpochAfter(events[..i], tenant) == EpochAfter(events, tenant) <==> Unshredded(events, tenant, i)
  {
    var n := |events|;
    if i == n {
      assert events[..n] == events;
    } else {
      EpochGrows(events[..n - 1], tenant, i);
      assert events[..n - 1][..i] == events[..i];
    }
  }

  function Bumps<K>(events: seq<Event<K>>, tenant: string): set<nat> {
    set i: nat | i < |events| && events[i].Bumped? && events[i].tenant == tenant
  }

  lemma BumpsStep<K>(before: seq<Event<K>>, e: Event<K>, tenant: string)
    ensures Bumps(before + [e], tenant) ==
            Bumps(before, tenant) + if e.Bumped? && e.tenant == tenant then {|before|} else {}
    ensures |before| !in Bumps(before, tenant)
  {
  }

  /** A tenant's epoch is the number of its bumps. */
  lemma {:induction false} EpochCountsBumps<K>(events: seq<Event<K>>, tenant: string)
    ensures EpochAfter(events, tenant) == |Bumps(events, tenant)|
  {
    if events == [] {
      assert Bumps(events, tenant) == {};
    } else {
      hide Bumps;
      var before, e := events[..|events| - 1], events[|events| - 1];
      assert events == before + [e];
      EpochCountsBumps(before, tenant);
      BumpsStep(before, e, tenant);
    }
  }

  /** The call is event `k`, the latest store of its key, under the cipher of that moment. */
  predicate IsCallOf<K(==)>(call: CacheCall<K>, events: seq<Event<K>>, key: K, k: int) {
    IsLatestStored(events, key, k) && call.PutCall? && call.value == events[k].value &&
    call.cipher == Some(EpochCipher(events[..k], events[k].masters, events[k].tenant))
  }

  lemma LatestStoredStep<K>(before: seq<Event<K>>, e: Event<K>, key: K)
    ensures StoresUnder(e, key) ==> IsLatestStored(before + [e], key, |before|)
    ensures !StoresUnder(e, key) ==> forall k :: IsLatestStored(before + [e], key, k) <==> IsLatestStored(before, key, k)
  {
    var events := before + [e];
    assert events[|before|] == e && forall i :: 0 <= i < |before| ==> events[i] == before[i];
    if !StoresUnder(e, key) {
      forall k ensures IsLatestStored(events, key, k) <==> IsLatestStored(before, key, k) {
      }
    }
  }

  /** What one more event adds to the calls. */
  lemma CallsStep<K>(before: seq<Event<K>>, e: Event<K>, key: K)
    ensures var calls', calls := CallsOf(before), CallsOf(before + [e]);
            if StoresUnder(e, key) then
              |calls| == |calls'| + 1 && calls[..|calls'|] == calls' && StoresAt(calls[|calls'|], key) &&
              calls[|calls'|].value == e.value && calls[|calls'|].cipher == Some(EpochCipher(before, e.masters, e.tenant))
            else calls == calls' || (|calls| == |calls'| + 1 && calls[..|calls'|] == calls' && !StoresAt(calls[|calls'|], key))
  {
    hide EpochCipher;
    assert (before + [e])[..|before|] == before;
  }

  lemma StillCallOf<K>(call: CacheCall<K>, before: seq<Event<K>>, e: Event<K>, key: K, k: int)
    requires IsCallOf(call, before, key, k) && !StoresUnder(e, key)
    ensures IsCallOf(call, before + [e], key, k)
  {
    hide EpochCipher;
    LatestStoredStep(before, e, key);
    assert (before + [e])[..k] == before[..k];
  }

  ghost predicate HasEvent<K>(call: CacheCall<K>, events: seq<Event<K>>, key: K) {
    exists k :: IsCallOf(call, events, key, k)
  }

  lemma {:induction false} LatestStoreIsLatestEvent<K>(events: seq<Event<K>>, key: K)
    ensures forall i :: IsLatestStore(CallsOf(events), key, i) ==> HasEvent(CallsOf(events)[i], events, key)
    ensures (forall i :: !IsLatestStore(CallsOf(events), key, i)) ==> forall k :: !IsLatestStored(events, key, k)
  {
    if events != [] {
      hide CallsOf, IsCallOf, IsLatestStored, StoresUnder;
      var n := |events| - 1;
      var before, e := events[..n], events[n];
      var calls', calls := CallsOf(before), CallsOf(events);
      assert events == before + [e];
      LatestStoreIsLatestEvent(before, key);
      LatestStoredStep(before, e, key);
      CallsStep(before, e, key);
      if StoresUnder(e, key) {
        assert IsLatestStore(calls, key, |calls'|);
        StoredIsCallOf(calls[|calls'|], before, e, key);
      } else {
        StillLatestStore(calls', calls, key);
        forall i | IsLatestStore(calls, key, i) ensures HasEvent(calls[i], events, key) {
          assert IsLatestStore(calls', key, i) && calls[i] == calls'[i];
          var k :| IsCallOf(calls'[i], before, key, k);
          StillCallOf(calls[i], before, e, key, k);
        }
      }
    }
  }

  lemma StoredIsCallOf<K>(call: CacheCall<K>, before: seq<Event<K>>, e: Event<K>, key: K)
    requires StoresUnder(e, key) && call.PutCall? && call.value == e.value
    requires call.cipher == Some(EpochCipher(before, e.masters, e.tenant))
    ensures HasEvent(call, before + [e], key)
  {
    hide EpochCipher;
    LatestStoredStep(before, e, key);
    assert (before + [e])[..|before|] == before;
    assert IsCallOf(call, before + [e], key, |before|);
  }

  lemma StillLatestStore<K>(calls': seq<CacheCall<K>>, calls: seq<CacheCall<K>>, key: K)
    requires calls == calls' || (|calls| == |calls'| + 1 && calls[..|calls'|] == calls' && !StoresAt(calls[|calls'|], key))
    ensures forall i :: IsLatestStore(calls, key, i) <==> IsLatestStore(calls', key, i)
    ensures forall i :: 0 <= i < |calls'| ==> calls[i] == calls'[i]
  {
    forall i ensures IsLatestStore(calls, key, i) <==> IsLatestStore(calls', key, i) {
      assert i == |calls'| ==> !IsLatestStore(calls, key, i);
      assert forall j :: 0 <= j < |calls'| ==> calls[j] == calls'[j];
    }
  }

  /** A key derived for a tenant's epoch opens nothing sealed for another tenant or epoch. */
  lemma EpochKeysAreSeparate<K>(a: seq<Event<K>>, b: seq<Event<K>>, m1: Masters, m2: Masters, t1: string, t2: string)
    ensures EpochCipher(a, m1, t1).key in EpochCipher(b, m2, t2).Openers() <==>
            t1 == t2 && EpochAfter(a, t1) == EpochAfter(b, t2) && m1.current in [m2.current] + m2.retired
  {
    var e1, e2 := EpochAfter(a, t1), EpochAfter(b, t2);
    var l1, l2 := LABEL_PREFIX + EpochLabel(t1, e1), LABEL_PREFIX + EpochLabel(t2, e2);
    EpochLabelIsInjective(t1, e1, t2, e2);
    assert l1[|LABEL_PREFIX|..] == EpochLabel(t1, e1) && l2[|LABEL_PREFIX|..] == EpochLabel(t2, e2);
    var masters, openers := [m2.current] + m2.retired, EpochCipher(b, m2, t2).Openers();
    assert forall i :: 0 <= i < |openers| ==> openers[i] == Derived(masters[i], l2);
    if m1.current in masters {
      var i :| 0 <= i < |masters| && masters[i] == m1.current;
      assert openers[i] == Derived(m1.current, l2);
    }
  }

  /**
    * Over every run of stores, reads, bumps, restarts and rotations on one epoch store, a tenant's
    * read returns the plain cache's answer exactly when the latest store of the key was the
    * tenant's own, under a master still held, with no bump of the tenant since.
    */
  lemma ShreddingIsIrreversible<K>(events: seq<Event<K>>, masters: Masters, key: K, tenant: string, now: real)
    ensures var calls := CallsOf(events);
            var plain := ResponseCache.Lookup(Table(PlainOps(calls)), key, now);
            WrappedGet(calls, key, now, Some(EpochCipher(events, masters, tenant))) ==
            if exists k :: IsLatestStored(events, key, k) && events[k].tenant == tenant && Unshredded(events, tenant, k) &&
                           events[k].masters.current in [masters.current] + masters.retired
            then plain else None
  {
    var calls := CallsOf(events);
    var cipher := EpochCipher(events, masters, tenant);
    EncryptionIsInvisible(calls, key, now, Some(cipher));
    LatestStoreIsLatestEvent(events, key);
    assert forall i, j :: IsLatestStored(events, key, i) && IsLatestStored(events, key, j) ==> i == j;
    forall i | IsLatestStore(calls, key, i)
      ensures exists k :: IsCallOf(calls[i], events, key, k)
    {
      assert HasEvent(calls[i], events, key);
    }
    forall k | IsLatestStored(events, key, k)
      ensures EpochCipher(events[..k], events[k].masters, events[k].tenant).key in cipher.Openers() <==>
              events[k].tenant == tenant && Unshredded(events, tenant, k) &&
              events[k].masters.current in [masters.current] + masters.retired
    {
      EpochKeysAreSeparate(events[..k], events, events[k].masters, masters, events[k].tenant, tenant);
      EpochGrows(events, tenant, k);
    }
  }

  // ----- The same, told without the plain cache ------------------------------

  lemma LookupAfter<K>(table: map<K, Row<Bytes>>, call: CacheCall<K>, key: K, now: real)
    requires call.at <= now && call.cipher.Some?
    ensures var after := ResponseCache.Lookup(PlainAfter(table, call), key, now);
            after == if !StoresAt(call, key) then ResponseCache.Lookup(table, key, now)
                     else if now < call.at + call.ttl as real then Some(call.value) else None
  {
  }

  function CallOf<K>(before: seq<Event<K>>, e: Event<K>): CacheCall<K>
    requires !e.Bumped?
  {
    var cipher := Some(EpochCipher(before, e.masters, e.tenant));
    if e.Got? then GetCall(e.key, e.at, cipher) else PutCall(e.key, e.value, e.ttl, e.at, cipher, e.nonce)
  }

  lemma CallsAppend<K>(before: seq<Event<K>>, e: Event<K>)
    ensures CallsOf(before + [e]) == if e.Bumped? then CallsOf(before) else CallsOf(before) + [CallOf(before, e)]
  {
    hide EpochCipher;
    assert (before + [e])[..|before|] == before;
  }

  /** The answer is the latest value stored under the key while that lives, and else nothing. */
  ghost predicate Tells<K>(events: seq<Event<K>>, key: K, now: real, answer: Option<Response<Bytes>>) {
    (forall k :: IsLatestStored(events, key, k) ==>
      answer == if now < events[k].at + events[k].ttl as real then Some(events[k].value) else None) &&
    ((forall k :: !IsLatestStored(events, key, k)) ==> answer == None)
  }

  lemma TellsStep<K>(before: seq<Event<K>>, e: Event<K>, key: K, now: real, was: Option<Response<Bytes>>, answer: Option<Response<Bytes>>)
    requires Tells(before, key, now, was)
    requires answer == if !StoresUnder(e, key) then was
                       else if now < e.at + e.ttl as real then Some(e.value) else None
    ensures Tells(before + [e], key, now, answer)
  {
    var events := before + [e];
    LatestStoredStep(before, e, key);
    forall k | IsLatestStored(events, key, k)
      ensures answer == if now < events[k].at + events[k].ttl as real then Some(events[k].value) else None
    {
      if StoresUnder(e, key) {
        assert k == |before|;
      } else {
        assert IsLatestStored(before, key, k) && events[k] == before[k];
      }
    }
  }

  lemma PlainStep<K>(before: seq<Event<K>>, e: Event<K>, key: K, now: real)
    requires !e.Bumped? ==> e.at <= now
    ensures ResponseCache.Lookup(Table(PlainOps(CallsOf(before + [e]))), key, now) ==
            if !StoresUnder(e, key) then ResponseCache.Lookup(Table(PlainOps(CallsOf(before))), key, now)
            else if now < e.at + e.ttl as real then Some(e.value) else None
  {
    hide CallsOf, Table, PlainOps, PlainAfter, SealedAfter, InnerOps, EpochCipher, ResponseCache.Lookup;
    CallsAppend(before, e);
    if !e.Bumped? {
      TablesStep(CallsOf(before), CallOf(before, e));
      LookupAfter(Table(PlainOps(CallsOf(before))), CallOf(before, e), key, now);
    }
  }

  /** What the plain cache answers is the latest stored value, while it lives. */
  lemma {:induction false} PlainTells<K>(events: seq<Event<K>>, key: K, now: real)
    requires forall e <- events :: !e.Bumped? ==> e.at <= now
    ensures Tells(events, key, now, ResponseCache.Lookup(Table(PlainOps(CallsOf(events))), key, now))
  {
    if events != [] {
      hide CallsOf, Table, PlainOps, ResponseCache.Lookup, Tells, StoresUnder;
      var before, e := events[..|events| - 1], events[|events| - 1];
      assert events == before + [e];
      PlainTells(before, key, now);
      PlainStep(before, e, key, now);
      TellsStep(before, e, key, now, ResponseCache.Lookup(Table(PlainOps(CallsOf(before))), key, now),
                ResponseCache.Lookup(Table(PlainOps(CallsOf(events))), key, now));
    }
  }

  /**
    * A tenant reads what was stored last under the key, exactly while it lives, if the tenant itself
    * stored it, under a master still held, with no bump of the tenant since; otherwise nothing.
    */
  lemma ReadAnswersOwnLatest<K>(events: seq<Event<K>>, masters: Masters, key: K, tenant: string, now: real)
    requires forall e <- events :: !e.Bumped? ==> e.at <= now
    ensures var answer := WrappedGet(CallsOf(events), key, now, Some(EpochCipher(events, masters, tenant)));
            (forall k :: IsLatestStored(events, key, k) ==>
              answer == if events[k].tenant == tenant && events[k].masters.current in [masters.current] + masters.retired &&
                           (forall j :: k <= j < |events| ==> events[j] != Bumped(tenant)) &&
                           now < events[k].at + events[k].ttl as real
                        then Some(events[k].value) else None) &&
            ((forall k :: !IsLatestStored(events, key, k)) ==> answer == None)
  {
    hide CallsOf, Table, PlainOps, EpochCipher, WrappedGet, ResponseCache.Lookup, IsLatestStored;
    ShreddingIsIrreversible(events, masters, key, tenant, now);
    PlainTells(events, key, now);
    LatestIsOne(events, key);
  }

  lemma LatestIsOne<K>(events: seq<Event<K>>, key: K)
    ensures forall i, j :: IsLatestStored(events, key, i) && IsLatestStored(events, key, j) ==> i == j
    ensures forall i :: IsLatestStored(events, key, i) ==> 0 <= i < |events| && events[i].Stored?
  {
  }
}
