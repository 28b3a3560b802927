/**
  * Encrypting cached bodies at rest (`parcus.cache.encryption`), over ideal primitives: a
  * ciphertext opens under the key, nonce and associated data it was sealed with and no others,
  * and derived keys are equal only for equal masters and info strings.
  */
module Encryption {
  import opened Requests
  import opened ResponseCache
  import opened Epochs

  type Bytes = seq<bv8>

  /** AES-256 key material: given, or derived by HKDF from a master and an info string. */
  datatype DataKey = Given(bytes: Bytes) | Derived(master: Bytes, info: string)

  const KEY_LEN: nat := 32
  const VERSION: bv8 := 1
  const LABEL_PREFIX: string := "parcus-cache-tenant:"

  datatype Ciphertext<K> = Sealed(key: DataKey, nonce: Bytes, aad: K, plaintext: Bytes) | Foreign(bytes: Bytes)

  /** `version || nonce || ciphertext`, or bytes too short to hold a header. */
  datatype Blob<K> = Blob(version: bv8, nonce: Bytes, ciphertext: Ciphertext<K>) | Truncated(bytes: Bytes)

  function Decrypt<K(==)>(key: DataKey, nonce: Bytes, c: Ciphertext<K>, aad: K): Option<Bytes> {
    if c.Sealed? && c.key == key && c.nonce == nonce && c.aad == aad then Some(c.plaintext) else None
  }

  // ----- One cipher ----------------------------------------------------------

  /** The sealing key first, then the retired keys kept for opening. */
  datatype CacheCipher = CacheCipher(key: DataKey, previous: seq<DataKey>) {
    function Openers(): seq<DataKey> {
      [key] + previous
    }
  }

  function Seal<K>(cipher: CacheCipher, aad: K, plaintext: Bytes, nonce: Bytes): Blob<K> {
    Blob(VERSION, nonce, Sealed(cipher.key, nonce, aad, plaintext))
  }

  /** The blob was sealed for `aad` under one of the cipher's keys. */
  predicate Opens<K(==)>(cipher: CacheCipher, aad: K, blob: Blob<K>) {
    blob.Blob? && blob.version == VERSION && blob.ciphertext.Sealed? && blob.ciphertext.nonce == blob.nonce &&
    blob.ciphertext.aad == aad && blob.ciphertext.key in cipher.Openers()
  }

  /** `CacheCipher.open`: try the current key, then each retired one. */
  method Open<K(==)>(cipher: CacheCipher, aad: K, blob: Blob<K>) returns (plaintext: Option<Bytes>)
    ensures plaintext == if Opens(cipher, aad, blob) then Some(blob.ciphertext.plaintext) else None
  {
    if blob.Truncated? || blob.version != VERSION {
      return None;
    }
    var openers := cipher.Openers();
    for k := 0 to |openers|
      invariant forall j :: 0 <= j < k ==> Decrypt(openers[j], blob.nonce, blob.ciphertext, aad).None?
    {
      var found := Decrypt(openers[k], blob.nonce, blob.ciphertext, aad);
      if found.Some? {
        return found;
      }
    }
    return None;
  }

  // ----- Providers -----------------------------------------------------------

  function DeriveAll(masters: seq<Bytes>, info: string): (keys: seq<DataKey>)
    ensures |keys| == |masters| && forall i :: 0 <= i < |masters| ==> keys[i] == Derived(masters[i], info)
  {
    seq(|masters|, i requires 0 <= i < |masters| => Derived(masters[i], info))
  }

  /** The cipher for an info string, derived afresh from the current and retired masters. */
  function Fresh(master: Bytes, previous: seq<Bytes>, info: string): CacheCipher {
    CacheCipher(Derived(master, info), DeriveAll(previous, info))
  }

  lemma OpenersOf(master: Bytes, previous: seq<Bytes>, info: string, key: DataKey)
    ensures key in Fresh(master, previous, info).Openers() <==>
            key.Derived? && key.info == info && key.master in [master] + previous
  {
    var masters, openers := [master] + previous, Fresh(master, previous, info).Openers();
    assert forall i :: 0 <= i < |openers| ==> openers[i] == Derived(masters[i], info);
    if key.Derived? && key.info == info && key.master in masters {
      var i :| 0 <= i < |masters| && masters[i] == key.master;
      assert openers[i] == key;
    }
  }

  /**
    * What one tenant's cipher seals is marked version 1 and opens exactly for the same key text,
    * under the same tenant's cipher, from masters that still hold the one it was sealed with.
    */
  lemma TenantKeysAreSeparate<K>(m: Bytes, retired: seq<Bytes>, tenant: string, aad: K, plaintext: Bytes, nonce: Bytes,
                                 m': Bytes, retired': seq<Bytes>, tenant': string, aad': K)
    ensures var sealing := Fresh(m, retired, "parcus-cache-tenant:" + tenant);
            var blob := Seal(sealing, aad, plaintext, nonce);
            blob.Blob? && blob.version == 1 && blob.nonce == nonce &&
            (Opens(Fresh(m', retired', "parcus-cache-tenant:" + tenant'), aad', blob) <==>
             tenant == tenant' && aad == aad' && m in [m'] + retired')
  {
    var info, info' := "parcus-cache-tenant:" + tenant, "parcus-cache-tenant:" + tenant';
    assert info[20..] == tenant && info'[20..] == tenant';
    OpenersOf(m', retired', info', Derived(m, info));
  }

  predicate MastersFullLength(master: Bytes, previous: seq<Bytes>) {
    |master| == KEY_LEN && forall m <- previous :: |m| == KEY_LEN
  }

  class TenantCipherProvider {
    const master: Bytes
    const previous: seq<Bytes>
    const shredded: set<string>
    var memo: map<string, CacheCipher>

    ghost predicate Valid()
      reads this
    {
      MastersFullLength(master, previous) &&
      forall t :: t in memo ==> memo[t] == Fresh(master, previous, LABEL_PREFIX + t)
    }

    constructor (master: Bytes, previous: seq<Bytes>, shredded: set<string>)
      requires MastersFullLength(master, previous)
      ensures Valid() && this.master == master && this.previous == previous && this.shredded == shredded
    {
      this.master, this.previous, this.shredded := master, previous, shredded;
      memo := map[];
    }

    /** Memoised, and no different from deriving afresh; withheld from shredded tenants. */
    method ForTenant(tenant: string) returns (cipher: Option<CacheCipher>)
      requires Valid()
      modifies this
      ensures Valid()
      ensures cipher == if tenant in shredded then None
                        else Some(CacheCipher(Derived(master, "parcus-cache-tenant:" + tenant),
                                              DeriveAll(previous, "parcus-cache-tenant:" + tenant)))
    {
      if tenant in shredded {
        return None;
      }
      if tenant !in memo {
        memo := memo[tenant := CacheCipher(Derived(master, LABEL_PREFIX + tenant),
                                           DeriveAll(previous, LABEL_PREFIX + tenant))];
      }
      return Some(memo[tenant]);
    }
  }

  /** The masters behind their wrapped forms, or nothing if the KMS fails on one of them. */
  function UnwrapAll(kms: Bytes -> Option<Bytes>, wrapped: seq<Bytes>): (masters: Option<seq<Bytes>>)
    ensures masters.Some? <==> forall w <- wrapped :: kms(w).Some?
    ensures masters.Some? ==>
              |masters.value| == |wrapped| && forall i :: 0 <= i < |wrapped| ==> kms(wrapped[i]) == Some(masters.value[i])
  {
    if wrapped == [] then Some([])
    else
      var first, rest := kms(wrapped[0]), UnwrapAll(kms, wrapped[1..]);
      assert forall w <- wrapped :: w == wrapped[0] || w in wrapped[1..];
      if first.Some? && rest.Some? then Some([first.value] + rest.value) else None
  }

  /** What a lookup through the KMS provider ends in. */
  datatype KeyAnswer = Failed | Withheld | Cipher(cipher: CacheCipher)

  class KmsCipherProvider {
    const kms: Bytes -> Option<Bytes>
    const wrapped: Bytes
    const previousWrapped: seq<Bytes>
    const shredded: set<string>
    var delegate: TenantCipherProvider?

    /** The unwrapped masters, if the KMS yields them all at full length. */
    ghost function Masters(): Option<(Bytes, seq<Bytes>)> {
      var m, p := kms(wrapped), UnwrapAll(kms, previousWrapped);
      if m.Some? && p.Some? && MastersFullLength(m.value, p.value) then Some((m.value, p.value)) else None
    }

    ghost predicate Valid()
      reads this, delegate
    {
      delegate != null ==>
        delegate.Valid() && Masters() == Some((delegate.master, delegate.previous)) && delegate.shredded == shredded
    }

    constructor (kms: Bytes -> Option<Bytes>, wrapped: Bytes, previousWrapped: seq<Bytes>, shredded: set<string>)
      ensures Valid() && delegate == null
      ensures this.kms == kms && this.wrapped == wrapped && this.previousWrapped == previousWrapped && this.shredded == shredded
    {
      this.kms, this.wrapped, this.previousWrapped, this.shredded := kms, wrapped, previousWrapped, shredded;
      delegate := null;
    }

    /** Unwrap the masters once; a failure is not remembered. */
    method Resolve() returns (ok: bool)
      requires Valid()
      modifies this
      ensures Valid() && (ok <==> Masters().Some?) && (ok ==> delegate != null)
      ensures var m, p := kms(wrapped), UnwrapAll(kms, previousWrapped);
              ok <==> m.Some? && p.Some? && |m.value| == 32 && forall retired <- p.value :: |retired| == 32
      ensures old(delegate) != null ==> delegate == old(delegate)
      ensures old(delegate) == null && delegate != null ==> fresh(delegate)
    {
      if delegate == null {
        var master := kms(wrapped);
        if master.None? {
          return false;
        }
        var previous := UnwrapAll(kms, previousWrapped);
        if previous.None? || !MastersFullLength(master.value, previous.value) {
          return false;
        }
        delegate := new TenantCipherProvider(master.value, previous.value, shredded);
      }
      return true;
    }

    /** The same ciphers as a tenant provider over the unwrapped masters. */
    method ForTenant(tenant: string) returns (found: KeyAnswer)
      requires Valid()
      modifies this, delegate
      ensures Valid()
      ensures delegate == old(delegate) || fresh(delegate)
      ensures match Masters()
              case None => found == Failed
              case Some((m, p)) =>
                found == if tenant in shredded then Withheld
                         else Cipher(CacheCipher(Derived(m, "parcus-cache-tenant:" + tenant),
                                                 DeriveAll(p, "parcus-cache-tenant:" + tenant)))
    {
      var ok := Resolve();
      if !ok {
        return Failed;
      }
      var cipher := delegate.ForTenant(tenant);
      return if cipher.None? then Withheld else Cipher(cipher.value);
    }
  }

  class EpochCipherProvider {
    const master: Bytes
    const previous: seq<Bytes>
    const store: EpochStore
    var memo: map<(string, nat), CacheCipher>

    ghost predicate Valid()
      reads this
    {
      MastersFullLength(master, previous) &&
      forall t, e :: (t, e) in memo ==> memo[(t, e)] == Fresh(master, previous, LABEL_PREFIX + EpochLabel(t, e))
    }

    constructor (master: Bytes, previous: seq<Bytes>, store: EpochStore)
      requires MastersFullLength(master, previous)
      ensures Valid() && this.master == master && this.previous == previous && this.store == store
    {
      this.master, this.previous, this.store := master, previous, store;
      memo := map[];
    }

    /** The cipher of the tenant's current epoch, whatever was memoised before. */
    method ForTenant(tenant: string) returns (cipher: CacheCipher)
      requires Valid()
      modifies this
      ensures Valid()
      ensures var info := "parcus-cache-tenant:" + (tenant + ":e" + Decimal(store.Current(tenant)));
              cipher == CacheCipher(Derived(master, info), DeriveAll(previous, info))
    {
      var epoch := store.Epoch(tenant);
      if (tenant, epoch) !in memo {
        var info := LABEL_PREFIX + EpochLabel(tenant, epoch);
        memo := memo[(tenant, epoch) := CacheCipher(Derived(master, info), DeriveAll(previous, info))];
      }
      return memo[(tenant, epoch)];
    }
  }
}
