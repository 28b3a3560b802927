/** Per-tenant key epochs (`parcus.cache.epoch`) and how they are spelt in key derivation. */
module Epochs {

  /** The epoch table; both stores keep one row per bumped tenant. */
  class EpochStore {
    var epochs: map<string, nat>
    /** Every tenant shredded so far, in order. */
    ghost var shreds: seq<string>

    /** A tenant's epoch counts how often it was shredded. */
    ghost predicate Valid()
      reads this
    {
      forall t :: Current(t) == Shreds(shreds, t)
    }

    constructor ()
      ensures Valid() && epochs == map[] && shreds == []
    {
      epochs := map[];
      shreds := [];
    }

    function Current(tenant: string): nat
      reads this
    {
      EpochOf(epochs, tenant)
    }

    method Epoch(tenant: string) returns (epoch: nat)
      ensures epoch == Current(tenant)
      ensures Valid() ==> epoch == Shreds(shreds, tenant)
    {
      return if tenant in epochs then epochs[tenant] else 0;
    }

    /** The shred operation: this tenant's epoch grows by one, every other stays. */
    method Bump(tenant: string) returns (epoch: nat)
      modifies this
      ensures old(Valid()) ==> Valid()
      ensures shreds == old(shreds) + [tenant]
      ensures epoch == Current(tenant) == old(Current(tenant)) + 1
      ensures forall t :: t != tenant ==> Current(t) == old(Current(t))
      ensures epochs == old(epochs)[tenant := epoch]
    {
      epoch := if tenant in epochs then epochs[tenant] + 1 else 1;
      epochs := epochs[tenant := epoch];
      shreds := shreds + [tenant];
      assert shreds[..|shreds| - 1] == old(shreds);
    }
  }

  /** How often `tenant` is in the list. */
  function Shreds(shreds: seq<string>, tenant: string): nat {
    if shreds == [] then 0
    else Shreds(shreds[..|shreds| - 1], tenant) + (if shreds[|shreds| - 1] == tenant then 1 else 0)
  }

  /** A tenant's epoch, 0 if it was never bumped. */
  function EpochOf(epochs: map<string, nat>, tenant: string): nat {
    if tenant in epochs then epochs[tenant] else 0
  }

  // ----- Spelling an epoch ---------------------------------------------------

  function Digit(d: nat): (c: char)
    requires d < 10
  {
    "0123456789"[d]
  }

  predicate IsDigit(c: char) {
    '0' <= c <= '9'
  }

  lemma DigitIsInjective(a: nat, b: nat)
    requires a < 10 && b < 10
    ensures IsDigit(Digit(a))
    ensures Digit(a) == Digit(b) ==> a == b
  {
  }

  function Decimal(n: nat): (s: string)
    ensures s != ""
  {
    if n < 10 then [Digit(n)] else Decimal(n / 10) + [Digit(n % 10)]
  }

  lemma {:induction false} DecimalIsDigits(n: nat)
    ensures forall i :: 0 <= i < |Decimal(n)| ==> IsDigit(Decimal(n)[i])
  {
    if n < 10 {
      DigitIsInjective(n, n);
    } else {
      DigitIsInjective(n % 10, n % 10);
      DecimalIsDigits(n / 10);
    }
  }

  lemma {:induction false} DecimalIsInjective(a: nat, b: nat)
    requires Decimal(a) == Decimal(b)
    ensures a == b
  {
    var s := Decimal(a);
    assert s[|s| - 1] == Digit(a % 10) && s[|s| - 1] == Digit(b % 10);
    DigitIsInjective(a % 10, b % 10);
    assert a < 10 ==> |s| == 1;
    assert b < 10 ==> |s| == 1;
    if a >= 10 && b >= 10 {
      assert s[..|s| - 1] == Decimal(a / 10) && s[..|s| - 1] == Decimal(b / 10);
      DecimalIsInjective(a / 10, b / 10);
    }
  }

  /** The derivation label of a tenant at an epoch. */
  function EpochLabel(tenant: string, epoch: nat): string {
    tenant + ":e" + Decimal(epoch)
  }

  /** The digits after the last `:e` are the epoch: no two tenants or epochs share a label. */
  lemma EpochLabelIsInjective(t1: string, e1: nat, t2: string, e2: nat)
    ensures EpochLabel(t1, e1) == EpochLabel(t2, e2) <==> t1 == t2 && e1 == e2
  {
    if EpochLabel(t1, e1) == EpochLabel(t2, e2) {
      LabelParts(t1, e1);
      LabelParts(t2, e2);
      DecimalIsDigits(e1);
      DecimalIsDigits(e2);
      assert |t1| == |t2|;
      DecimalIsInjective(e1, e2);
    }
  }

  lemma LabelParts(tenant: string, epoch: nat)
    ensures var s, n := EpochLabel(tenant, epoch), |tenant|;
            |s| > n + 2 && s[..n] == tenant && s[n + 1] == 'e' && s[n + 2..] == Decimal(epoch) &&
            forall i :: n + 2 <= i < |s| ==> IsDigit(s[i])
  {
    var s, n := EpochLabel(tenant, epoch), |tenant|;
    assert s[n + 2..] == Decimal(epoch);
    DecimalIsDigits(epoch);
    forall i | n + 2 <= i < |s| ensures IsDigit(s[i]) {
      assert s[i] == Decimal(epoch)[i - n - 2];
    }
  }
}
