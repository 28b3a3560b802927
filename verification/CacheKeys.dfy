/** Deriving exact-match cache keys (`parcus.cache.key`). */
module CacheKeys {
  import opened Requests
  import opened Tags

  /** The fields a key depends on; the version and the field names are the same for all. */
  datatype Payload = Payload(
    dialect: Dialect,
    model: Json,
    system: Option<string>,
    messages: seq<(Role, string)>,
    tools: Option<string>)

  /** `v1:` and the SHA-256 of a text, which an ideal hash determines and is determined by. */
  datatype CacheKey = V1Sha256(text: string)

  function PayloadOf(r: Request, dump: Json -> string): (p: Payload)
    ensures |p.messages| == |r.messages|
    ensures forall i :: 0 <= i < |r.messages| ==> p.messages[i] == (r.messages[i].role, r.messages[i].Text(dump))
  {
    Payload(r.dialect, r.model, r.system,
            seq(|r.messages|, i requires 0 <= i < |r.messages| => (r.messages[i].role, r.messages[i].Text(dump))),
            r.tools)
  }

  /** `compute_key`; `dumps` writes a payload as canonical JSON. */
  function ComputeKey(r: Request, salt: string, dump: Json -> string, dumps: Payload -> string): CacheKey {
    V1Sha256(Tagged(salt, dumps(PayloadOf(r, dump))))
  }

  /** Canonical JSON: different payloads differ in writing, and control characters are escaped. */
  ghost predicate IsCanonicalJson(dumps: Payload -> string) {
    (forall p, q :: dumps(p) == dumps(q) ==> p == q) && forall p :: NUL !in dumps(p)
  }

  /** The salt of a tenant's keys; without tenants the salt is the install's own. */
  function TenantSalt(salt: string, tenant: string): string {
    if tenant == "" then salt else salt + "|t:" + tenant
  }

  lemma TenantSaltIsInjective(salt: string, t1: string, t2: string)
    ensures TenantSalt(salt, t1) == TenantSalt(salt, t2) <==> t1 == t2
    ensures TenantSalt(salt, "") == salt && (t1 != "" ==> TenantSalt(salt, t1) == salt + "|t:" + t1)
  {
    var n := |salt| + 3;
    assert t1 != "" ==> TenantSalt(salt, t1)[n..] == t1 && |TenantSalt(salt, t1)| > |salt|;
    assert t2 != "" ==> TenantSalt(salt, t2)[n..] == t2 && |TenantSalt(salt, t2)| > |salt|;
  }

  /** Same dialect, model, system, tools and, message by message, same role and text. */
  predicate SaysTheSame(a: Request, b: Request, dump: Json -> string) {
    a.dialect == b.dialect && a.model == b.model && a.system == b.system && a.tools == b.tools &&
    |a.messages| == |b.messages| &&
    forall i :: 0 <= i < |a.messages| ==>
      a.messages[i].role == b.messages[i].role && a.messages[i].Text(dump) == b.messages[i].Text(dump)
  }

  /** Two requests share a key exactly when their tenant and everything they say are the same. */
  lemma KeyIsExact(a: Request, b: Request, salt: string, t1: string, t2: string, dump: Json -> string, dumps: Payload -> string)
    requires IsCanonicalJson(dumps)
    ensures ComputeKey(a, TenantSalt(salt, t1), dump, dumps) == ComputeKey(b, TenantSalt(salt, t2), dump, dumps)
            <==> t1 == t2 && SaysTheSame(a, b, dump)
  {
    var p, q := PayloadOf(a, dump), PayloadOf(b, dump);
    TaggedIsInjective(TenantSalt(salt, t1), dumps(p), TenantSalt(salt, t2), dumps(q));
    TenantSaltIsInjective(salt, t1, t2);
    if p == q {
      assert forall i :: 0 <= i < |a.messages| ==> p.messages[i] == q.messages[i];
    }
    if SaysTheSame(a, b, dump) {
      assert p.messages == q.messages;
    }
  }

  /** The install's own salt keeps its keys apart too: under two salts a tenant shares none. */
  lemma InstallsAreSeparate(a: Request, b: Request, salt1: string, salt2: string, tenant: string, dump: Json -> string, dumps: Payload -> string)
    requires IsCanonicalJson(dumps)
    ensures ComputeKey(a, TenantSalt(salt1, tenant), dump, dumps) == ComputeKey(b, TenantSalt(salt2, tenant), dump, dumps)
            <==> salt1 == salt2 && SaysTheSame(a, b, dump)
  {
    var s1, s2, n := TenantSalt(salt1, tenant), TenantSalt(salt2, tenant), if tenant == "" then 0 else |tenant| + 3;
    assert s1[..|s1| - n] == salt1 && s2[..|s2| - n] == salt2;
    TaggedIsInjective(s1, dumps(PayloadOf(a, dump)), s2, dumps(PayloadOf(b, dump)));
    KeyIsExact(a, b, salt1, tenant, tenant, dump, dumps);
  }
}
