/** Identifiers handed out by `randomUUID` (server/storage.ts). The generator is
    modelled as a counter: the n-th identifier is `Uuid(n)`, and distinct
    counter values give distinct identifiers, which is the one property of
    random UUIDs the store relies on. The n-th identifier is written as n + 1
    copies of one letter, so its length alone tells which call produced it. */
module Ids {

  /** The identifier the n-th call of the generator returns. */
  function Uuid(n: nat): (id: string)
    ensures |id| == n + 1
  {
    if n == 0 then "u" else Uuid(n - 1) + "u"
  }

  /** `id` is one of the first `n` identifiers the generator produced. */
  predicate Issued(id: string, n: nat) {
    0 < |id| <= n && id == Uuid(|id| - 1)
  }

  /** Two calls give the same identifier only if they are the same call. */
  lemma UuidInjective(a: nat, b: nat)
    requires Uuid(a) == Uuid(b)
    ensures a == b
  {
  }

  /** Each identifier counts as issued from the call that produced it on, and
      not before. */
  lemma IssuedExactly(m: nat, n: nat)
    ensures Issued(Uuid(m), n) <==> m < n
  {
  }

  /** An identifier issued among the first `n` calls is issued among any more. */
  lemma IssuedMonotone(id: string, n: nat, m: nat)
    requires Issued(id, n) && n <= m
    ensures Issued(id, m)
  {
  }
}
