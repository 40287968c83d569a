/** `seedDatabase` (server/seed.ts): fills an empty store with four demo
    codes and makes sure an admin named `admin` exists. */
module Seed {
  import opened Optional
  import opened Schema
  import opened Ids
  import opened Storage

  /** The codes an empty store is seeded with, in insertion order. */
  const DEMO_CODES: seq<string> := ["SORA-DEMO-001", "SORA-DEMO-002", "SORA-DEMO-003", "SORA-DEMO-004"]
  const DEFAULT_ADMIN := "admin"
  const DEFAULT_PASSWORD := "admin123"
  /** The bcrypt cost factor the default password is hashed with. */
  const SALT_ROUNDS := 10

  /** The whole state of the store. */
  datatype Contents = Contents(codes: seq<InviteCode>, admins: seq<Admin>, issued: nat)

  /** What seeding leaves in a store holding `cs`, `admins` and `n` issued
      ids: the demo codes when there were no codes at all, then the default
      admin when no admin has that name. `hash` stands for `bcrypt.hash`; the
      clock reading `now` is the `dateAdded` of the demo codes. */
  function Seeded(cs: seq<InviteCode>, admins: seq<Admin>, n: nat, now: Timestamp,
                  hash: (string, nat) -> string): (r: Contents)
    ensures |cs| <= |r.codes| && |admins| <= |r.admins|
    ensures r.issued == n + (|r.codes| - |cs|) + (|r.admins| - |admins|)
  {
    var codes' := if |AllCodes(cs)| == 0 then cs + FreshCodes(DEMO_CODES, n, now) else cs;
    var n' := if |AllCodes(cs)| == 0 then n + |DEMO_CODES| else n;
    if AdminByUsername(admins, DEFAULT_ADMIN).None? then
      Contents(codes', admins + [Admin(Uuid(n'), DEFAULT_ADMIN, hash(DEFAULT_PASSWORD, SALT_ROUNDS))], n' + 1)
    else
      Contents(codes', admins, n')
  }

  /** Seeding a store without codes yields exactly the four demo codes,
      available, under the next four ids, whatever admins there are; the
      default admin follows under the fifth id unless one has that name. */
  lemma SeedEmpty(admins: seq<Admin>, n: nat, now: Timestamp, hash: (string, nat) -> string)
    ensures var r := Seeded([], admins, n, now, hash);
            && |r.codes| == 4
            && (forall j :: 0 <= j < 4 ==>
                  r.codes[j] == InviteCode(Uuid(n + j), DEMO_CODES[j], Available, now, None, None))
            && (AdminByUsername(admins, DEFAULT_ADMIN).None? ==>
                  && r.admins == admins + [Admin(Uuid(n + 4), DEFAULT_ADMIN, hash(DEFAULT_PASSWORD, SALT_ROUNDS))]
                  && r.issued == n + 5)
            && (AdminByUsername(admins, DEFAULT_ADMIN).Some? ==> r.admins == admins && r.issued == n + 4)
  {
    FreshCodesAt(DEMO_CODES, n, now);
  }

  /** Codes already present are left alone and no code is added; only the
      admins may grow, and then by the default admin alone. */
  lemma SeedKeepsCodes(cs: seq<InviteCode>, admins: seq<Admin>, n: nat, now: Timestamp,
                       hash: (string, nat) -> string)
    requires cs != []
    ensures var r := Seeded(cs, admins, n, now, hash);
            && r.codes == cs
            && (AdminByUsername(admins, DEFAULT_ADMIN).Some? ==> r.admins == admins && r.issued == n)
            && (AdminByUsername(admins, DEFAULT_ADMIN).None? ==>
                  r.admins == admins + [Admin(Uuid(n), DEFAULT_ADMIN, hash(DEFAULT_PASSWORD, SALT_ROUNDS))])
  {
    assert |AllCodes(cs)| != 0;
  }

  /** Seeding only appends: every code and admin already stored stays, in
      place, and at most the four demo codes and one admin are added. */
  lemma SeedOnlyAppends(cs: seq<InviteCode>, admins: seq<Admin>, n: nat, now: Timestamp,
                        hash: (string, nat) -> string)
    ensures var r := Seeded(cs, admins, n, now, hash);
            && |cs| <= |r.codes| <= |cs| + 4 && r.codes[..|cs|] == cs
            && |admins| <= |r.admins| <= |admins| + 1 && r.admins[..|admins|] == admins
            && n <= r.issued == n + (|r.codes| - |cs|) + (|r.admins| - |admins|)
  {
    var r := Seeded(cs, admins, n, now, hash);
    var added := if |AllCodes(cs)| == 0 then FreshCodes(DEMO_CODES, n, now) else [];
    assert r.codes == cs + added;
    assert r.codes[..|cs|] == cs;
    if AdminByUsername(admins, DEFAULT_ADMIN).None? {
      assert r.admins[..|admins|] == admins;
    }
  }

  /** After seeding, looking up `admin` succeeds; an admin that already had
      the name is the one found, with its password untouched. */
  lemma SeedProvidesAdmin(cs: seq<InviteCode>, admins: seq<Admin>, n: nat, now: Timestamp,
                          hash: (string, nat) -> string)
    ensures var r := Seeded(cs, admins, n, now, hash);
            && AdminByUsername(r.admins, DEFAULT_ADMIN).Some?
            && (AdminByUsername(admins, DEFAULT_ADMIN).Some? ==>
                  AdminByUsername(r.admins, DEFAULT_ADMIN) == AdminByUsername(admins, DEFAULT_ADMIN))
            && (AdminByUsername(admins, DEFAULT_ADMIN).None? ==>
                  AdminByUsername(r.admins, DEFAULT_ADMIN).value.password == hash(DEFAULT_PASSWORD, SALT_ROUNDS))
  {
    var r := Seeded(cs, admins, n, now, hash);
    if AdminByUsername(admins, DEFAULT_ADMIN).None? {
      var a := r.admins[|admins|];
      assert a in r.admins && a.username == DEFAULT_ADMIN;
      assert forall x :: x in r.admins ==> x in admins || x == a;
    }
  }

  /** Seeding never gives a second admin the same name. */
  lemma SeedKeepsUsernamesUnique(cs: seq<InviteCode>, admins: seq<Admin>, n: nat, now: Timestamp,
                                 hash: (string, nat) -> string)
    requires UniqueUsernames(admins)
    ensures UniqueUsernames(Seeded(cs, admins, n, now, hash).admins)
  {
    var r := Seeded(cs, admins, n, now, hash);
    if AdminByUsername(admins, DEFAULT_ADMIN).None? {
      forall i, j | 0 <= i < j < |r.admins|
        ensures r.admins[i].username != r.admins[j].username
      {
        if j == |admins| {
          assert r.admins[i] == admins[i];
          assert admins[i] in admins;
        }
      }
    }
  }

  /** Seeding keeps the store's invariant. */
  lemma SeedKeepsInvariant(cs: seq<InviteCode>, admins: seq<Admin>, n: nat, now: Timestamp,
                           hash: (string, nat) -> string)
    requires StoreInvariant(cs, admins, n)
    ensures var r := Seeded(cs, admins, n, now, hash);
            StoreInvariant(r.codes, r.admins, r.issued)
  {
    var codes', n' := cs, n;
    if |AllCodes(cs)| == 0 {
      FreshCodesKeepInvariant(cs, admins, n, DEMO_CODES, now);
      codes', n' := cs + FreshCodes(DEMO_CODES, n, now), n + |DEMO_CODES|;
    }
    if AdminByUsername(admins, DEFAULT_ADMIN).None? {
      AddAdminKeepsInvariant(codes', admins, n', Admin(Uuid(n'), DEFAULT_ADMIN, hash(DEFAULT_PASSWORD, SALT_ROUNDS)));
    }
  }

  /** Seeding a seeded store changes nothing, at any later time. */
  lemma SeedIdempotent(cs: seq<InviteCode>, admins: seq<Admin>, n: nat, now: Timestamp, later: Timestamp,
                       hash: (string, nat) -> string)
    ensures var r := Seeded(cs, admins, n, now, hash);
            Seeded(r.codes, r.admins, r.issued, later, hash) == r
  {
    var r := Seeded(cs, admins, n, now, hash);
    SeedProvidesAdmin(cs, admins, n, now, hash);
    if |AllCodes(cs)| == 0 {
      assert |r.codes| == |cs| + 4;
    }
    assert |AllCodes(r.codes)| != 0;
  }

  /** The loop of seedDatabase that stores the demo codes one by one. */
  method StoreDemoCodes(store: MemStorage, now: Timestamp)
    requires store.Valid()
    modifies store
    ensures store.Valid()
    ensures store.codes == old(store.codes) + FreshCodes(DEMO_CODES, old(store.issued), now)
    ensures store.issued == old(store.issued) + |DEMO_CODES| && store.admins == old(store.admins)
  {
    ghost var c0, n0 := store.codes, store.issued;
    var i := 0;
    while i < |DEMO_CODES|
      invariant 0 <= i <= |DEMO_CODES|
      invariant store.codes == c0 + FreshPrefix(DEMO_CODES, i, n0, now)
      invariant store.issued == n0 + i && store.admins == old(store.admins)
    {
      var code := store.CreateCode(InsertInviteCode(DEMO_CODES[i], Some(AVAILABLE)), now);
      AvailableCodeIsNew(DEMO_CODES[i], Uuid(n0 + i), now);
      i := i + 1;
    }
    FreshCodesKeepInvariant(c0, store.admins, n0, DEMO_CODES, now);
  }

  /** seedDatabase, run against the store. */
  method SeedDatabase(store: MemStorage, now: Timestamp, hash: (string, nat) -> string)
    requires store.Valid()
    modifies store
    ensures store.Valid()
    ensures Contents(store.codes, store.admins, store.issued)
         == Seeded(old(store.codes), old(store.admins), old(store.issued), now, hash)
  {
    var existingCodes := AllCodes(store.codes);
    if |existingCodes| == 0 {
      StoreDemoCodes(store, now);
    }
    var existingAdmin := AdminByUsername(store.admins, DEFAULT_ADMIN);
    if existingAdmin.None? {
      var hashedPassword := hash(DEFAULT_PASSWORD, SALT_ROUNDS);
      var admin := store.CreateAdmin(InsertAdmin(DEFAULT_ADMIN, hashedPassword));
    }
  }
}
