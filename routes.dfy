/** The request handlers of server/routes.ts, each as a method over the shared
    store that returns the HTTP status and JSON payload it sends. Every
    `await` is one sequential step; a handler's `try`/`catch` turns a thrown
    error into a 500 after whatever the earlier steps already changed. */
module Routes {
  import opened Optional
  import opened Schema
  import opened Ids
  import opened Js
  import opened Storage

  /** The part of the express session the handlers use. */
  datatype Session = Session(adminId: Option<string>)

  /** The JSON payloads the handlers send. */
  datatype Body =
    | Error(message: string)                      // { error }
    | IssuedCode(code: string, codeId: string)    // { code, codeId }
    | Success                                     // { success: true }
    | Contributed(message: string)                // { success: true, message }
    | AddedCodes(codes: seq<InviteCode>)          // { success: true, codes }
    | CodeRecord(record: InviteCode)              // the updated code
    | CodeList(list: seq<InviteCode>)             // all codes
    | StatsReport(stats: Stats)                   // the statistics object

  datatype Response = Response(status: nat, body: Body)

  /** A handler's answer, and the store's codes and id count after it. */
  datatype Outcome = Outcome(resp: Response, codes: seq<InviteCode>, issued: nat)

  const STATS_FAILED := "Failed to fetch statistics"
  const CAPTCHA_REQUIRED := "reCAPTCHA verification required"
  const NO_CODES := "No codes available at this time. Please check back later."
  const NEED_FOUR := "Exactly 4 codes are required"
  const FILL_ALL := "All code fields must be filled"
  const THANKS := "Thank you for contributing!"
  const SUBMIT_FAILED := "Failed to submit codes"
  const INVALID_CREDENTIALS := "Invalid credentials"
  const LOGIN_FAILED := "Login failed"
  const UNAUTHORIZED := "Unauthorized"
  const NEED_ONE := "At least one code is required"
  const ADD_FAILED := "Failed to add codes"
  const CODE_NOT_FOUND := "Code not found"
  const UPDATE_FAILED := "Failed to update code"

  /** requireAdmin lets a request through when the session's `adminId` is truthy. */
  predicate Authorized(session: Session)
    ensures Authorized(session) <==>
              Truthy(if session.adminId.Some? then Str(session.adminId.value) else Undefined)
  {
    session.adminId.Some? && session.adminId.value != ""
  }

  // ---------------------------------------------------------------------
  // How the two code-adding loops classify an entry
  // ---------------------------------------------------------------------

  /** An entry both loops turn into a code: a string that is not blank once trimmed. */
  predicate Creatable(e: Json) {
    e.Str? && Trim(e.s) != ""
  }

  /** A truthy entry that is not a string: calling `trim` on it throws a TypeError. */
  predicate NotText(e: Json) {
    Truthy(e) && !e.Str?
  }

  /** Every entry is exactly one of: creatable, not text, or blank (falsy, or
      white space only), the case `!codeText || codeText.trim() === ''` catches. */
  lemma EntryKinds(e: Json)
    ensures Creatable(e) ==> Truthy(e) && !NotText(e)
    ensures !Creatable(e) && !NotText(e) <==> !Truthy(e) || (e.Str? && Trim(e.s) == "")
  {
  }

  /** The position of the first entry, from `i` on, that the submit loop
      does not store, or the length when it stores them all. */
  function FirstNotCreatable(items: seq<Json>, i: nat): (k: nat)
    requires i <= |items|
    ensures i <= k <= |items|
    decreases |items| - i
  {
    if i == |items| || !Creatable(items[i]) then i else FirstNotCreatable(items, i + 1)
  }

  /** The submit loop stores every entry before that position and stops at it. */
  lemma {:induction false} FirstNotCreatableSpec(items: seq<Json>, i: nat)
    requires i <= |items|
    ensures var k := FirstNotCreatable(items, i);
            && (forall j :: i <= j < k ==> Creatable(items[j]))
            && (k < |items| ==> !Creatable(items[k]))
    decreases |items| - i
  {
    if i < |items| && Creatable(items[i]) {
      FirstNotCreatableSpec(items, i + 1);
    }
  }

  /** The position of the first entry, from `i` on, on which the admin-add
      loop throws, or the length when there is none. */
  function FirstNotText(items: seq<Json>, i: nat): (k: nat)
    requires i <= |items|
    ensures i <= k <= |items|
    decreases |items| - i
  {
    if i == |items| || NotText(items[i]) then i else FirstNotText(items, i + 1)
  }

  lemma {:induction false} FirstNotTextSpec(items: seq<Json>, i: nat)
    requires i <= |items|
    ensures var k := FirstNotText(items, i);
            && (forall j :: i <= j < k ==> !NotText(items[j]))
            && (k < |items| ==> NotText(items[k]))
    decreases |items| - i
  {
    if i < |items| && !NotText(items[i]) {
      FirstNotTextSpec(items, i + 1);
    }
  }

  /** The trimmed texts of the creatable entries among the first `k`, in input order. */
  function CreatableTexts(items: seq<Json>, k: nat): (r: seq<string>)
    requires k <= |items|
    ensures |r| <= k
  {
    if k == 0 then []
    else if Creatable(items[k - 1]) then CreatableTexts(items, k - 1) + [Trim(items[k - 1].s)]
    else CreatableTexts(items, k - 1)
  }

  /** The codes both loops create from the first `k` entries, under ids from
      the `n`-th on: the fresh codes `createCode` makes for those texts. */
  function CreatedFrom(items: seq<Json>, k: nat, n: nat, now: Timestamp): seq<InviteCode>
    requires k <= |items|
  {
    FreshCodes(CreatableTexts(items, k), n, now)
  }

  /** A creatable entry adds one code, under the next id. */
  lemma CreatedFromStep(items: seq<Json>, k: nat, n: nat, now: Timestamp,
                        prev: seq<InviteCode>, c: InviteCode)
    requires 0 < k <= |items| && Creatable(items[k - 1])
    requires prev == CreatedFrom(items, k - 1, n, now)
    requires c == AvailableCode(Trim(items[k - 1].s), Uuid(n + |prev|), now)
    ensures CreatedFrom(items, k, n, now) == prev + [c]
  {
    FreshCodesAppend(CreatableTexts(items, k - 1), Trim(items[k - 1].s), n, now);
  }

  /** Any other entry adds nothing. */
  lemma CreatedFromSkip(items: seq<Json>, k: nat, n: nat, now: Timestamp)
    requires 0 < k <= |items| && !Creatable(items[k - 1])
    ensures CreatedFrom(items, k, n, now) == CreatedFrom(items, k - 1, n, now)
  {
  }

  /** Every stored text is non-blank and has no white space at either end. */
  lemma {:induction false} CreatableTextsTrimmed(items: seq<Json>, k: nat)
    requires k <= |items|
    ensures forall j :: 0 <= j < |CreatableTexts(items, k)| ==>
              CreatableTexts(items, k)[j] != "" && Trimmed(CreatableTexts(items, k)[j])
  {
    if k > 0 {
      CreatableTextsTrimmed(items, k - 1);
      if Creatable(items[k - 1]) {
        TrimIsTrimmed(items[k - 1].s);
      }
    }
  }

  /** When the first `k` entries are all creatable, each of them gives its
      trimmed text, in order. */
  lemma {:induction false} CreatableTextsAll(items: seq<Json>, k: nat)
    requires k <= |items|
    requires forall j :: 0 <= j < k ==> Creatable(items[j])
    ensures |CreatableTexts(items, k)| == k
    ensures forall j :: 0 <= j < k ==> items[j].Str? && CreatableTexts(items, k)[j] == Trim(items[j].s)
  {
    if k > 0 {
      CreatableTextsAll(items, k - 1);
    }
  }

  /** When the first `k` entries are all creatable, the loops create one code
      per entry: the j-th holds the j-th entry's trimmed text, is available,
      and has the j-th new id. */
  lemma CreatedFromAll(items: seq<Json>, k: nat, n: nat, now: Timestamp)
    requires k <= |items|
    requires forall j :: 0 <= j < k ==> Creatable(items[j])
    ensures |CreatedFrom(items, k, n, now)| == k
    ensures forall j :: 0 <= j < k ==>
              items[j].Str? &&
              CreatedFrom(items, k, n, now)[j] == AvailableCode(Trim(items[j].s), Uuid(n + j), now)
  {
    CreatableTextsAll(items, k);
    FreshCodesAt(CreatableTexts(items, k), n, now);
  }

  // ---------------------------------------------------------------------
  // GET /api/codes/stats
  // ---------------------------------------------------------------------

  /** The statistics of the whole store; getStatistics cannot throw, so the
      500 branch is never taken. */
  method GetStats(store: MemStorage) returns (resp: Response)
    ensures resp.status == 200 && resp.body.StatsReport?
    ensures resp.body.stats.total == |store.codes|
    ensures resp.body.stats.available == AvailableCodesCount(store.codes)
    ensures resp.body.stats == Statistics(store.codes)
  {
    var stats := Statistics(store.codes);
    resp := Response(200, StatsReport(stats));
  }

  // ---------------------------------------------------------------------
  // POST /api/codes/request
  // ---------------------------------------------------------------------

  /** Hands out the earliest-inserted available code and marks it distributed. */
  method RequestCode(store: MemStorage, recaptchaToken: Json, now: Timestamp) returns (resp: Response)
    requires store.Valid()
    modifies store
    ensures store.Valid()
    ensures store.admins == old(store.admins) && store.issued == old(store.issued)
    ensures Evolves(old(store.codes), old(store.issued), store.codes, store.issued)
    ensures !Truthy(recaptchaToken) ==>
              resp == Response(400, Error(CAPTCHA_REQUIRED)) && store.codes == old(store.codes)
    ensures Truthy(recaptchaToken) ==>
              match FirstWithStatus(old(store.codes), Available)
              case None =>
                resp == Response(404, Error(NO_CODES)) && store.codes == old(store.codes)
              case Some(i) =>
                var c := old(store.codes)[i];
                && resp == Response(200, IssuedCode(c.code, c.id))
                && store.codes == old(store.codes)[i := c.(status := Distributed, dateDistributed := Some(now))]
  {
    if !Truthy(recaptchaToken) {
      EvolvesRefl(store.codes, store.issued);
      return Response(400, Error(CAPTCHA_REQUIRED));
    }
    var code := NextAvailableCode(store.codes);
    if code.None? {
      EvolvesRefl(store.codes, store.issued);
      return Response(404, Error(NO_CODES));
    }
    var c := code.value;
    ghost var i := FirstWithStatus(store.codes, Available).value;
    StatusUpdateAt(store.codes, i, DISTRIBUTED, Some(now), None);
    var _ := store.UpdateCodeStatus(c.id, DISTRIBUTED, Some(now), None);
    resp := Response(200, IssuedCode(c.code, c.id));
  }

  // ---------------------------------------------------------------------
  // POST /api/codes/submit
  // ---------------------------------------------------------------------

  /** What POST /api/codes/submit answers, and the codes and id count it
      leaves, from the codes `cs` and the `n` ids issued before it. The entries
      are checked inside the loop, so the codes before a bad entry are stored
      although the request fails; the marking of the contributor's own code
      comes after all four are stored. */
  function Submitted(cs: seq<InviteCode>, n: nat, codes: Json, distributedCodeId: Json, now: Timestamp): (r: Outcome)
    ensures |cs| <= |r.codes| <= |cs| + 4 && r.issued == n + (|r.codes| - |cs|)
    ensures r.resp.status in {200, 400, 500}
  {
    if !codes.Arr? || |codes.items| != 4 then
      Outcome(Response(400, Error(NEED_FOUR)), cs, n)
    else
      var items := codes.items;
      var k := FirstNotCreatable(items, 0);
      var added := CreatedFrom(items, k, n, now);
      var created := cs + added;
      var n' := n + |added|;
      if k < 4 then
        Outcome(if NotText(items[k]) then Response(500, Error(SUBMIT_FAILED))
                else Response(400, Error(FILL_ALL)), created, n')
      else if Truthy(distributedCodeId) && distributedCodeId.Str? then
        var u := StatusUpdate(created, distributedCodeId.s, USED, None, None);
        Outcome(if u.0.Rejected? then Response(500, Error(SUBMIT_FAILED))
                else Response(200, Contributed(THANKS)), u.1, n')
      else
        Outcome(Response(200, Contributed(THANKS)), created, n')
  }

  /** The loop of POST /api/codes/submit: stores the entries one by one, in
      order, and stops with the error response at the first one that is not
      creatable; the codes stored before it stay. */
  method StoreContributed(store: MemStorage, items: seq<Json>, now: Timestamp)
    returns (failure: Option<Response>)
    requires |items| == 4
    modifies store
    ensures store.admins == old(store.admins)
    ensures var k := FirstNotCreatable(items, 0);
            var added := CreatedFrom(items, k, old(store.issued), now);
            && store.codes == old(store.codes) + added && store.issued == old(store.issued) + |added|
            && failure == if k == 4 then None
                          else if NotText(items[k]) then Some(Response(500, Error(SUBMIT_FAILED)))
                          else Some(Response(400, Error(FILL_ALL)))
  {
    ghost var c0, n0 := store.codes, store.issued;
    var createdCodes: seq<InviteCode> := [];
    var i := 0;
    while i < 4
      invariant 0 <= i <= 4 && FirstNotCreatable(items, i) == FirstNotCreatable(items, 0)
      invariant createdCodes == CreatedFrom(items, i, n0, now)
      invariant store.codes == c0 + createdCodes && store.issued == n0 + |createdCodes|
      invariant store.admins == old(store.admins)
    {
      var codeText := items[i];
      if !Creatable(codeText) {
        if NotText(codeText) {
          // `!codeText` is false and `codeText.trim` is not a function: the
          // TypeError reaches the catch.
          return Some(Response(500, Error(SUBMIT_FAILED)));
        }
        // Falsy, or nothing but white space.
        return Some(Response(400, Error(FILL_ALL)));
      }
      var newCode := store.CreateCode(InsertInviteCode(Trim(codeText.s), Some(AVAILABLE)), now);
      AvailableCodeIsNew(Trim(codeText.s), Uuid(n0 + |createdCodes|), now);
      CreatedFromStep(items, i + 1, n0, now, createdCodes, newCode);
      assert (c0 + createdCodes) + [newCode] == c0 + (createdCodes + [newCode]);
      createdCodes := createdCodes + [newCode];
      i := i + 1;
    }
    failure := None;
  }

  /** Stores four contributed codes and marks the code the contributor was given as used. */
  method Submit(store: MemStorage, codes: Json, distributedCodeId: Json, now: Timestamp)
    returns (resp: Response)
    requires store.Valid()
    modifies store
    ensures store.Valid() && store.admins == old(store.admins)
    ensures Outcome(resp, store.codes, store.issued)
         == Submitted(old(store.codes), old(store.issued), codes, distributedCodeId, now)
  {
    if !codes.Arr? || |codes.items| != 4 {
      return Response(400, Error(NEED_FOUR));
    }
    ghost var c0, n0 := store.codes, store.issued;
    var failure := StoreContributed(store, codes.items, now);
    FreshCodesKeepInvariant(c0, store.admins, n0, CreatableTexts(codes.items, FirstNotCreatable(codes.items, 0)), now);
    if failure.Some? {
      return failure.value;
    }
    if Truthy(distributedCodeId) && distributedCodeId.Str? {
      var r := store.UpdateCodeStatus(distributedCodeId.s, USED, None, None);
      if r.Rejected? {
        return Response(500, Error(SUBMIT_FAILED));
      }
    }
    // A truthy id that is not a string is never a key of the map, so the
    // update finds nothing and returns undefined without throwing.
    resp := Response(200, Contributed(THANKS));
  }

  /** Once all four entries are stored, what is left of the request is the
      marking of the contributor's code. */
  lemma SubmittedAfterLoop(cs: seq<InviteCode>, n: nat, items: seq<Json>, id: string, now: Timestamp)
    requires |items| == 4 && FirstNotCreatable(items, 0) == 4 && id != ""
    ensures var added := CreatedFrom(items, 4, n, now);
            var u := StatusUpdate(cs + added, id, USED, None, None);
            Submitted(cs, n, Arr(items), Str(id), now)
            == Outcome(if u.0.Rejected? then Response(500, Error(SUBMIT_FAILED))
                       else Response(200, Contributed(THANKS)), u.1, n + |added|)
  {
  }

  /** Submit puts no code back in the pool: it only adds codes under new ids
      and moves one code towards `used`. */
  lemma SubmittedEvolves(cs: seq<InviteCode>, n: nat, codes: Json, distributedCodeId: Json, now: Timestamp)
    ensures var o := Submitted(cs, n, codes, distributedCodeId, now);
            Evolves(cs, n, o.codes, o.issued)
  {
    if !codes.Arr? || |codes.items| != 4 {
      EvolvesRefl(cs, n);
    } else {
      var items := codes.items;
      var k := FirstNotCreatable(items, 0);
      var added := CreatedFrom(items, k, n, now);
      FreshCodesEvolve(cs, n, CreatableTexts(items, k), now);
      if k == 4 && Truthy(distributedCodeId) && distributedCodeId.Str? {
        var created := cs + added;
        StatusUpdateEvolves(created, n + |added|, distributedCodeId.s, USED, None, None);
        EvolvesTrans(cs, n, created, n + |added|,
                     StatusUpdate(created, distributedCodeId.s, USED, None, None).1, n + |added|);
      }
    }
  }

  /** Submit answers 400 and changes nothing unless `codes` is an array of exactly four. */
  lemma SubmitNeedsFour(cs: seq<InviteCode>, n: nat, codes: Json, distributedCodeId: Json, now: Timestamp)
    requires !codes.Arr? || |codes.items| != 4
    ensures var o := Submitted(cs, n, codes, distributedCodeId, now);
            o.resp.status == 400 && o.codes == cs && o.issued == n
  {
  }

  /** The k-th entry is the first one that is not creatable: the k entries
      before it are stored, trimmed and available, under the next k ids, and
      the request still fails (400 for a blank entry, 500 for one that is not text). */
  lemma SubmitStopsAtBadEntry(cs: seq<InviteCode>, n: nat, items: seq<Json>, k: nat,
                              distributedCodeId: Json, now: Timestamp)
    requires |items| == 4 && k < 4
    requires forall j :: 0 <= j < k ==> Creatable(items[j])
    requires !Creatable(items[k])
    ensures var o := Submitted(cs, n, Arr(items), distributedCodeId, now);
            && o.resp == (if NotText(items[k]) then Response(500, Error(SUBMIT_FAILED))
                          else Response(400, Error(FILL_ALL)))
            && o.issued == n + k && |o.codes| == |cs| + k && o.codes[..|cs|] == cs
            && forall j :: 0 <= j < k ==>
                 items[j].Str? &&
                 o.codes[|cs| + j] == AvailableCode(Trim(items[j].s), Uuid(n + j), now)
  {
    FirstNotCreatableSpec(items, 0);
    CreatedFromAll(items, k, n, now);
  }

  /** Four creatable entries are all stored, trimmed and available, under the
      next four ids; without a contributor's id that is all the request does. */
  lemma SubmitStoresFour(cs: seq<InviteCode>, n: nat, items: seq<Json>, distributedCodeId: Json, now: Timestamp)
    requires |items| == 4
    requires forall j :: 0 <= j < 4 ==> Creatable(items[j])
    ensures var o := Submitted(cs, n, Arr(items), distributedCodeId, now);
            var added := CreatedFrom(items, 4, n, now);
            && FirstNotCreatable(items, 0) == 4
            && o.issued == n + 4 && |added| == 4
            && (forall j :: 0 <= j < 4 ==>
                  items[j].Str? &&
                  added[j] == AvailableCode(Trim(items[j].s), Uuid(n + j), now))
            && (!Truthy(distributedCodeId) || !distributedCodeId.Str? ==>
                  o == Outcome(Response(200, Contributed(THANKS)), cs + added, n + 4))
  {
    FirstNotCreatableSpec(items, 0);
    CreatedFromAll(items, 4, n, now);
  }

  /** With four good entries, the contributor's code, when the store held it
      before the request, moves to `used` if it was `distributed` or already
      `used`; any other status makes the update throw, so the request answers
      500 although the four codes are stored. */
  lemma SubmitMarksUsed(cs: seq<InviteCode>, n: nat, items: seq<Json>, id: string, now: Timestamp)
    requires UniqueIds(cs) && CodeIdsIssued(cs, n)
    requires |items| == 4
    requires forall j :: 0 <= j < 4 ==> Creatable(items[j])
    requires id != "" && CodeById(cs, id).Some?
    ensures var c := CodeById(cs, id).value;
            var o := Submitted(cs, n, Arr(items), Str(id), now);
            var created := cs + CreatedFrom(items, 4, n, now);
            && o.issued == n + 4
            && if c.status == Distributed || c.status == Used then
                 && o.resp == Response(200, Contributed(THANKS))
                 && exists i :: 0 <= i < |cs| && cs[i] == c && o.codes == created[i := c.(status := Used)]
               else
                 o.resp == Response(500, Error(SUBMIT_FAILED)) && o.codes == created
  {
    FirstNotCreatableSpec(items, 0);
    CreatedFromAll(items, 4, n, now);
    SubmittedAfterLoop(cs, n, items, id, now);
    var added := CreatedFrom(items, 4, n, now);
    var created := cs + added;
    FreshCodesDistinct(cs, n, CreatableTexts(items, 4), now);
    IndexOfIdAppend(cs, added, id);
    var i := IndexOfId(cs, id).value;
    assert created[i] == cs[i];
    MarkUsed(created, id);
  }

  /** With four good entries, an id that names no code is ignored: the update
      finds nothing and the request succeeds. */
  lemma SubmitIgnoresUnknownId(cs: seq<InviteCode>, n: nat, items: seq<Json>, id: string, now: Timestamp)
    requires |items| == 4
    requires forall j :: 0 <= j < 4 ==> Creatable(items[j])
    requires id != "" && CodeById(cs + CreatedFrom(items, 4, n, now), id).None?
    ensures Submitted(cs, n, Arr(items), Str(id), now)
         == Outcome(Response(200, Contributed(THANKS)), cs + CreatedFrom(items, 4, n, now), n + 4)
  {
    FirstNotCreatableSpec(items, 0);
    CreatedFromAll(items, 4, n, now);
  }

  // ---------------------------------------------------------------------
  // POST /api/admin/login
  // ---------------------------------------------------------------------

  /** Logs an admin in. `compare` stands for `bcrypt.compare`: `None` when the
      call rejects, otherwise whether the password matches the stored hash. */
  method Login(store: MemStorage, session: Session, username: Json, password: Json,
               compare: (Json, string) -> Option<bool>)
    returns (resp: Response, after: Session)
    ensures var admin := if username.Str? then AdminByUsername(store.admins, username.s) else None;
            match admin
            case None =>
              resp == Response(401, Error(INVALID_CREDENTIALS)) && after == session
            case Some(a) =>
              if compare(password, a.password) == Some(true) then
                resp == Response(200, Success) && after == Session(Some(a.id))
              else if compare(password, a.password) == Some(false) then
                resp == Response(401, Error(INVALID_CREDENTIALS)) && after == session
              else
                resp == Response(500, Error(LOGIN_FAILED)) && after == session
    ensures after != session ==> resp == Response(200, Success)
  {
    after := session;
    // `admin.username === username` never holds for a username that is not a string.
    var admin := if username.Str? then AdminByUsername(store.admins, username.s) else None;
    if admin.None? {
      return Response(401, Error(INVALID_CREDENTIALS)), after;
    }
    var validPassword := compare(password, admin.value.password);
    if validPassword.None? {
      return Response(500, Error(LOGIN_FAILED)), after;
    }
    if !validPassword.value {
      return Response(401, Error(INVALID_CREDENTIALS)), after;
    }
    after := Session(Some(admin.value.id));
    resp := Response(200, Success);
  }

  // ---------------------------------------------------------------------
  // GET /api/admin/codes
  // ---------------------------------------------------------------------

  /** Lists every code, newest first, to an admin. */
  method ListCodes(store: MemStorage, session: Session) returns (resp: Response)
    ensures !Authorized(session) ==> resp == Response(401, Error(UNAUTHORIZED))
    ensures Authorized(session) ==>
              && resp.status == 200 && resp.body.CodeList?
              && multiset(resp.body.list) == multiset(store.codes)
              && NewestFirst(resp.body.list)
  {
    if !Authorized(session) {
      return Response(401, Error(UNAUTHORIZED));
    }
    var codes := AllCodes(store.codes);
    resp := Response(200, CodeList(codes));
  }

  // ---------------------------------------------------------------------
  // POST /api/admin/codes
  // ---------------------------------------------------------------------

  /** What POST /api/admin/codes answers, and the codes and id count it leaves.
      Blank entries are skipped; a truthy entry that is not text makes `trim`
      throw, after the codes before it are stored. */
  function Added(session: Session, cs: seq<InviteCode>, n: nat, codes: Json, now: Timestamp): (r: Outcome)
    ensures |cs| <= |r.codes| && r.codes[..|cs|] == cs && r.issued == n + (|r.codes| - |cs|)
    ensures r.resp.status in {200, 400, 401, 500}
    ensures r.resp.status == 200 ==> r.resp.body == AddedCodes(r.codes[|cs|..])
  {
    if !Authorized(session) then
      Outcome(Response(401, Error(UNAUTHORIZED)), cs, n)
    else if !codes.Arr? || |codes.items| == 0 then
      Outcome(Response(400, Error(NEED_ONE)), cs, n)
    else
      var items := codes.items;
      var k := FirstNotText(items, 0);
      var added := CreatedFrom(items, k, n, now);
      Outcome(if k < |items| then Response(500, Error(ADD_FAILED)) else Response(200, AddedCodes(added)),
              cs + added, n + |added|)
  }

  /** The loop of POST /api/admin/codes: stores the non-blank entries,
      trimmed, in input order, and stops at the first truthy entry that is
      not text, where `trim` throws; `stop` is that position, or the length
      when there is none. */
  method StoreEntries(store: MemStorage, items: seq<Json>, now: Timestamp)
    returns (createdCodes: seq<InviteCode>, stop: nat)
    modifies store
    ensures store.admins == old(store.admins)
    ensures stop == FirstNotText(items, 0)
    ensures createdCodes == CreatedFrom(items, stop, old(store.issued), now)
    ensures store.codes == old(store.codes) + createdCodes && store.issued == old(store.issued) + |createdCodes|
  {
    ghost var c0, n0 := store.codes, store.issued;
    createdCodes := [];
    var i := 0;
    while i < |items|
      invariant 0 <= i <= |items| && FirstNotText(items, i) == FirstNotText(items, 0)
      invariant createdCodes == CreatedFrom(items, i, n0, now)
      invariant store.codes == c0 + createdCodes && store.issued == n0 + |createdCodes|
      invariant store.admins == old(store.admins)
    {
      var codeText := items[i];
      if NotText(codeText) {
        // `codeText.trim` is not a function: the TypeError reaches the catch.
        return createdCodes, i;
      }
      if Creatable(codeText) {
        var newCode := store.CreateCode(InsertInviteCode(Trim(codeText.s), Some(AVAILABLE)), now);
        AvailableCodeIsNew(Trim(codeText.s), Uuid(n0 + |createdCodes|), now);
        CreatedFromStep(items, i + 1, n0, now, createdCodes, newCode);
        assert (c0 + createdCodes) + [newCode] == c0 + (createdCodes + [newCode]);
        createdCodes := createdCodes + [newCode];
      } else {
        CreatedFromSkip(items, i + 1, n0, now);
      }
      i := i + 1;
    }
    stop := i;
  }

  /** Adds the non-blank entries, trimmed and available, in input order, and
      returns exactly the codes it created. */
  method AddCodes(store: MemStorage, session: Session, codes: Json, now: Timestamp)
    returns (resp: Response)
    requires store.Valid()
    modifies store
    ensures store.Valid() && store.admins == old(store.admins)
    ensures Outcome(resp, store.codes, store.issued) == Added(session, old(store.codes), old(store.issued), codes, now)
  {
    if !Authorized(session) {
      return Response(401, Error(UNAUTHORIZED));
    }
    if !codes.Arr? || |codes.items| == 0 {
      return Response(400, Error(NEED_ONE));
    }
    ghost var c0, n0 := store.codes, store.issued;
    var createdCodes, stop := StoreEntries(store, codes.items, now);
    FreshCodesKeepInvariant(c0, store.admins, n0, CreatableTexts(codes.items, stop), now);
    if stop < |codes.items| {
      return Response(500, Error(ADD_FAILED));
    }
    resp := Response(200, AddedCodes(createdCodes));
  }

  /** Admin add puts no code back in the pool: it only adds codes under new ids. */
  lemma AddedEvolves(session: Session, cs: seq<InviteCode>, n: nat, codes: Json, now: Timestamp)
    ensures var o := Added(session, cs, n, codes, now);
            Evolves(cs, n, o.codes, o.issued)
  {
    if !Authorized(session) || !codes.Arr? || |codes.items| == 0 {
      EvolvesRefl(cs, n);
    } else {
      var items := codes.items;
      var k := FirstNotText(items, 0);
      FreshCodesEvolve(cs, n, CreatableTexts(items, k), now);
    }
  }

  /** Admin add answers 400 and changes nothing for a missing or empty array. */
  lemma AddNeedsCodes(session: Session, cs: seq<InviteCode>, n: nat, codes: Json, now: Timestamp)
    requires Authorized(session)
    requires !codes.Arr? || codes.items == []
    ensures var o := Added(session, cs, n, codes, now);
            o.resp.status == 400 && o.codes == cs && o.issued == n
  {
  }

  /** When every entry is text or falsy, admin add stores one code per
      non-blank entry, trimmed, available and under a new id, in input order
      after the existing codes, and returns exactly the codes it stored. */
  lemma AddReturnsCreated(session: Session, cs: seq<InviteCode>, n: nat, items: seq<Json>, now: Timestamp)
    requires UniqueIds(cs) && CodeIdsIssued(cs, n)
    requires Authorized(session) && items != []
    requires forall j :: 0 <= j < |items| ==> !NotText(items[j])
    ensures var o := Added(session, cs, n, Arr(items), now);
            && o.resp.status == 200 && o.resp.body.AddedCodes?
            && o.codes == cs + o.resp.body.codes && UniqueIds(o.codes)
            && |o.resp.body.codes| == |CreatableTexts(items, |items|)| <= |items|
            && forall j :: 0 <= j < |o.resp.body.codes| ==>
                 var c := o.resp.body.codes[j];
                 && c.code == CreatableTexts(items, |items|)[j] && c.code != "" && Trimmed(c.code)
                 && c.status == Available && CodeById(cs, c.id).None?
  {
    FirstNotTextSpec(items, 0);
    assert FirstNotText(items, 0) == |items|;
    var texts := CreatableTexts(items, |items|);
    var added := FreshCodes(texts, n, now);
    FreshCodesAt(texts, n, now);
    CreatableTextsTrimmed(items, |items|);
    FreshCodesDistinct(cs, n, texts, now);
    forall j | 0 <= j < |added|
      ensures CodeById(cs, added[j].id).None?
    {
      forall c | c in cs
        ensures c.id != added[j].id
      {
        var i :| 0 <= i < |cs| && cs[i] == c;
        assert (cs + added)[i] == c && (cs + added)[|cs| + j] == added[j];
      }
    }
  }

  /** A truthy entry that is not text stops admin add with a 500, after the
      codes for the non-blank entries before it are stored. */
  lemma AddStopsAtNonText(session: Session, cs: seq<InviteCode>, n: nat, items: seq<Json>, k: nat, now: Timestamp)
    requires Authorized(session)
    requires k < |items| && NotText(items[k])
    requires forall j :: 0 <= j < k ==> !NotText(items[j])
    ensures var o := Added(session, cs, n, Arr(items), now);
            && o.resp == Response(500, Error(ADD_FAILED))
            && o.codes == cs + FreshCodes(CreatableTexts(items, k), n, now)
            && o.issued == n + |CreatableTexts(items, k)|
  {
    FirstNotTextSpec(items, 0);
  }

  // ---------------------------------------------------------------------
  // PATCH /api/admin/codes/:id
  // ---------------------------------------------------------------------

  /** Sets one code's status through the transition check. */
  method PatchCode(store: MemStorage, session: Session, id: string, status: Json)
    returns (resp: Response)
    requires store.Valid()
    modifies store
    ensures store.Valid()
    ensures store.admins == old(store.admins) && store.issued == old(store.issued)
    ensures Evolves(old(store.codes), old(store.issued), store.codes, store.issued)
    ensures !Authorized(session) ==> resp == Response(401, Error(UNAUTHORIZED)) && unchanged(store)
    ensures Authorized(session) && status.Str? ==>
              var u := StatusUpdate(old(store.codes), id, status.s, None, None);
              && store.codes == u.1
              && resp == match u.0
                         case NotFound => Response(404, Error(CODE_NOT_FOUND))
                         case Rejected(_, _) => Response(500, Error(UPDATE_FAILED))
                         case Updated(c) => Response(200, CodeRecord(c))
    ensures Authorized(session) && !status.Str? ==>
              && store.codes == old(store.codes)
              && resp == if CodeById(old(store.codes), id).None? then Response(404, Error(CODE_NOT_FOUND))
                         else Response(500, Error(UPDATE_FAILED))
  {
    EvolvesRefl(store.codes, store.issued);
    if !Authorized(session) {
      return Response(401, Error(UNAUTHORIZED));
    }
    if !status.Str? {
      // No stored status is strictly equal to a non-string, and none of the
      // table's lists includes one, so updateCodeStatus throws once it finds the code.
      if CodeById(store.codes, id).None? {
        return Response(404, Error(CODE_NOT_FOUND));
      }
      return Response(500, Error(UPDATE_FAILED));
    }
    var updatedCode := store.UpdateCodeStatus(id, status.s, None, None);
    match updatedCode
    case NotFound => resp := Response(404, Error(CODE_NOT_FOUND));
    case Rejected(_, _) => resp := Response(500, Error(UPDATE_FAILED));
    case Updated(c) => resp := Response(200, CodeRecord(c));
  }

  // ---------------------------------------------------------------------
  // DELETE /api/admin/codes/:id
  // ---------------------------------------------------------------------

  /** Deletes one code. */
  method DeleteCode(store: MemStorage, session: Session, id: string) returns (resp: Response)
    requires store.Valid()
    modifies store
    ensures store.Valid()
    ensures store.admins == old(store.admins) && store.issued == old(store.issued)
    ensures Evolves(old(store.codes), old(store.issued), store.codes, store.issued)
    ensures !Authorized(session) ==> resp == Response(401, Error(UNAUTHORIZED)) && unchanged(store)
    ensures Authorized(session) ==>
              var d := Removal(old(store.codes), id);
              && store.codes == d.1
              && resp == if d.0 then Response(200, Success) else Response(404, Error(CODE_NOT_FOUND))
  {
    EvolvesRefl(store.codes, store.issued);
    if !Authorized(session) {
      return Response(401, Error(UNAUTHORIZED));
    }
    var deleted := store.DeleteCode(id);
    if !deleted {
      return Response(404, Error(CODE_NOT_FOUND));
    }
    resp := Response(200, Success);
  }
}
