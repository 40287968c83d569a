/** The in-memory store `MemStorage` (server/storage.ts).

    The store's `codes` map is a JavaScript `Map`. It iterates in insertion
    order, and `set` on a key it already holds keeps that key's place, so its
    values are modelled as a sequence in insertion order: `createCode` appends,
    `updateCodeStatus` replaces in place, `deleteCode` removes. The read-only
    operations are functions of that sequence. */
module Storage {
  import opened Optional
  import opened Schema
  import opened Ids

  // ---------------------------------------------------------------------
  // What the store keeps true of its two maps
  // ---------------------------------------------------------------------

  /** Map keys are distinct. */
  ghost predicate UniqueIds(cs: seq<InviteCode>) {
    forall i, j :: 0 <= i < j < |cs| ==> cs[i].id != cs[j].id
  }

  ghost predicate UniqueAdminIds(admins: seq<Admin>) {
    forall i, j :: 0 <= i < j < |admins| ==> admins[i].id != admins[j].id
  }

  /** Every key came from the first `n` calls of the id generator. */
  ghost predicate CodeIdsIssued(cs: seq<InviteCode>, n: nat) {
    forall i :: 0 <= i < |cs| ==> Issued(cs[i].id, n)
  }

  ghost predicate AdminIdsIssued(admins: seq<Admin>, n: nat) {
    forall i :: 0 <= i < |admins| ==> Issued(admins[i].id, n)
  }

  /** Every stored status was read from text. */
  ghost predicate CanonicalStatuses(cs: seq<InviteCode>) {
    forall i :: 0 <= i < |cs| ==> Canonical(cs[i].status)
  }

  ghost predicate StoreInvariant(cs: seq<InviteCode>, admins: seq<Admin>, n: nat) {
    && UniqueIds(cs) && CodeIdsIssued(cs, n) && CanonicalStatuses(cs)
    && UniqueAdminIds(admins) && AdminIdsIssued(admins, n)
  }

  // ---------------------------------------------------------------------
  // Lookups: getCodeById, getCodeByValue, getAdminByUsername
  // ---------------------------------------------------------------------

  /** The position of key `id` (`this.codes.get(id)`). */
  function IndexOfId(cs: seq<InviteCode>, id: string): (r: Option<nat>)
    ensures r.None? <==> forall j :: 0 <= j < |cs| ==> cs[j].id != id
    ensures r.Some? ==> r.value < |cs| && cs[r.value].id == id
    ensures r.Some? ==> forall j :: 0 <= j < r.value ==> cs[j].id != id
  {
    if cs == [] then None
    else if cs[0].id == id then Some(0)
    else match IndexOfId(cs[1..], id)
      case None => None
      case Some(i) => Some(i + 1)
  }

  /** getCodeById. */
  function CodeById(cs: seq<InviteCode>, id: string): (r: Option<InviteCode>)
    ensures r.None? <==> forall c :: c in cs ==> c.id != id
    ensures r.Some? ==> r.value in cs && r.value.id == id
  {
    match IndexOfId(cs, id)
    case None => None
    case Some(i) => Some(cs[i])
  }

  /** Under unique keys, the lookup finds the one position holding the key. */
  lemma IndexOfUniqueId(cs: seq<InviteCode>, i: nat)
    requires UniqueIds(cs) && i < |cs|
    ensures IndexOfId(cs, cs[i].id) == Some(i)
    ensures CodeById(cs, cs[i].id) == Some(cs[i])
  {
  }

  /** getCodeByValue: the first code, in insertion order, with that value. */
  function CodeByValue(cs: seq<InviteCode>, value: string): (r: Option<InviteCode>)
    ensures r.None? <==> forall c :: c in cs ==> c.code != value
    ensures r.Some? ==> exists i :: 0 <= i < |cs| && cs[i] == r.value && r.value.code == value
                               && forall j :: 0 <= j < i ==> cs[j].code != value
    ensures UniqueCodeValues(cs) ==> forall c :: c in cs && c.code == value ==> r == Some(c)
  {
    match IndexOfValue(cs, value)
    case None => None
    case Some(i) => Some(cs[i])
  }

  /** The position of the first code with that value. */
  function IndexOfValue(cs: seq<InviteCode>, value: string): (r: Option<nat>)
    ensures r.None? <==> forall j :: 0 <= j < |cs| ==> cs[j].code != value
    ensures r.Some? ==> r.value < |cs| && cs[r.value].code == value
    ensures r.Some? ==> forall j :: 0 <= j < r.value ==> cs[j].code != value
  {
    if cs == [] then None
    else if cs[0].code == value then Some(0)
    else match IndexOfValue(cs[1..], value)
      case None => None
      case Some(i) => Some(i + 1)
  }

  /** `createCode` does not check that a value is new; a code added with a value
      that is already stored stays invisible to getCodeByValue. */
  lemma DuplicateValueShadowed(cs: seq<InviteCode>, extra: InviteCode)
    requires CodeByValue(cs, extra.code).Some?
    ensures CodeByValue(cs + [extra], extra.code) == CodeByValue(cs, extra.code)
  {
    var i := IndexOfValue(cs, extra.code).value;
    assert (cs + [extra])[i] == cs[i];
    assert forall j :: 0 <= j < i ==> (cs + [extra])[j] == cs[j];
  }

  /** getAdminByUsername: the first admin, in insertion order, with that name. */
  function AdminByUsername(admins: seq<Admin>, username: string): (r: Option<Admin>)
    ensures r.None? <==> forall a :: a in admins ==> a.username != username
    ensures r.Some? ==> r.value in admins && r.value.username == username
    ensures UniqueUsernames(admins) ==> forall a :: a in admins && a.username == username ==> r == Some(a)
  {
    match IndexOfUsername(admins, username)
    case None => None
    case Some(i) => Some(admins[i])
  }

  /** The position of the first admin with that name. */
  function IndexOfUsername(admins: seq<Admin>, username: string): (r: Option<nat>)
    ensures r.None? <==> forall j :: 0 <= j < |admins| ==> admins[j].username != username
    ensures r.Some? ==> r.value < |admins| && admins[r.value].username == username
    ensures r.Some? ==> forall j :: 0 <= j < r.value ==> admins[j].username != username
  {
    if admins == [] then None
    else if admins[0].username == username then Some(0)
    else match IndexOfUsername(admins[1..], username)
      case None => None
      case Some(i) => Some(i + 1)
  }

  // ---------------------------------------------------------------------
  // Filters: getCodesByStatus, getNextAvailableCode, getAvailableCodesCount
  // ---------------------------------------------------------------------

  /** getCodesByStatus: the codes with that status, in insertion order. */
  function CodesByStatus(cs: seq<InviteCode>, status: Status): (r: seq<InviteCode>)
    ensures |r| <= |cs|
    ensures forall c :: c in r <==> c in cs && c.status == status
  {
    if cs == [] then []
    else (if cs[0].status == status then [cs[0]] else []) + CodesByStatus(cs[1..], status)
  }

  /** The filter keeps every code with the status as often as the store holds
      it, and no other code. */
  lemma {:induction false} FilterMultiplicity(cs: seq<InviteCode>, status: Status)
    ensures forall c :: multiset(CodesByStatus(cs, status))[c] == if c.status == status then multiset(cs)[c] else 0
  {
    if cs != [] {
      assert cs == [cs[0]] + cs[1..];
      FilterMultiplicity(cs[1..], status);
    }
  }

  /** Filtering keeps insertion order: the codes of `a` that pass come first,
      in their order, then those of `b`. */
  lemma {:induction false} FilterConcat(a: seq<InviteCode>, b: seq<InviteCode>, status: Status)
    ensures CodesByStatus(a + b, status) == CodesByStatus(a, status) + CodesByStatus(b, status)
  {
    if a == [] {
      assert a + b == b;
    } else {
      var head := if a[0].status == status then [a[0]] else [];
      var x, y := CodesByStatus(a[1..], status), CodesByStatus(b, status);
      calc {
        CodesByStatus(a + b, status);
      == { assert (a + b)[0] == a[0] && (a + b)[1..] == a[1..] + b; }
        head + CodesByStatus(a[1..] + b, status);
      == { FilterConcat(a[1..], b, status); }
        head + (x + y);
      == { assert head + (x + y) == (head + x) + y; }
        CodesByStatus(a, status) + y;
      }
    }
  }

  /** The number of positions of `cs` that hold a code with status `st`. */
  ghost function CountWith(cs: seq<InviteCode>, st: Status): nat {
    |set i | 0 <= i < |cs| && cs[i].status == st|
  }

  /** Storing one more code adds one to the count of its own status only. */
  lemma CountWithSnoc(cs: seq<InviteCode>, c: InviteCode, st: Status)
    ensures CountWith(cs + [c], st) == CountWith(cs, st) + (if c.status == st then 1 else 0)
  {
    var before := set i | 0 <= i < |cs| && cs[i].status == st;
    var after := set i | 0 <= i < |cs + [c]| && (cs + [c])[i].status == st;
    assert forall i :: 0 <= i < |cs| ==> (cs + [c])[i] == cs[i];
    assert after == before + (if c.status == st then {|cs|} else {});
    assert |cs| !in before;
  }

  /** The filter holds exactly as many codes as there are with that status. */
  lemma {:induction false} FilterCount(cs: seq<InviteCode>, st: Status)
    ensures |CodesByStatus(cs, st)| == CountWith(cs, st)
  {
    var hits := set i | 0 <= i < |cs| && cs[i].status == st;
    if cs == [] {
      assert hits == {};
    } else {
      var init, last := cs[..|cs| - 1], cs[|cs| - 1];
      assert cs == init + [last];
      FilterCount(init, st);
      FilterConcat(init, [last], st);
      CountWithSnoc(init, last, st);
    }
  }

  /** The position of the earliest-inserted code with that status. */
  function FirstWithStatus(cs: seq<InviteCode>, status: Status): (r: Option<nat>)
    ensures r.None? <==> forall j :: 0 <= j < |cs| ==> cs[j].status != status
    ensures r.Some? ==> r.value < |cs| && cs[r.value].status == status
    ensures r.Some? ==> forall j :: 0 <= j < r.value ==> cs[j].status != status
  {
    if cs == [] then None
    else if cs[0].status == status then Some(0)
    else match FirstWithStatus(cs[1..], status)
      case None => None
      case Some(i) => Some(i + 1)
  }

  /** The head of the filtered list is the earliest code with that status. */
  lemma {:induction false} FilterHead(cs: seq<InviteCode>, status: Status)
    ensures FirstWithStatus(cs, status).None? <==> CodesByStatus(cs, status) == []
    ensures FirstWithStatus(cs, status).Some? ==>
              CodesByStatus(cs, status)[0] == cs[FirstWithStatus(cs, status).value]
  {
    if cs == [] {
    } else if cs[0].status == status {
      assert CodesByStatus(cs, status) == [cs[0]] + CodesByStatus(cs[1..], status);
    } else {
      var tail := cs[1..];
      FilterHead(tail, status);
      assert CodesByStatus(cs, status) == [] + CodesByStatus(tail, status);
      var g := FirstWithStatus(tail, status);
      if g.Some? {
        assert tail[g.value] == cs[g.value + 1];
      }
    }
  }

  /** getNextAvailableCode: the first element of `getCodesByStatus('available')`,
      which is the earliest-inserted available code. */
  function NextAvailableCode(cs: seq<InviteCode>): (r: Option<InviteCode>)
    ensures r.None? <==> forall j :: 0 <= j < |cs| ==> cs[j].status != Available
    ensures r == match FirstWithStatus(cs, Available)
                 case None => None
                 case Some(i) => Some(cs[i])
  {
    FilterHead(cs, Available);
    var availableCodes := CodesByStatus(cs, Available);
    if |availableCodes| == 0 then None else Some(availableCodes[0])
  }

  /** getAvailableCodesCount. */
  function AvailableCodesCount(cs: seq<InviteCode>): (n: nat)
    ensures n == CountWith(cs, Available)
    ensures n == 0 <==> NextAvailableCode(cs).None?
    ensures n <= |cs|
  {
    FilterHead(cs, Available);
    FilterCount(cs, Available);
    |CodesByStatus(cs, Available)|
  }

  // ---------------------------------------------------------------------
  // getStatistics
  // ---------------------------------------------------------------------

  datatype Stats = Stats(total: nat, available: nat, distributed: nat, used: nat, invalid: nat)

  /** Number of codes whose status is none of the four known ones. */
  function UnknownStatusCount(cs: seq<InviteCode>): nat {
    if cs == [] then 0 else (if cs[0].status.Other? then 1 else 0) + UnknownStatusCount(cs[1..])
  }

  /** Every code has exactly one status. */
  lemma {:induction false} StatusCountsPartition(cs: seq<InviteCode>)
    ensures |CodesByStatus(cs, Available)| + |CodesByStatus(cs, Distributed)|
          + |CodesByStatus(cs, Used)| + |CodesByStatus(cs, Invalid)| + UnknownStatusCount(cs) == |cs|
    ensures UnknownStatusCount(cs) == 0 <==> forall j :: 0 <= j < |cs| ==> !cs[j].status.Other?
  {
    if cs != [] {
      StatusCountsPartition(cs[1..]);
      assert forall j :: 1 <= j < |cs| ==> cs[j] == cs[1..][j - 1];
    }
  }

  /** getStatistics. The four counts leave out codes whose status is unknown,
      so they add up to `total` exactly when there are none. */
  function Statistics(cs: seq<InviteCode>): (s: Stats)
    ensures s.total == |cs|
    ensures s.available == CountWith(cs, Available) && s.distributed == CountWith(cs, Distributed)
    ensures s.used == CountWith(cs, Used) && s.invalid == CountWith(cs, Invalid)
    ensures s.available == AvailableCodesCount(cs)
    ensures s.available + s.distributed + s.used + s.invalid <= s.total
    ensures s.available + s.distributed + s.used + s.invalid == s.total
            <==> forall j :: 0 <= j < |cs| ==> !cs[j].status.Other?
  {
    StatusCountsPartition(cs);
    FilterCount(cs, Available);
    FilterCount(cs, Distributed);
    FilterCount(cs, Used);
    FilterCount(cs, Invalid);
    Stats(|cs|,
          |CodesByStatus(cs, Available)|,
          |CodesByStatus(cs, Distributed)|,
          |CodesByStatus(cs, Used)|,
          |CodesByStatus(cs, Invalid)|)
  }

  // ---------------------------------------------------------------------
  // getAllCodes: newest first
  // ---------------------------------------------------------------------

  ghost predicate NewestFirst(cs: seq<InviteCode>) {
    forall i, j :: 0 <= i < j < |cs| ==> cs[i].dateAdded >= cs[j].dateAdded
  }

  /** Places `c` before the first code that is not newer than it. */
  function InsertNewest(c: InviteCode, cs: seq<InviteCode>): (r: seq<InviteCode>)
    requires NewestFirst(cs)
    ensures NewestFirst(r)
    ensures multiset(r) == multiset(cs) + multiset{c}
    ensures forall x :: x in r ==> x == c || x in cs
  {
    if cs == [] || c.dateAdded >= cs[0].dateAdded then
      [c] + cs
    else
      var rest := InsertNewest(c, cs[1..]);
      NewerThanRest(c, cs, rest);
      assert cs == [cs[0]] + cs[1..];
      [cs[0]] + rest
  }

  lemma NewerThanRest(c: InviteCode, cs: seq<InviteCode>, rest: seq<InviteCode>)
    requires NewestFirst(cs) && NewestFirst(rest)
    requires cs != [] && c.dateAdded < cs[0].dateAdded
    requires forall x :: x in rest ==> x == c || x in cs[1..]
    ensures NewestFirst([cs[0]] + rest)
  {
    var r := [cs[0]] + rest;
    forall i, j | 0 <= i < j < |r|
      ensures r[i].dateAdded >= r[j].dateAdded
    {
      if i == 0 {
        assert r[j] in rest;
        if r[j] != c {
          var k :| 0 <= k < |cs[1..]| && cs[1..][k] == r[j];
          assert cs[k + 1] == r[j];
        }
      } else {
        assert r[i] == rest[i - 1] && r[j] == rest[j - 1];
      }
    }
  }

  /** getAllCodes: all stored codes, newest `dateAdded` first. The comparator
      sort is stable, so codes added at the same instant keep insertion order. */
  function AllCodes(cs: seq<InviteCode>): (r: seq<InviteCode>)
    ensures NewestFirst(r)
    ensures multiset(r) == multiset(cs)
    ensures |r| == |cs|
  {
    if cs == [] then []
    else
      assert cs == [cs[0]] + cs[1..];
      InsertNewest(cs[0], AllCodes(cs[1..]))
  }

  // ---------------------------------------------------------------------
  // What the mutators compute
  // ---------------------------------------------------------------------

  /** The record createCode builds: the store, not the caller, supplies the
      id and `dateAdded`; the nullable columns start out null. */
  function NewCode(insertCode: InsertInviteCode, id: string, now: Timestamp): (c: InviteCode)
    ensures c.id == id && c.code == insertCode.code && c.dateAdded == now
    ensures StatusName(c.status)
            == if insertCode.status.None? || insertCode.status.value == "" then AVAILABLE else insertCode.status.value
    ensures c.dateDistributed.None? && c.distributedCodeId.None?
  {
    InviteCode(id, insertCode.code, InsertStatus(insertCode.status), now, None, None)
  }

  /** The record `createCode({code: value, status: 'available'})` builds. */
  function AvailableCode(value: string, id: string, now: Timestamp): InviteCode {
    InviteCode(id, value, Available, now, None, None)
  }

  /** Asking for status `available` by name stores an available code. */
  lemma AvailableCodeIsNew(value: string, id: string, now: Timestamp)
    ensures NewCode(InsertInviteCode(value, Some(AVAILABLE)), id, now) == AvailableCode(value, id, now)
  {
  }

  /** The records that successive `createCode({code: v, status: 'available'})`
      calls append for the first `k` values of `values`, starting from the
      `n`-th id, all within one request whose clock reads `now`. */
  function FreshPrefix(values: seq<string>, k: nat, n: nat, now: Timestamp): (r: seq<InviteCode>)
    requires k <= |values|
    ensures |r| == k
  {
    if k == 0 then []
    else FreshPrefix(values, k - 1, n, now) + [AvailableCode(values[k - 1], Uuid(n + k - 1), now)]
  }

  /** The records those calls append for all of `values`. */
  function FreshCodes(values: seq<string>, n: nat, now: Timestamp): (r: seq<InviteCode>)
    ensures |r| == |values|
  {
    FreshPrefix(values, |values|, n, now)
  }

  lemma {:induction false} FreshPrefixAt(values: seq<string>, k: nat, n: nat, now: Timestamp)
    requires k <= |values|
    ensures forall j :: 0 <= j < k ==> FreshPrefix(values, k, n, now)[j] == AvailableCode(values[j], Uuid(n + j), now)
  {
    if k > 0 {
      FreshPrefixAt(values, k - 1, n, now);
    }
  }

  /** The j-th fresh code holds the j-th value, is available, has the j-th
      new id and the request's clock reading, and has null distribution columns. */
  lemma FreshCodesAt(values: seq<string>, n: nat, now: Timestamp)
    ensures forall j :: 0 <= j < |values| ==>
              FreshCodes(values, n, now)[j] == AvailableCode(values[j], Uuid(n + j), now)
    ensures forall j :: 0 <= j < |values| ==>
              var c := FreshCodes(values, n, now)[j];
              && c.id == Uuid(n + j) && c.code == values[j] && c.status == Available
              && c.dateAdded == now && c.dateDistributed.None? && c.distributedCodeId.None?
  {
    FreshPrefixAt(values, |values|, n, now);
  }

  /** Values after the first `k` do not change the first `k` records. */
  lemma {:induction false} FreshPrefixExtend(values: seq<string>, more: seq<string>, k: nat, n: nat, now: Timestamp)
    requires k <= |values|
    ensures FreshPrefix(values + more, k, n, now) == FreshPrefix(values, k, n, now)
  {
    if k > 0 {
      FreshPrefixExtend(values, more, k - 1, n, now);
      assert (values + more)[k - 1] == values[k - 1];
    }
  }

  /** The ids of fresh codes are new, and distinct from one another. */
  lemma FreshCodesDistinct(cs: seq<InviteCode>, n: nat, values: seq<string>, now: Timestamp)
    requires UniqueIds(cs) && CodeIdsIssued(cs, n)
    ensures UniqueIds(cs + FreshCodes(values, n, now))
  {
    FreshCodesAt(values, n, now);
    var added := FreshCodes(values, n, now);
    var grown := cs + added;
    forall i, j | 0 <= i < j < |grown|
      ensures grown[i].id != grown[j].id
    {
      if j < |cs| {
        assert grown[i] == cs[i] && grown[j] == cs[j];
      } else if i < |cs| {
        assert grown[i] == cs[i] && Issued(cs[i].id, n);
        assert grown[j] == added[j - |cs|];
        IssuedExactly(n + (j - |cs|), n);
      } else {
        assert grown[i] == added[i - |cs|] && grown[j] == added[j - |cs|];
      }
    }
  }

  /** Appending fresh codes keeps the store invariant: their ids are new and
      distinct, and their status was read from text. */
  lemma FreshCodesKeepInvariant(cs: seq<InviteCode>, admins: seq<Admin>, n: nat,
                                values: seq<string>, now: Timestamp)
    requires StoreInvariant(cs, admins, n)
    ensures StoreInvariant(cs + FreshCodes(values, n, now), admins, n + |values|)
  {
    FreshCodesAt(values, n, now);
    var added := FreshCodes(values, n, now);
    var grown := cs + added;
    var n' := n + |values|;
    FreshCodesDistinct(cs, n, values, now);
    forall i | 0 <= i < |grown|
      ensures Issued(grown[i].id, n') && Canonical(grown[i].status)
    {
      if i < |cs| {
        assert grown[i] == cs[i];
        IssuedMonotone(cs[i].id, n, n');
      } else {
        assert grown[i] == added[i - |cs|];
        assert Uuid(n + (i - |cs|)) == grown[i].id;
      }
    }
    forall i | 0 <= i < |admins|
      ensures Issued(admins[i].id, n')
    {
      IssuedMonotone(admins[i].id, n, n');
    }
  }

  /** validTransitions: the statuses a known status may move to; a status the
      table does not list has no entry. */
  function ValidTransitions(current: Status): (r: Option<seq<Status>>)
    ensures r.None? <==> current.Other?
    ensures r.Some? ==> forall t :: t in r.value ==> !t.Other? && Rank(current) < Rank(t)
    ensures r.Some? && current != Invalid ==> Invalid in r.value
  {
    match current
    case Available => Some([Distributed, Invalid])
    case Distributed => Some([Used, Invalid])
    case Used => Some([Invalid])
    case Invalid => Some([])
    case Other(_) => None
  }

  /** Position in the linear lifecycle available, distributed, used, invalid. */
  function Rank(st: Status): nat
    requires !st.Other?
  {
    match st
    case Available => 0
    case Distributed => 1
    case Used => 2
    case Invalid => 3
  }

  /** The check at storage.ts:87: keeping the current status is always
      allowed, otherwise the target must be listed for the current status. */
  function TransitionAllowed(from: Status, to: Status): (r: bool)
    ensures from == to ==> r
    ensures r && to == Available ==> from == Available
    ensures r && from == Invalid ==> to == Invalid
    ensures from.Other? || to.Other? ==> (r <==> from == to)
    ensures r && !from.Other? && !to.Other? ==> Rank(from) <= Rank(to)
  {
    from == to || (ValidTransitions(from).Some? && to in ValidTransitions(from).value)
  }

  /** What updateCodeStatus returns: `undefined`, a thrown
      "Invalid status transition from <from> to <to>", or the updated code. */
  datatype UpdateResult = NotFound | Rejected(from: string, to: string) | Updated(code: InviteCode)

  /** updateCodeStatus on the map's values: the result, and the values after. */
  function StatusUpdate(cs: seq<InviteCode>, id: string, status: string,
                        dateDistributed: Option<Timestamp>, distributedCodeId: Option<string>)
    : (r: (UpdateResult, seq<InviteCode>))
    ensures |r.1| == |cs|
    ensures r.0.NotFound? <==> CodeById(cs, id).None?
    ensures r.0.Updated? <==>
              CodeById(cs, id).Some? && TransitionAllowed(CodeById(cs, id).value.status, ParseStatus(status))
    ensures !r.0.Updated? ==> r.1 == cs
    ensures r.0.Updated? ==> r.0.code in r.1 && r.0.code.id == id && StatusName(r.0.code.status) == status
  {
    match IndexOfId(cs, id)
    case None => (NotFound, cs)
    case Some(i) =>
      var code := cs[i];
      if !TransitionAllowed(code.status, ParseStatus(status)) then
        (Rejected(StatusName(code.status), status), cs)
      else
        var updatedCode := WithStatus(code, status, dateDistributed, distributedCodeId);
        assert cs[i := updatedCode][i] == updatedCode;
        (Updated(updatedCode), cs[i := updatedCode])
  }

  /** What updateCodeStatus promises: `undefined` exactly for an unknown id,
      a throw exactly for a transition the table does not allow, and
      otherwise the code in place with its new status and, where given, new
      distribution columns; nothing changes unless the update succeeds. */
  lemma StatusUpdateSpec(cs: seq<InviteCode>, id: string, status: string,
                         dateDistributed: Option<Timestamp>, distributedCodeId: Option<string>)
    ensures var r := StatusUpdate(cs, id, status, dateDistributed, distributedCodeId);
            && (r.0.NotFound? <==> CodeById(cs, id).None?)
            && (r.0.Rejected? <==>
                  CodeById(cs, id).Some? && !TransitionAllowed(CodeById(cs, id).value.status, ParseStatus(status)))
            && (!r.0.Updated? ==> r.1 == cs)
            && (r.0.Rejected? ==> r.0 == Rejected(StatusName(CodeById(cs, id).value.status), status))
    ensures var r := StatusUpdate(cs, id, status, dateDistributed, distributedCodeId);
            r.0.Updated? ==>
              var before, after := CodeById(cs, id).value, r.0.code;
              && IndexOfId(cs, id).Some? && r.1 == cs[IndexOfId(cs, id).value := after]
              && after.id == id && after.code == before.code && after.dateAdded == before.dateAdded
              && StatusName(after.status) == status
              && after.dateDistributed == (if dateDistributed.Some? then dateDistributed else before.dateDistributed)
              && after.distributedCodeId == (if distributedCodeId.Some? then distributedCodeId else before.distributedCodeId)
  {
    if IndexOfId(cs, id).Some? {
      var i := IndexOfId(cs, id).value;
      assert CodeById(cs, id) == Some(cs[i]);
    }
  }

  /** The record `{...code, status, dateDistributed: ... ?? code.dateDistributed,
      distributedCodeId: ... ?? code.distributedCodeId}`. */
  function WithStatus(code: InviteCode, status: string,
                      dateDistributed: Option<Timestamp>, distributedCodeId: Option<string>): (r: InviteCode)
    ensures r.id == code.id && r.code == code.code && r.dateAdded == code.dateAdded
    ensures StatusName(r.status) == status
    ensures dateDistributed.Some? ==> r.dateDistributed == dateDistributed
    ensures dateDistributed.None? ==> r.dateDistributed == code.dateDistributed
    ensures distributedCodeId.Some? ==> r.distributedCodeId == distributedCodeId
    ensures distributedCodeId.None? ==> r.distributedCodeId == code.distributedCodeId
  {
    code.(
      status := ParseStatus(status),
      dateDistributed := if dateDistributed.Some? then dateDistributed else code.dateDistributed,
      distributedCodeId := if distributedCodeId.Some? then distributedCodeId else code.distributedCodeId)
  }

  /** Under unique keys, an allowed update of the code at position `i` replaces
      exactly that position. */
  lemma StatusUpdateAt(cs: seq<InviteCode>, i: nat, status: string,
                       dateDistributed: Option<Timestamp>, distributedCodeId: Option<string>)
    requires UniqueIds(cs) && i < |cs|
    requires TransitionAllowed(cs[i].status, ParseStatus(status))
    ensures var updated := WithStatus(cs[i], status, dateDistributed, distributedCodeId);
            StatusUpdate(cs, cs[i].id, status, dateDistributed, distributedCodeId)
            == (Updated(updated), cs[i := updated])
  {
    assert IndexOfId(cs, cs[i].id) == Some(i);
  }

  /** Codes appended after `cs` do not hide a code `cs` already holds. */
  lemma {:induction false} IndexOfIdAppend(cs: seq<InviteCode>, more: seq<InviteCode>, id: string)
    requires IndexOfId(cs, id).Some?
    ensures IndexOfId(cs + more, id) == IndexOfId(cs, id)
  {
    assert (cs + more)[0] == cs[0];
    if cs[0].id != id {
      assert (cs + more)[1..] == cs[1..] + more;
      IndexOfIdAppend(cs[1..], more, id);
    }
  }

  /** Marking a known code `used` (no distribution columns given) succeeds
      exactly when it is `distributed` or already `used`, and then changes
      nothing but its status; otherwise the update throws and nothing changes. */
  lemma MarkUsed(cs: seq<InviteCode>, id: string)
    requires UniqueIds(cs) && CodeById(cs, id).Some?
    ensures var c := CodeById(cs, id).value;
            var u := StatusUpdate(cs, id, USED, None, None);
            if c.status == Distributed || c.status == Used then
              && u.0 == Updated(c.(status := Used))
              && exists i :: 0 <= i < |cs| && cs[i] == c && u.1 == cs[i := c.(status := Used)]
            else
              u.0.Rejected? && u.1 == cs
  {
    var i := IndexOfId(cs, id).value;
    assert cs[i] == CodeById(cs, id).value;
    if cs[i].status == Distributed || cs[i].status == Used {
      StatusUpdateAt(cs, i, USED, None, None);
    }
  }

  /** A successful update leaves every other entry as it was. */
  lemma OnlyTargetUpdated(cs: seq<InviteCode>, id: string, status: string,
                          dateDistributed: Option<Timestamp>, distributedCodeId: Option<string>, j: nat)
    requires UniqueIds(cs)
    requires j < |cs| && cs[j].id != id
    ensures |StatusUpdate(cs, id, status, dateDistributed, distributedCodeId).1| == |cs|
    ensures StatusUpdate(cs, id, status, dateDistributed, distributedCodeId).1[j] == cs[j]
  {
  }

  /** deleteCode on the map's values: whether the key was there, and the values after. */
  function Removal(cs: seq<InviteCode>, id: string): (r: (bool, seq<InviteCode>))
    ensures r.0 <==> CodeById(cs, id).Some?
    ensures !r.0 ==> r.1 == cs
    ensures r.0 ==> |r.1| == |cs| - 1
    ensures forall c :: c in r.1 ==> c in cs
    ensures UniqueIds(cs) ==> forall c :: c in r.1 <==> c in cs && c.id != id
    ensures r.0 ==> exists i :: 0 <= i < |cs| && cs[i].id == id && r.1 == cs[..i] + cs[i + 1..]
  {
    match IndexOfId(cs, id)
    case None => (false, cs)
    case Some(i) =>
      RemovalMembers(cs, i);
      (true, cs[..i] + cs[i + 1..])
  }

  /** Deleting any code but the next one to be handed out leaves
      getNextAvailableCode unchanged: the others keep their order. */
  lemma RemovalKeepsNextAvailable(cs: seq<InviteCode>, id: string)
    requires NextAvailableCode(cs).None? || NextAvailableCode(cs).value.id != id
    ensures NextAvailableCode(Removal(cs, id).1) == NextAvailableCode(cs)
  {
    if IndexOfId(cs, id).Some? {
      var i := IndexOfId(cs, id).value;
      var rest := cs[..i] + cs[i + 1..];
      assert Removal(cs, id).1 == rest;
      assert NextAvailableCode(rest) == NextAvailableCode(cs) by {
        DropKeepsFirstWithStatus(cs, i, Available);
      }
    }
  }

  /** Dropping a position other than the first with the status keeps that
      code first. */
  lemma DropKeepsFirstWithStatus(cs: seq<InviteCode>, i: nat, status: Status)
    requires i < |cs|
    requires FirstWithStatus(cs, status).None? || cs[FirstWithStatus(cs, status).value].id != cs[i].id
    ensures var rest := cs[..i] + cs[i + 1..];
            match FirstWithStatus(cs, status)
            case None => FirstWithStatus(rest, status).None?
            case Some(p) =>
              var q := if p < i then p else p - 1;
              FirstWithStatus(rest, status) == Some(q) && rest[q] == cs[p]
  {
    var rest := cs[..i] + cs[i + 1..];
    if FirstWithStatus(cs, status).Some? {
      var p := FirstWithStatus(cs, status).value;
      var q := if p < i then p else p - 1;
      assert rest[q] == cs[p];
      assert forall j :: 0 <= j < q ==> rest[j].status != status by {
        assert forall k :: 0 <= k < |rest| ==> rest[k] == cs[if k < i then k else k + 1];
      }
      FirstWithStatusAt(rest, status, q);
    } else {
      assert forall j :: 0 <= j < |rest| ==> rest[j].status != status by {
        assert forall k :: 0 <= k < |rest| ==> rest[k] == cs[if k < i then k else k + 1];
      }
    }
  }

  /** A position holding the status, with none before it, is the first one. */
  lemma FirstWithStatusAt(cs: seq<InviteCode>, status: Status, q: nat)
    requires q < |cs| && cs[q].status == status
    requires forall j :: 0 <= j < q ==> cs[j].status != status
    ensures FirstWithStatus(cs, status) == Some(q)
  {
    var r := FirstWithStatus(cs, status);
    assert r.Some?;
    assert !(r.value < q) && !(q < r.value);
  }

  lemma RemovalMembers(cs: seq<InviteCode>, i: nat)
    requires i < |cs|
    ensures forall c :: c in cs[..i] + cs[i + 1..] ==> c in cs
    ensures UniqueIds(cs) ==>
              forall c :: c in cs[..i] + cs[i + 1..] <==> c in cs && c.id != cs[i].id
  {
    var rest := cs[..i] + cs[i + 1..];
    assert forall k :: 0 <= k < |rest| ==> rest[k] == cs[if k < i then k else k + 1];
    if UniqueIds(cs) {
      forall c | c in cs && c.id != cs[i].id
        ensures c in rest
      {
        var k :| 0 <= k < |cs| && cs[k] == c;
        assert rest[if k < i then k else k - 1] == c;
      }
    }
  }

  // ---------------------------------------------------------------------
  // Once out of the pool, never back
  // ---------------------------------------------------------------------

  ghost predicate WasAvailable(cs: seq<InviteCode>, id: string) {
    exists i :: 0 <= i < |cs| && cs[i].id == id && cs[i].status == Available
  }

  /** `c1` (with `n1` ids issued) can follow `c0` (with `n0`) without any code
      re-entering the pool: every available code in `c1` was available under
      the same id in `c0`, or has an id issued after `c0`. */
  ghost predicate Evolves(c0: seq<InviteCode>, n0: nat, c1: seq<InviteCode>, n1: nat) {
    && n0 <= n1
    && forall j :: 0 <= j < |c1| && c1[j].status == Available ==>
         !Issued(c1[j].id, n0) || WasAvailable(c0, c1[j].id)
  }

  lemma EvolvesRefl(cs: seq<InviteCode>, n: nat)
    ensures Evolves(cs, n, cs, n)
  {
    forall j | 0 <= j < |cs| && cs[j].status == Available
      ensures WasAvailable(cs, cs[j].id)
    {
    }
  }

  lemma {:induction false} EvolvesTrans(c0: seq<InviteCode>, n0: nat, c1: seq<InviteCode>, n1: nat,
                                        c2: seq<InviteCode>, n2: nat)
    requires Evolves(c0, n0, c1, n1) && Evolves(c1, n1, c2, n2)
    ensures Evolves(c0, n0, c2, n2)
  {
    forall j | 0 <= j < |c2| && c2[j].status == Available && Issued(c2[j].id, n0)
      ensures WasAvailable(c0, c2[j].id)
    {
      assert Issued(c2[j].id, n1);
      var i :| 0 <= i < |c1| && c1[i].id == c2[j].id && c1[i].status == Available;
      assert Issued(c1[i].id, n0);
    }
  }

  /** Appending fresh codes puts no old code back in the pool. */
  lemma FreshCodesEvolve(cs: seq<InviteCode>, n: nat, values: seq<string>, now: Timestamp)
    ensures Evolves(cs, n, cs + FreshCodes(values, n, now), n + |values|)
  {
    FreshCodesAt(values, n, now);
    var added := FreshCodes(values, n, now);
    var grown := cs + added;
    forall j | 0 <= j < |grown| && grown[j].status == Available
      ensures !Issued(grown[j].id, n) || WasAvailable(cs, grown[j].id)
    {
      if j < |cs| {
        assert grown[j] == cs[j];
      } else {
        assert grown[j] == added[j - |cs|];
        IssuedExactly(n + (j - |cs|), n);
      }
    }
  }

  /** Issuing one more id keeps every stored id issued. */
  lemma InvariantAcrossIssue(cs: seq<InviteCode>, admins: seq<Admin>, n: nat)
    requires StoreInvariant(cs, admins, n)
    ensures StoreInvariant(cs, admins, n + 1)
  {
    forall i | 0 <= i < |cs|
      ensures Issued(cs[i].id, n + 1)
    {
    }
    forall i | 0 <= i < |admins|
      ensures Issued(admins[i].id, n + 1)
    {
    }
  }

  /** createCode's step on values: a code under the next id keeps the
      invariant, shares its id with no stored code, and adds nothing to the
      pool that was issued before. */
  lemma AddCodeKeepsInvariant(cs: seq<InviteCode>, admins: seq<Admin>, n: nat, c: InviteCode)
    requires StoreInvariant(cs, admins, n)
    requires c.id == Uuid(n) && Canonical(c.status)
    ensures StoreInvariant(cs + [c], admins, n + 1)
    ensures CodeById(cs, c.id).None?
    ensures Evolves(cs, n, cs + [c], n + 1)
  {
    IssuedExactly(n, n);
    IssuedExactly(n, n + 1);
    InvariantAcrossIssue(cs, admins, n);
    var grown := cs + [c];
    forall i | 0 <= i < |cs|
      ensures cs[i].id != c.id
    {
      assert Issued(cs[i].id, n);
    }
    forall j | 0 <= j < |grown| && grown[j].status == Available
      ensures !Issued(grown[j].id, n) || WasAvailable(cs, grown[j].id)
    {
      if j < |cs| {
        assert grown[j] == cs[j];
      }
    }
  }

  /** createAdmin's step on values. */
  lemma AddAdminKeepsInvariant(cs: seq<InviteCode>, admins: seq<Admin>, n: nat, a: Admin)
    requires StoreInvariant(cs, admins, n)
    requires a.id == Uuid(n)
    ensures StoreInvariant(cs, admins + [a], n + 1)
    ensures forall x :: x in admins ==> x.id != a.id
    ensures Evolves(cs, n, cs, n + 1)
  {
    IssuedExactly(n, n);
    IssuedExactly(n, n + 1);
    InvariantAcrossIssue(cs, admins, n);
    forall i | 0 <= i < |admins|
      ensures admins[i].id != a.id
    {
      assert Issued(admins[i].id, n);
    }
    EvolvesRefl(cs, n);
  }

  /** updateCodeStatus's step on values: replacing the record at `i` by one
      under the same id keeps the invariant, and puts nothing back in the pool
      that was not there already. */
  lemma ReplaceKeepsInvariant(cs: seq<InviteCode>, admins: seq<Admin>, n: nat, i: nat, c: InviteCode)
    requires StoreInvariant(cs, admins, n)
    requires i < |cs| && c.id == cs[i].id && Canonical(c.status)
    requires c.status == Available ==> cs[i].status == Available
    ensures StoreInvariant(cs[i := c], admins, n)
    ensures Evolves(cs, n, cs[i := c], n)
  {
    var updated := cs[i := c];
    forall j | 0 <= j < |updated| && updated[j].status == Available
      ensures WasAvailable(cs, updated[j].id)
    {
      assert cs[j].id == updated[j].id && cs[j].status == Available;
    }
  }

  /** deleteCode's step on values: dropping the record at `i` keeps the
      invariant and puts nothing back in the pool. */
  lemma DropKeepsInvariant(cs: seq<InviteCode>, admins: seq<Admin>, n: nat, i: nat)
    requires StoreInvariant(cs, admins, n)
    requires i < |cs|
    ensures StoreInvariant(cs[..i] + cs[i + 1..], admins, n)
    ensures Evolves(cs, n, cs[..i] + cs[i + 1..], n)
  {
    var rest := cs[..i] + cs[i + 1..];
    assert forall k :: 0 <= k < |rest| ==> rest[k] == cs[if k < i then k else k + 1];
    forall j | 0 <= j < |rest| && rest[j].status == Available
      ensures WasAvailable(cs, rest[j].id)
    {
      var k := if j < i then j else j + 1;
      assert cs[k] == rest[j];
    }
  }

  /** An update never puts a code back in the pool: the table has no
      transition into `available`. */
  lemma StatusUpdateEvolves(cs: seq<InviteCode>, n: nat, id: string, status: string,
                            dateDistributed: Option<Timestamp>, distributedCodeId: Option<string>)
    ensures Evolves(cs, n, StatusUpdate(cs, id, status, dateDistributed, distributedCodeId).1, n)
  {
    var after := StatusUpdate(cs, id, status, dateDistributed, distributedCodeId).1;
    forall j | 0 <= j < |after| && after[j].status == Available
      ensures WasAvailable(cs, after[j].id)
    {
      assert cs[j].id == after[j].id && cs[j].status == Available;
    }
  }

  /** Deleting a code never puts one back in the pool. */
  lemma RemovalEvolves(cs: seq<InviteCode>, n: nat, id: string)
    ensures Evolves(cs, n, Removal(cs, id).1, n)
  {
    match IndexOfId(cs, id)
    case None => EvolvesRefl(cs, n);
    case Some(i) =>
      var rest := cs[..i] + cs[i + 1..];
      assert forall k :: 0 <= k < |rest| ==> rest[k] == cs[if k < i then k else k + 1];
      forall j | 0 <= j < |rest| && rest[j].status == Available
        ensures WasAvailable(cs, rest[j].id)
      {
        var k := if j < i then j else j + 1;
        assert cs[k] == rest[j];
      }
  }

  /** One more value makes one more code, under the next id. */
  lemma FreshCodesAppend(values: seq<string>, v: string, n: nat, now: Timestamp)
    ensures FreshCodes(values + [v], n, now)
         == FreshCodes(values, n, now) + [AvailableCode(v, Uuid(n + |values|), now)]
  {
    FreshPrefixExtend(values, [v], |values|, n, now);
    assert (values + [v])[|values|] == v;
  }


  /** The store does not enforce the `unique()` declaration on `code`: it holds
      after createCode only when the caller made sure the value is new. */
  lemma CreateKeepsUniqueValues(cs: seq<InviteCode>, c: InviteCode)
    requires UniqueCodeValues(cs)
    requires CodeByValue(cs, c.code).None?
    ensures UniqueCodeValues(cs + [c])
  {
    var grown := cs + [c];
    forall i, j | 0 <= i < j < |grown|
      ensures grown[i].code != grown[j].code
    {
      assert grown[i] == cs[i];
      if j == |cs| {
        assert cs[i] in cs;
      } else {
        assert grown[j] == cs[j];
      }
    }
  }

  /** A code that has left the pool is never handed out again, whatever
      sequence of store operations follows. */
  lemma LeftPoolNeverAllocated(c0: seq<InviteCode>, n0: nat, c1: seq<InviteCode>, n1: nat, k: nat)
    requires UniqueIds(c0) && CodeIdsIssued(c0, n0)
    requires k < |c0| && c0[k].status != Available
    requires Evolves(c0, n0, c1, n1)
    ensures forall c :: c in CodesByStatus(c1, Available) ==> c.id != c0[k].id
    ensures NextAvailableCode(c1).Some? ==> NextAvailableCode(c1).value.id != c0[k].id
  {
    forall j | 0 <= j < |c1| && c1[j].status == Available
      ensures c1[j].id != c0[k].id
    {
      if Issued(c1[j].id, n0) {
        var i :| 0 <= i < |c0| && c0[i].id == c1[j].id && c0[i].status == Available;
        assert c0[i].id != c0[k].id;
      } else {
        assert Issued(c0[k].id, n0);
      }
    }
  }

  // ---------------------------------------------------------------------
  // The store
  // ---------------------------------------------------------------------

  class MemStorage {
    /** The values of `this.codes`, in the map's iteration order. */
    var codes: seq<InviteCode>
    /** The values of `this.admins`, in the map's iteration order. */
    var admins: seq<Admin>
    /** How many ids `randomUUID` has handed out. */
    var issued: nat

    ghost predicate Valid()
      reads this
    {
      StoreInvariant(codes, admins, issued)
    }

    constructor ()
      ensures Valid()
      ensures codes == [] && admins == [] && issued == 0
    {
      codes := [];
      admins := [];
      issued := 0;
    }

    /** createCode: adds one code under a fresh id; no check that its value is
        new. That this step keeps `Valid()` is AddCodeKeepsInvariant; the loops
        that call it re-establish the invariant once they are done. */
    method CreateCode(insertCode: InsertInviteCode, now: Timestamp) returns (code: InviteCode)
      modifies this
      ensures code == NewCode(insertCode, Uuid(old(issued)), now)
      ensures codes == old(codes) + [code]
      ensures admins == old(admins) && issued == old(issued) + 1
    {
      var id := Uuid(issued);
      code := NewCode(insertCode, id, now);
      codes := codes + [code];
      issued := issued + 1;
    }

    /** updateCodeStatus. */
    method UpdateCodeStatus(id: string, status: string,
                            dateDistributed: Option<Timestamp>, distributedCodeId: Option<string>)
      returns (r: UpdateResult)
      requires Valid()
      modifies this
      ensures Valid()
      ensures (r, codes) == StatusUpdate(old(codes), id, status, dateDistributed, distributedCodeId)
      ensures admins == old(admins) && issued == old(issued)
      ensures Evolves(old(codes), old(issued), codes, issued)
    {
      var found := IndexOfId(codes, id);
      if found.None? {
        EvolvesRefl(codes, issued);
        return NotFound;
      }
      var i := found.value;
      var code := codes[i];
      var target := ParseStatus(status);
      if !TransitionAllowed(code.status, target) {
        EvolvesRefl(codes, issued);
        return Rejected(StatusName(code.status), status);
      }
      var updatedCode := WithStatus(code, status, dateDistributed, distributedCodeId);
      ReplaceKeepsInvariant(codes, admins, issued, i, updatedCode);
      codes := codes[i := updatedCode];
      r := Updated(updatedCode);
    }

    /** deleteCode. */
    method DeleteCode(id: string) returns (deleted: bool)
      requires Valid()
      modifies this
      ensures Valid()
      ensures (deleted, codes) == Removal(old(codes), id)
      ensures admins == old(admins) && issued == old(issued)
      ensures Evolves(old(codes), old(issued), codes, issued)
    {
      var found := IndexOfId(codes, id);
      if found.None? {
        EvolvesRefl(codes, issued);
        return false;
      }
      var i := found.value;
      DropKeepsInvariant(codes, admins, issued, i);
      codes := codes[..i] + codes[i + 1..];
      deleted := true;
    }

    /** createAdmin: adds one admin under a fresh id. */
    method CreateAdmin(insertAdmin: InsertAdmin) returns (admin: Admin)
      requires Valid()
      modifies this
      ensures Valid()
      ensures admin == Admin(Uuid(old(issued)), insertAdmin.username, insertAdmin.password)
      ensures forall a :: a in old(admins) ==> a.id != admin.id
      ensures admins == old(admins) + [admin]
      ensures codes == old(codes) && issued == old(issued) + 1
      ensures Evolves(old(codes), old(issued), codes, issued)
    {
      var id := Uuid(issued);
      admin := Admin(id, insertAdmin.username, insertAdmin.password);
      AddAdminKeepsInvariant(codes, admins, issued, admin);
      admins := admins + [admin];
      issued := issued + 1;
    }
  }
}
