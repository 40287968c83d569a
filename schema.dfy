/** Record shapes of the `invite_codes` and `admins` tables (shared/schema.ts). */
module Schema {

  import opened Optional

  /** A `Date`, as the milliseconds since the epoch that `getTime()` returns. */
  type Timestamp = nat

  /** The `status` column. The column is free text: the four names the server
      knows get their own constructors, any other text is kept as `Other`. */
  datatype Status = Available | Distributed | Used | Invalid | Other(name: string)

  const AVAILABLE: string := "available"
  const DISTRIBUTED: string := "distributed"
  const USED: string := "used"
  const INVALID: string := "invalid"

  /** A status built from text: an `Other` never carries one of the four known names. */
  predicate Canonical(st: Status) {
    st.Other? ==> st.name != AVAILABLE && st.name != DISTRIBUTED && st.name != USED && st.name != INVALID
  }

  /** The text stored in the `status` column. */
  function StatusName(st: Status): string {
    match st
    case Available => AVAILABLE
    case Distributed => DISTRIBUTED
    case Used => USED
    case Invalid => INVALID
    case Other(name) => name
  }

  /** Reads a status from its text; no text is lost, so two texts are equal
      exactly when their statuses are. */
  function ParseStatus(s: string): (st: Status)
    ensures StatusName(st) == s
    ensures Canonical(st)
  {
    if s == AVAILABLE then Available
    else if s == DISTRIBUTED then Distributed
    else if s == USED then Used
    else if s == INVALID then Invalid
    else Other(s)
  }

  /** Every status the server can hold survives the trip through its text. */
  lemma StatusRoundTrip(st: Status)
    requires Canonical(st)
    ensures ParseStatus(StatusName(st)) == st
  {
  }

  /** One row of `invite_codes`: `dateDistributed` and `distributedCodeId` are
      the two nullable columns, every other column is required. */
  datatype InviteCode = InviteCode(
    id: string,
    code: string,
    status: Status,
    dateAdded: Timestamp,
    dateDistributed: Option<Timestamp>,
    distributedCodeId: Option<string>)

  /** The insert shape of `invite_codes`: no `id` and no `dateAdded` (the store
      supplies both); `status` may be omitted and then takes its default. The
      two nullable columns are not read by the in-memory store. */
  datatype InsertInviteCode = InsertInviteCode(code: string, status: Option<string>)

  /** One row of `admins`; `password` holds a bcrypt hash. */
  datatype Admin = Admin(id: string, username: string, password: string)

  /** The insert shape of `admins`: no `id`. */
  datatype InsertAdmin = InsertAdmin(username: string, password: string)

  /** The status a new row gets: the given text, or "available" when it is
      omitted or empty (`insertCode.status || 'available'`). */
  function InsertStatus(s: Option<string>): (st: Status)
    ensures StatusName(st) == if s.None? || s.value == "" then AVAILABLE else s.value
    ensures Canonical(st)
  {
    if s.None? || s.value == "" then Available else ParseStatus(s.value)
  }

  /** The `unique()` declaration on `invite_codes.code`. */
  ghost predicate UniqueCodeValues(cs: seq<InviteCode>) {
    forall i, j :: 0 <= i < j < |cs| ==> cs[i].code != cs[j].code
  }

  /** The `unique()` declaration on `admins.username`. */
  ghost predicate UniqueUsernames(admins: seq<Admin>) {
    forall i, j :: 0 <= i < j < |admins| ==> admins[i].username != admins[j].username
  }
}
