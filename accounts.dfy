/**
 * The admin accounts page: the single-field edits of the member being
 * edited, the status options, when "Create account" is offered, and which
 * status filter the chosen view asks the members proxy for.
 */
module Accounts {
  import opened Seqs
  import opened Text
  import opened Types
  import opened Utils

  /** One edit made in the edit dialog, with its new value. */
  datatype Edit =
    | FirstName(first_name: string)
    | LastName(last_name: string)
    | Email(email: string)
    | Phone(phone_number: string)
    | Address(address: string)
    | Status(status: MemberStatus)
    | Plan(plan: MemberPlanType)
    | Gender(gender: MemberGender)

  /** `setMember({ ...member, field: val })`. */
  function ApplyEdit(m: Member, e: Edit): (r: Member)
    ensures e.FirstName? ==> r.first_name == e.first_name
    ensures e.LastName? ==> r.last_name == e.last_name
    ensures e.Email? ==> r.email == e.email
    ensures e.Phone? ==> r.phone_number == e.phone_number
    ensures e.Address? ==> r.address == e.address
    ensures e.Status? ==> r.status == e.status
    ensures e.Plan? ==> r.plan == e.plan
    ensures e.Gender? ==> r.gender == e.gender
    ensures !e.FirstName? ==> r.first_name == m.first_name
    ensures !e.LastName? ==> r.last_name == m.last_name
    ensures !e.Email? ==> r.email == m.email
    ensures !e.Phone? ==> r.phone_number == m.phone_number
    ensures !e.Address? ==> r.address == m.address
    ensures !e.Status? ==> r.status == m.status
    ensures !e.Plan? ==> r.plan == m.plan
    ensures !e.Gender? ==> r.gender == m.gender
    ensures r.id == m.id && r.created_at == m.created_at && r.rating == m.rating
    ensures r.waiver == m.waiver && r.role == m.role
  {
    match e
    case FirstName(v) => m.(first_name := v)
    case LastName(v) => m.(last_name := v)
    case Email(v) => m.(email := v)
    case Phone(v) => m.(phone_number := v)
    case Address(v) => m.(address := v)
    case Status(v) => m.(status := v)
    case Plan(v) => m.(plan := v)
    case Gender(v) => m.(gender := v)
  }

  /** The edit that puts back the value `e` overwrote. */
  function Undo(m: Member, e: Edit): Edit {
    match e
    case FirstName(_) => FirstName(m.first_name)
    case LastName(_) => LastName(m.last_name)
    case Email(_) => Email(m.email)
    case Phone(_) => Phone(m.phone_number)
    case Address(_) => Address(m.address)
    case Status(_) => Status(m.status)
    case Plan(_) => Plan(m.plan)
    case Gender(_) => Gender(m.gender)
  }

  /** Writing the old value back restores the member exactly. */
  lemma EditUndo(m: Member, e: Edit)
    ensures ApplyEdit(ApplyEdit(m, e), Undo(m, e)) == m
  {
  }

  /** Two edits of the same field: the later one wins. */
  lemma EditLastWins(m: Member, e1: Edit, e2: Edit)
    requires Undo(m, e1) == Undo(m, e2)
    ensures ApplyEdit(ApplyEdit(m, e1), e2) == ApplyEdit(m, e2)
  {
  }

  /** The name every status is sent and shown under. */
  function StatusName(s: MemberStatus): string {
    match s
    case ACTIVE => "ACTIVE"
    case INACTIVE => "INACTIVE"
    case PENDING => "PENDING"
    case WAITLIST => "WAITLIST"
  }

  /** The position of a status in the dropdown. */
  function StatusIndex(s: MemberStatus): nat {
    match s
    case ACTIVE => 0
    case INACTIVE => 1
    case PENDING => 2
    case WAITLIST => 3
  }

  /** The values of the status dropdown, in order. */
  function StatusOptions(): (opts: seq<MemberStatus>)
    ensures |opts| == 4
    ensures forall s: MemberStatus :: StatusIndex(s) < |opts| && opts[StatusIndex(s)] == s
    ensures forall i, j :: 0 <= i < j < |opts| ==> opts[i] != opts[j]
  {
    [ACTIVE, INACTIVE, PENDING, WAITLIST]
  }

  /** The label shown for an option: `normalizeString` of the status name. */
  function OptionLabel(s: MemberStatus): string {
    NormalizeString(StatusName(s))
  }

  lemma UpperName(s: MemberStatus)
    ensures |StatusName(s)| > 0 && forall i :: 0 <= i < |StatusName(s)| ==> 'A' <= StatusName(s)[i] <= 'Z'
  {
    match s
    case ACTIVE => assert StatusName(s) == "ACTIVE";
    case INACTIVE => assert StatusName(s) == "INACTIVE";
    case PENDING => assert StatusName(s) == "PENDING";
    case WAITLIST => assert StatusName(s) == "WAITLIST";
  }

  /** Each option reads as its status name with only the first letter in capitals. */
  lemma StatusLabel(s: MemberStatus)
    ensures |OptionLabel(s)| == |StatusName(s)|
    ensures OptionLabel(s)[0] == StatusName(s)[0]
    ensures forall k :: 1 <= k < |StatusName(s)| ==> 'a' <= OptionLabel(s)[k] <= 'z'
  {
    var n := StatusName(s);
    UpperName(s);
    NormalizeUpperWord(n);
  }

  /** "Create account" is offered only for a member on the waitlist. */
  predicate CreateAccountShown(m: Member) {
    m.status == WAITLIST
  }

  /** Moving a member to any status shows the button exactly for WAITLIST. */
  lemma CreateAccountAfterStatusEdit(m: Member, s: MemberStatus)
    ensures CreateAccountShown(ApplyEdit(m, Status(s))) <==> s == WAITLIST
  {
  }

  /** The views of the filter bar. */
  datatype View = AllView | ActiveView | WaitlistView

  function ViewName(v: View): string {
    match v
    case AllView => "All"
    case ActiveView => "Active"
    case WaitlistView => "Waitlist"
  }

  /**
   * The Next route `/api/members`, which the member list reaches with its
   * relative `fetch`: it forwards only `WAITLIST` and `ACTIVE`, and anything
   * else lists everyone.
   */
  function ProxyQuery(statusParam: Option<string>): (q: string)
    ensures statusParam == Some("WAITLIST") ==> q == "?status=WAITLIST"
    ensures statusParam == Some("ACTIVE") ==> q == "?status=ACTIVE"
    ensures statusParam != Some("WAITLIST") && statusParam != Some("ACTIVE") ==> q == ""
  {
    var p := if statusParam.Some? then statusParam.value else "";
    if p in ["WAITLIST", "ACTIVE"] then "?status=" + p else ""
  }

  /**
   * The query the accounts page appends to `/api/members`: the view's name
   * upper-cased, for every view. The page sends it through `apiFetch` to the
   * backend named by `NEXT_PUBLIC_API_URL`, not through the members proxy.
   */
  function ViewQuery(v: View): string {
    "?status=" + Upper(ViewName(v))
  }

  /** Each view asks for its own status; "All" asks for `ALL`. */
  lemma ViewQueries()
    ensures ViewQuery(ActiveView) == "?status=ACTIVE"
    ensures ViewQuery(WaitlistView) == "?status=WAITLIST"
    ensures ViewQuery(AllView) == "?status=ALL"
  {
    assert Upper("Active") == "ACTIVE";
    assert Upper("Waitlist") == "WAITLIST";
    assert Upper("All") == "ALL";
  }
}
