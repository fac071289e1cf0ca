/**
 * The records the pages receive from the club's API: members, reservations,
 * the per-slot availability of a day, month availability, leagues, seasons
 * and enrollments. Optional fields are `Option`s; `null`-able fields too.
 */
module Types {
  import opened Seqs

  datatype MemberStatus = ACTIVE | INACTIVE | PENDING | WAITLIST
  datatype MemberRole = ADMIN | MEMBER | LEAGUE_COORDINATOR
  datatype MemberGender = Male | Female
  datatype MemberPlanType = Adult | Junior
  datatype ReservationStatus = ReservationActive | Cancelled

  datatype Member = Member(
    created_at: string,
    id: string,
    rating: real,
    first_name: string,
    last_name: string,
    address: string,
    phone_number: string,
    email: string,
    waiver: bool,
    role: MemberRole,
    plan: MemberPlanType,
    gender: MemberGender,
    status: MemberStatus)

  datatype Reservation = Reservation(
    status: ReservationStatus,
    id: string,
    member_id: string,
    slot: int,
    court: int,
    date: string,
    name: string,
    created_at: string,
    players: seq<string>,
    kind: Option<string>,          // `type?`
    slots: Option<seq<int>>,       // `slots?`, set by the upcoming-reservations endpoint
    courts: Option<seq<int>>,      // `courts?`
    can_manage: Option<bool>)      // `can_manage?`

  /**
   * One time slot of a day. `reservationsByCourt` is the JSON object from
   * court number to reservation, as its entries in key-enumeration order.
   */
  datatype Slot = Slot(
    reservationsByCourt: seq<(int, Reservation)>,
    slotIndex: int,
    availableCourts: int,
    isFull: bool,
    endTime: string,
    startTime: string)

  /** `court in slot.reservationsByCourt`. */
  predicate HasCourt(slot: Slot, court: int) {
    exists e :: 0 <= e < |slot.reservationsByCourt| && slot.reservationsByCourt[e].0 == court
  }

  /** `slot.reservationsByCourt[court]`; `None` is `undefined`. */
  function ReservationAt(slot: Slot, court: int): (r: Option<Reservation>)
    ensures r.Some? <==> HasCourt(slot, court)
  {
    EntryFor(slot.reservationsByCourt, court)
  }

  function EntryFor(entries: seq<(int, Reservation)>, court: int): (r: Option<Reservation>)
    ensures r.Some? <==> exists e :: 0 <= e < |entries| && entries[e].0 == court
    ensures r.Some? ==> exists e :: 0 <= e < |entries| && entries[e] == (court, r.value)
  {
    if |entries| == 0 then None
    else if entries[0].0 == court then Some(entries[0].1)
    else
      var r := EntryFor(entries[1..], court);
      assert forall e :: 0 <= e < |entries| - 1 ==> entries[1..][e] == entries[e + 1];
      r
  }

  datatype DayAvailability = DayAvailability(date: string, bookedSlots: int, totalSlots: int)

  datatype League = League(
    id: string,
    name: string,
    coordinator_id: Option<string>,
    coordinator: Option<(string, string)>)   // first and last name

  /** A season's status; `SEASON_ACTIVE` is sent as "ACTIVE". */
  datatype SeasonStatus = DRAFT | ENROLLMENT_OPEN | SEASON_ACTIVE | COMPLETED

  datatype LeagueSeason = LeagueSeason(
    id: string,
    league_id: string,
    name: string,
    status: SeasonStatus,
    max_players: Option<int>)      // `null` means no cap

  /** An enrollment's status; `ENROLLMENT_ACTIVE` is sent as "ACTIVE". */
  datatype EnrollmentStatus = ENROLLMENT_ACTIVE | WAITLISTED | WITHDRAWN

  datatype EnrolledMember = EnrolledMember(id: string, first_name: string, last_name: string, email: string)

  datatype LeagueEnrollment = LeagueEnrollment(
    id: string,
    season_id: string,
    member_id: string,
    status: EnrollmentStatus,
    members: Option<EnrolledMember>)
}
