/**
 * The league page: the member's own enrollment status derived from the
 * season roster and waitlist, the waitlist position, the capacity test,
 * the season shown, and the enrollment button offered.
 */
module Leagues {
  import opened Seqs
  import opened Text
  import opened Types

  /** `list.findIndex((e) => e.member_id === user?.id)`; -1 when absent or when there is no user. */
  function FindIndex(list: seq<LeagueEnrollment>, userId: Option<string>): (i: int)
    ensures -1 <= i < |list|
    ensures i == -1 <==> userId.None? || forall k :: 0 <= k < |list| ==> list[k].member_id != userId.value
    ensures i >= 0 ==> list[i].member_id == userId.value &&
                       forall k :: 0 <= k < i ==> list[k].member_id != userId.value
  {
    if userId.None? || |list| == 0 then -1
    else if list[0].member_id == userId.value then 0
    else
      var j := FindIndex(list[1..], userId);
      if j == -1 then -1 else j + 1
  }

  datatype MyStatus = Enrolled | Waitlisted

  /** `myStatus`: enrolled when on the roster, else waitlisted when on the waitlist, else `null`. */
  function MyStatusOf(roster: seq<LeagueEnrollment>, waitlist: seq<LeagueEnrollment>,
                      userId: Option<string>): (st: Option<MyStatus>)
    ensures st == Some(Enrolled) <==>
            userId.Some? && exists k :: 0 <= k < |roster| && roster[k].member_id == userId.value
    ensures st == Some(Waitlisted) <==>
            userId.Some? &&
            (forall k :: 0 <= k < |roster| ==> roster[k].member_id != userId.value) &&
            (exists k :: 0 <= k < |waitlist| && waitlist[k].member_id == userId.value)
    ensures st.None? <==>
            userId.None? ||
            ((forall k :: 0 <= k < |roster| ==> roster[k].member_id != userId.value) &&
             (forall k :: 0 <= k < |waitlist| ==> waitlist[k].member_id != userId.value))
  {
    if FindIndex(roster, userId) != -1 then Some(Enrolled)
    else if FindIndex(waitlist, userId) != -1 then Some(Waitlisted)
    else None
  }

  /** The "Waitlisted #n" number: the 1-based position of the member's first waitlist entry. */
  function WaitlistPosition(waitlist: seq<LeagueEnrollment>, userId: Option<string>): int {
    FindIndex(waitlist, userId) + 1
  }

  /** A waitlisted member's number names their own entry, counted from 1. */
  lemma PositionOfWaitlisted(roster: seq<LeagueEnrollment>, waitlist: seq<LeagueEnrollment>, userId: Option<string>)
    requires MyStatusOf(roster, waitlist, userId) == Some(Waitlisted)
    ensures 1 <= WaitlistPosition(waitlist, userId) <= |waitlist|
    ensures waitlist[WaitlistPosition(waitlist, userId) - 1].member_id == userId.value
    ensures forall k :: 0 <= k < WaitlistPosition(waitlist, userId) - 1 ==> waitlist[k].member_id != userId.value
  {
  }

  /** A roster or waitlist response; its season may be missing. */
  datatype RosterResponse = RosterResponse(season: Option<LeagueSeason>, data: seq<LeagueEnrollment>)

  /** `rosterData?.season ?? waitlistData?.season ?? null`. */
  function SeasonOf(rosterData: Option<RosterResponse>, waitlistData: Option<RosterResponse>): (s: Option<LeagueSeason>)
    ensures rosterData.Some? && rosterData.value.season.Some? ==> s == rosterData.value.season
    ensures (rosterData.None? || rosterData.value.season.None?) ==>
            s == (if waitlistData.Some? then waitlistData.value.season else None)
  {
    if rosterData.Some? && rosterData.value.season.Some? then rosterData.value.season
    else if waitlistData.Some? then waitlistData.value.season
    else None
  }

  /** `rosterData?.data ?? []`. */
  function EntriesOf(resp: Option<RosterResponse>): seq<LeagueEnrollment> {
    if resp.Some? then resp.value.data else []
  }

  /** `isFull`: the season has a cap and the roster has reached it. */
  function IsFull(season: Option<LeagueSeason>, rosterLength: nat): (full: bool)
    ensures full <==> season.Some? && season.value.max_players.Some? && rosterLength >= season.value.max_players.value
  {
    season.Some? && season.value.max_players.Some? && rosterLength >= season.value.max_players.value
  }

  /** A season without a cap is never full, and a capped one fills exactly at its cap. */
  lemma FullnessMonotone(season: LeagueSeason, n: nat, m: nat)
    requires n <= m
    ensures season.max_players.None? ==> !IsFull(Some(season), m)
    ensures IsFull(Some(season), n) ==> IsFull(Some(season), m)
  {
  }

  /** `isMutating`: an enroll or a withdraw request is pending. */
  predicate IsMutating(enrollPending: bool, withdrawPending: bool) {
    enrollPending || withdrawPending
  }

  /** The enrollment button of the season card. */
  datatype Button = Button(caption: string, disabled: bool)

  datatype Action = Withdraw | Enroll

  /** The status badge and the button offered for the member's status. */
  function Offered(st: Option<MyStatus>, season: LeagueSeason, mutating: bool, full: bool): (r: Option<(Action, Button)>)
    ensures r.Some? && r.value.0 == Withdraw <==> st.Some?
    ensures r.Some? && r.value.0 == Enroll <==> st.None? && season.status == ENROLLMENT_OPEN
    ensures r.Some? ==> r.value.1.disabled == mutating
  {
    match st
    case Some(Enrolled) => Some((Withdraw, Button("Withdraw", mutating)))
    case Some(Waitlisted) => Some((Withdraw, Button("Leave waitlist", mutating)))
    case None =>
      if season.status == ENROLLMENT_OPEN then
        Some((Enroll, Button(if mutating then "..." else if full then "Join waitlist" else "Enroll", mutating)))
      else None
  }

  /** The enroll button reads "Join waitlist" exactly when the season is full and nothing is pending. */
  lemma EnrollCaption(season: LeagueSeason, mutating: bool, full: bool)
    requires season.status == ENROLLMENT_OPEN
    ensures Offered(None, season, mutating, full).value.1.caption == "Join waitlist" <==> !mutating && full
    ensures Offered(None, season, mutating, full).value.1.caption == "Enroll" <==> !mutating && !full
  {
  }

  /** The badge beside the button. */
  function Badge(st: MyStatus, waitlist: seq<LeagueEnrollment>, userId: Option<string>): string {
    match st
    case Enrolled => "Enrolled"
    case Waitlisted => "Waitlisted #" + IntToString(WaitlistPosition(waitlist, userId))
  }

  /** Clicking a league card selects it, or clears the selection when it was already selected. */
  function ClickLeague(selectedId: Option<string>, leagueId: string): (r: Option<string>)
    ensures r == Some(leagueId) <==> selectedId != Some(leagueId)
    ensures r.None? <==> selectedId == Some(leagueId)
  {
    if selectedId == Some(leagueId) then None else Some(leagueId)
  }

  /** Clicking the same card twice leaves it selected exactly when it was selected to begin with. */
  lemma ClickLeagueTwice(selectedId: Option<string>, leagueId: string)
    ensures ClickLeague(ClickLeague(selectedId, leagueId), leagueId) ==
            (if selectedId == Some(leagueId) then Some(leagueId) else None)
  {
  }
}
