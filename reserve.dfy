/**
 * The court-booking form: the booking window and the date gate, the set of
 * booked cells and the courts still offered, the selected cells of the
 * league/club grid and their expansion into slots and courts, weekly
 * recurrence, the sequential submission of one request per date, and the
 * rule that enables the Submit button.
 */
module Reserve {
  import opened Seqs
  import opened Text
  import opened Dates
  import opened Types
  import opened SlotGrid

  datatype Mode = LeagueMode | ClubMode | PersonalMode

  /**
   * `showLeagueForm`: the multi-cell form is shown, and the upper bound of
   * the booking window is skipped, when the user books as a league
   * coordinator or admin rather than for themself.
   */
  function ShowLeagueForm(mode: Mode, isAdmin: bool, isCoordinator: bool): bool {
    mode != PersonalMode && (isAdmin || isCoordinator)
  }

  /** The last bookable date is 7 days ahead from 22:00 Eastern time, 6 days ahead before that. */
  function DaysAhead(etHour: int): (n: int)
    ensures n == 6 || n == 7
    ensures n == 7 <==> etHour >= 22
  {
    if etHour >= 22 then 7 else 6
  }

  datatype Window = Window(minDate: string, maxDate: string)

  /** A date whose window end still has a four-digit year. */
  predicate WindowToday(today: Date) {
    Valid(today) && 0 <= today.year <= 9998
  }

  /** `minDate` and `maxDate`: today and today plus `DaysAhead`, as `YYYY-MM-DD`. */
  function BookingWindow(today: Date, etHour: int): (w: Window)
    requires WindowToday(today)
  {
    AddDaysYearBound(today, DaysAhead(etHour));
    Window(Iso(today), Iso(AddDays(today, DaysAhead(etHour))))
  }

  /**
   * The message under the date field. `NotYetOpen` carries the date seven
   * days before the chosen one (`None` when the text does not parse);
   * `OpenThrough` carries the window's last date.
   */
  datatype DateStatus = Past | NotYetOpen(opens: Option<Date>) | OpenThrough(through: Option<Date>) | Open

  /** `new Date(y, m - 1, d + shift)` of the three numbers parsed from a `YYYY-MM-DD` text. */
  function Shift(ymd: Option<(int, int, int)>, shift: int): Option<Date> {
    if ymd.None? then None else Some(NewDate(ymd.value.0, ymd.value.1 - 1, ymd.value.2 + shift))
  }

  /**
   * Shifting the numbers of a real date's text is shifting the date the
   * constructor reads back from them: the date itself from year 100 on.
   */
  lemma ShiftParsedIso(d: Date, k: int)
    requires Valid(d) && IsoYear(d)
    ensures Shift(ParseYmd(Iso(d)), k) == Some(AddDays(Reread(d), k))
    ensures 100 <= d.year ==> Shift(ParseYmd(Iso(d)), k) == Some(AddDays(d, k))
  {
    ParseIso(d);
    ShiftFields(ParseYmd(Iso(d)), d, k);
    RereadYear(d);
  }

  /** Shifting the three fields of a date is shifting the date they are read back as. */
  lemma ShiftFields(ymd: Option<(int, int, int)>, d: Date, k: int)
    requires Valid(d) && ymd == Some((d.year, d.month, d.day))
    ensures Shift(ymd, k) == Some(AddDays(Reread(d), k))
  {
    NewDateShift(d, k);
  }

  /** A date in the first century is shifted within 1900 + y: "0050-03-10" less seven days is 3 March 1950. */
  lemma ShiftCentury()
    ensures Shift(ParseYmd(Iso(Date(50, 3, 10))), -7) == Some(Date(1950, 3, 3))
  {
    ParseIso(Date(50, 3, 10));
    NewDateCentury();
  }

  /** `dateStatus`; `None` when no date is entered. Dates compare as strings. */
  function StatusOf(date: string, w: Window, skip: bool): (r: Option<DateStatus>)
    ensures date == "" <==> r.None?
    ensures date != "" && LexLess(date, w.minDate) ==> r == Some(Past)
    ensures LexLess(date, w.minDate) ==> !StatusValid(r)
  {
    if date == "" then None
    else if LexLess(date, w.minDate) then Some(Past)
    else if !skip && LexLess(w.maxDate, date) then Some(NotYetOpen(Shift(ParseYmd(date), -7)))
    else if !skip then Some(OpenThrough(Shift(ParseYmd(w.maxDate), 0)))
    else Some(Open)
  }

  /** `dateStatus?.valid`. */
  predicate StatusValid(st: Option<DateStatus>) {
    st.Some? && (st.value.OpenThrough? || st.value.Open?)
  }

  /**
   * For a date entered as `YYYY-MM-DD`, the gate accepts exactly the days
   * from today on, and, unless the window is skipped, up to and including
   * the window's last day.
   */
  lemma DateGate(d: Date, today: Date, etHour: int, skip: bool)
    requires WindowToday(today) && Valid(d) && IsoYear(d)
    ensures StatusValid(StatusOf(Iso(d), BookingWindow(today, etHour), skip)) <==>
            DayNumber(today) <= DayNumber(d) &&
            (skip || DayNumber(d) <= DayNumber(today) + DaysAhead(etHour))
  {
    var k := DaysAhead(etHour);
    AddDaysYearBound(today, k);
    var max := AddDays(today, k);
    AddDaysNumber(today, k);
    IsoOrder(d, today);
    IsoOrder(max, d);
    DayNumberOrder(d, today);
    DayNumberOrder(max, d);
  }

  /**
   * A personal booking, or any booking by a member who is neither admin nor
   * coordinator, keeps the upper bound: only today through the window's
   * last day pass.
   */
  lemma PlainMemberWindow(d: Date, today: Date, etHour: int, mode: Mode, isAdmin: bool, isCoordinator: bool)
    requires WindowToday(today) && Valid(d) && IsoYear(d)
    requires mode == PersonalMode || (!isAdmin && !isCoordinator)
    ensures StatusValid(StatusOf(Iso(d), BookingWindow(today, etHour), ShowLeagueForm(mode, isAdmin, isCoordinator))) <==>
            DayNumber(today) <= DayNumber(d) <= DayNumber(today) + DaysAhead(etHour)
  {
    DateGate(d, today, etHour, ShowLeagueForm(mode, isAdmin, isCoordinator));
  }

  /**
   * The "opens" date shown for a date beyond the window is that date, as the
   * constructor reads it back, less seven days.
   */
  lemma OpensWeekBefore(d: Date, w: Window)
    requires Valid(d) && IsoYear(d)
    requires !LexLess(Iso(d), w.minDate) && LexLess(w.maxDate, Iso(d))
    ensures StatusOf(Iso(d), w, false) == Some(NotYetOpen(Some(AddDays(Reread(d), -7))))
    ensures 100 <= d.year ==> StatusOf(Iso(d), w, false) == Some(NotYetOpen(Some(AddDays(d, -7))))
  {
    ShiftParsedIso(d, -7);
  }

  /**
   * The "open through" date shown is the window's last day, as the
   * constructor reads it back: that day itself from year 100 on.
   */
  lemma OpenThroughMax(d: Date, today: Date, etHour: int)
    requires WindowToday(today) && Valid(d) && IsoYear(d)
    requires StatusOf(Iso(d), BookingWindow(today, etHour), false).value.OpenThrough?
    ensures StatusOf(Iso(d), BookingWindow(today, etHour), false)
            == Some(OpenThrough(Some(Reread(AddDays(today, DaysAhead(etHour))))))
    ensures 100 <= today.year ==>
              StatusOf(Iso(d), BookingWindow(today, etHour), false)
              == Some(OpenThrough(Some(AddDays(today, DaysAhead(etHour)))))
  {
    var max := AddDays(today, DaysAhead(etHour));
    AddDaysYearBound(today, DaysAhead(etHour));
    ShiftParsedIso(max, 0);
    assert AddDays(Reread(max), 0) == Reread(max);
    assert AddDays(max, 0) == max;
  }

  function FilterCourts(cs: seq<int>, slot: int, booked: set<string>): (r: seq<int>)
    ensures forall c :: c in r <==> c in cs && CellKey(slot, c) !in booked
    ensures |r| <= |cs|
  {
    if |cs| == 0 then []
    else if CellKey(slot, cs[0]) !in booked then [cs[0]] + FilterCourts(cs[1..], slot, booked)
    else FilterCourts(cs[1..], slot, booked)
  }

  /** The unbooked courts keep the order of the options. */
  lemma {:induction false} FilterCourtsInOrder(cs: seq<int>, slot: int, booked: set<string>)
    ensures IsSubsequence(FilterCourts(cs, slot, booked), cs)
  {
    if |cs| > 0 {
      FilterCourtsInOrder(cs[1..], slot, booked);
      SubsequenceCons(FilterCourts(cs[1..], slot, booked), cs[1..], cs[0]);
      assert [cs[0]] + cs[1..] == cs;
    }
  }

  /** `availableCourtOptions`: every court before a slot is chosen, then only the unbooked ones. */
  function AvailableCourts(slot: int, booked: set<string>): (r: seq<int>)
    ensures slot == 0 ==> r == Courts
    ensures forall c :: c in r <==> c in Courts && (slot == 0 || CellKey(slot, c) !in booked)
  {
    if slot == 0 then Courts else FilterCourts(Courts, slot, booked)
  }

  /** The effect that drops a chosen court once its cell is booked. */
  function ResetCourt(slot: int, court: int, booked: set<string>): (r: int)
    ensures r == 0 || r == court
    ensures r == 0 <==> court == 0 || (slot != 0 && CellKey(slot, court) in booked)
    ensures r in Courts ==> r in AvailableCourts(slot, booked)
  {
    if court != 0 && slot != 0 && CellKey(slot, court) in booked then 0 else court
  }

  /** `Number(k.split("-")[0])` of every selected key, in selection order. */
  function SlotNums(cells: seq<string>): (r: seq<Option<nat>>)
    ensures |r| == |cells|
    ensures forall i :: 0 <= i < |cells| ==> r[i] == DecodeKey(cells[i]).0
  {
    seq(|cells|, i requires 0 <= i < |cells| => DecodeKey(cells[i]).0)
  }

  /** `Number(k.split("-")[1])` of every selected key, in selection order. */
  function CourtNums(cells: seq<string>): (r: seq<Option<nat>>)
    ensures |r| == |cells|
    ensures forall i :: 0 <= i < |cells| ==> r[i] == DecodeKey(cells[i]).1
  {
    seq(|cells|, i requires 0 <= i < |cells| => DecodeKey(cells[i]).1)
  }

  /** `[...new Set(...)]` of the slot numbers: `slots_arr`. */
  function SlotsArr(cells: seq<string>): (r: seq<Option<nat>>)
    ensures NoDuplicates(r)
    ensures forall x :: x in r <==> x in SlotNums(cells)
    ensures IsSubsequence(r, SlotNums(cells))
  {
    DedupeInOrder(SlotNums(cells));
    Dedupe(SlotNums(cells))
  }

  /** `[...new Set(...)]` of the court numbers: `courts_arr`. */
  function CourtsArr(cells: seq<string>): (r: seq<Option<nat>>)
    ensures NoDuplicates(r)
    ensures forall x :: x in r <==> x in CourtNums(cells)
    ensures IsSubsequence(r, CourtNums(cells))
  {
    DedupeInOrder(CourtNums(cells));
    Dedupe(CourtNums(cells))
  }

  /** Every selected cell lies in `slots_arr` x `courts_arr`. */
  lemma SelectedCellsCovered(cells: seq<string>, s: nat, c: nat)
    requires CellKey(s, c) in cells
    ensures Some(s) in SlotsArr(cells) && Some(c) in CourtsArr(cells)
  {
    var i :| 0 <= i < |cells| && cells[i] == CellKey(s, c);
    DecodeCellKey(s, c);
    assert SlotNums(cells)[i] == Some(s);
    assert CourtNums(cells)[i] == Some(c);
  }

  /**
   * The product can hold cells nobody selected: choosing two cells in
   * different slots and on different courts posts both slots and both
   * courts, so the two crossed cells are booked as well.
   */
  lemma ProductExceedsSelection(s1: nat, c1: nat, s2: nat, c2: nat, cells: seq<string>)
    requires s1 != s2 && c1 != c2
    requires cells == [CellKey(s1, c1), CellKey(s2, c2)]
    ensures Some(s1) in SlotsArr(cells) && Some(s2) in SlotsArr(cells)
    ensures Some(c1) in CourtsArr(cells) && Some(c2) in CourtsArr(cells)
    ensures CellKey(s1, c2) !in cells && CellKey(s2, c1) !in cells
  {
    Crossed(cells, s1, c1, s2, c2);
    BothCovered(cells, s1, c1, s2, c2);
  }

  lemma BothCovered(cells: seq<string>, s1: nat, c1: nat, s2: nat, c2: nat)
    requires CellKey(s1, c1) in cells && CellKey(s2, c2) in cells
    ensures Some(s1) in SlotsArr(cells) && Some(s2) in SlotsArr(cells)
    ensures Some(c1) in CourtsArr(cells) && Some(c2) in CourtsArr(cells)
  {
    SelectedCellsCovered(cells, s1, c1);
    SelectedCellsCovered(cells, s2, c2);
  }

  lemma Crossed(cells: seq<string>, s1: nat, c1: nat, s2: nat, c2: nat)
    requires s1 != s2 && c1 != c2
    requires cells == [CellKey(s1, c1), CellKey(s2, c2)]
    ensures CellKey(s1, c2) !in cells && CellKey(s2, c1) !in cells
  {
    CellKeyInjective(s1, c2, s1, c1);
    CellKeyInjective(s1, c2, s2, c2);
    CellKeyInjective(s2, c1, s1, c1);
    CellKeyInjective(s2, c1, s2, c2);
  }

  /**
   * `Math.max(1, Math.min(26, n))` of the number the weeks field reads; the
   * field is `type="number"`, so `n` may have a fraction.
   */
  function ClampWeeks(n: real): (r: real)
    ensures 1.0 <= r <= 26.0
    ensures 1.0 <= n <= 26.0 ==> r == n
    ensures n < 1.0 ==> r == 1.0
    ensures n > 26.0 ==> r == 26.0
  {
    if n < 1.0 then 1.0 else if n > 26.0 then 26.0 else n
  }

  /** The weekly loop's test `i < repeatWeeks`. */
  predicate BelowWeeks(i: int, weeks: real) {
    (i as real) < weeks
  }

  /** How many `i = 0, 1, ...` pass the loop test. */
  function WeekCount(weeks: real): (n: nat)
    ensures forall i :: 0 <= i ==> (BelowWeeks(i, weeks) <==> i < n)
  {
    if weeks <= 0.0 then 0
    else if weeks.Floor as real == weeks then weeks.Floor
    else weeks.Floor + 1
  }

  /** A whole count runs that many times; a count with a fraction runs once more than its whole part. */
  lemma WeekCountRounds(k: nat)
    ensures WeekCount(k as real) == k
    ensures WeekCount(k as real + 0.5) == k + 1
  {
    assert (k as real).Floor == k;
    assert (k as real + 0.5).Floor == k;
  }

  /** `toEasternISO` of a computed date; years beyond four digits are not rendered here. */
  function RenderIso(d: Date): string
    requires Valid(d)
  {
    if IsoYear(d) then Iso(d) else ""
  }

  /**
   * The `i`-th weekly date from the numbers `[y, m, d]` split off the start
   * date: `new Date(y, m - 1, d + i * 7)` rendered, or "Invalid Date".
   */
  function WeekOf(ymd: Option<(int, int, int)>, i: int): string {
    var dt := Shift(ymd, i * 7);
    if dt.Some? then RenderIso(dt.value) else "Invalid Date"
  }

  /** The weekly loop: one date for each `i` below `repeatWeeks`, from the numbers split off the start date. */
  method WeeklyDates(ymd: Option<(int, int, int)>, repeatWeeks: real) returns (dates: seq<string>)
    ensures |dates| == WeekCount(repeatWeeks)
    ensures forall i :: 0 <= i < |dates| ==> dates[i] == WeekOf(ymd, i)
  {
    dates := [];
    var i := 0;
    while (i as real) < repeatWeeks
      invariant 0 <= i <= WeekCount(repeatWeeks)
      invariant |dates| == i
      invariant forall j :: 0 <= j < i ==> dates[j] == WeekOf(ymd, j)
      decreases WeekCount(repeatWeeks) - i
    {
      assert BelowWeeks(i, repeatWeeks);
      var text := WeekOf(ymd, i);
      dates := dates + [text];
      i := i + 1;
    }
    assert !BelowWeeks(i, repeatWeeks);
  }

  /** The dates a league/club booking is submitted for. */
  method RecurrenceDates(date: string, repeatWeekly: bool, repeatWeeks: real) returns (dates: seq<string>)
    ensures !repeatWeekly ==> dates == [date]
    ensures repeatWeekly ==> |dates| == WeekCount(repeatWeeks)
    ensures repeatWeekly ==> forall i :: 0 <= i < |dates| ==> dates[i] == WeekOf(ParseYmd(date), i)
  {
    if repeatWeekly {
      dates := WeeklyDates(ParseYmd(date), repeatWeeks);
    } else {
      dates := [date];
    }
  }

  /**
   * Starting from a real date, the `i`-th weekly date is exactly `7 * i`
   * days after the start as the constructor reads it back, which is the
   * start itself from year 100 on.
   */
  lemma WeeklyFromIso(start: Date, i: int)
    requires Valid(start) && IsoYear(start)
    ensures WeekOf(ParseYmd(Iso(start)), i) == RenderIso(AddDays(Reread(start), 7 * i))
    ensures 100 <= start.year ==> WeekOf(ParseYmd(Iso(start)), i) == RenderIso(AddDays(start, 7 * i))
    ensures DayNumber(AddDays(start, 7 * i)) == DayNumber(start) + 7 * i
  {
    ShiftParsedIso(start, i * 7);
    assert i * 7 == 7 * i;
    AddDaysNumber(start, 7 * i);
  }

  /**
   * `isAdmin` as the page reads it: `useProtectedRoute` returns only `user`,
   * `error` and `loading`, so the destructured `isAdmin` is `undefined`
   * whatever the member's role.
   */
  function IsAdminAsWritten(role: Option<string>): (isAdmin: bool)
    ensures !isAdmin
  {
    false
  }

  /** The flag the page evidently means: the signed-in member's role is `ADMIN`. */
  function IsAdmin(role: Option<string>): (isAdmin: bool)
    ensures isAdmin <==> role == Some("ADMIN")
  {
    role == Some("ADMIN")
  }

  /** A signed-in member who coordinates leagues. */
  function IsCoordinator(role: Option<string>): (isCoordinator: bool)
    ensures isCoordinator <==> role == Some("LEAGUE_COORDINATOR")
  {
    role == Some("LEAGUE_COORDINATOR")
  }

  /**
   * As written, an administrator never gets the club form: whatever the
   * mode, no league/club form is shown, and a booking would be typed LEAGUE.
   */
  lemma AdminFlagLost(mode: Mode)
    ensures !ShowLeagueForm(mode, IsAdminAsWritten(Some("ADMIN")), IsCoordinator(Some("ADMIN")))
    ensures EventKind(IsAdminAsWritten(Some("ADMIN"))) == "LEAGUE"
  {
  }

  /** With the role read, an administrator books club events outside the personal mode. */
  lemma AdminBooksClub(role: Option<string>, mode: Mode)
    requires role == Some("ADMIN")
    ensures mode != PersonalMode ==> ShowLeagueForm(mode, IsAdmin(role), IsCoordinator(role))
    ensures EventKind(IsAdmin(role)) == "CLUB"
    ensures !IsCoordinator(role)
  {
  }

  /** One POST body of a league/club booking. */
  datatype EventRequest = EventRequest(
    kind: string,
    slots: seq<Option<nat>>,
    courts: seq<Option<nat>>,
    players: seq<string>,
    date: string,
    name: string,
    leagueId: Option<Option<string>>)   // present only for LEAGUE

  /** The event type: CLUB for an admin, LEAGUE for a coordinator. */
  function EventKind(isAdmin: bool): string {
    if isAdmin then "CLUB" else "LEAGUE"
  }

  /**
   * What became of one POST: an answer with its `res.ok`, or a rejected
   * `fetch` (a network failure), which throws out of the loop.
   */
  datatype PostResult = Answered(ok: bool) | Threw

  /** The index of the first POST that threw, or the number of POSTs when none did. */
  function FirstThrow(results: seq<PostResult>): (t: nat)
    ensures t <= |results|
    ensures forall j :: 0 <= j < t ==> results[j].Answered?
    ensures t < |results| ==> results[t].Threw?
  {
    if |results| == 0 then 0
    else if results[0].Threw? then 0
    else 1 + FirstThrow(results[1..])
  }

  /** The number of POSTs answered with `res.ok`. */
  function CountOk(results: seq<PostResult>): (c: nat)
    ensures c <= |results|
  {
    if |results| == 0 then 0
    else CountOk(results[..|results| - 1]) + (if results[|results| - 1] == Answered(true) then 1 else 0)
  }

  /**
   * The submit loop: one request per date, in order, each awaited before
   * the next. A request that throws ends the loop and rejects the mutation,
   * so no count is returned (no notification, no clearing); otherwise the
   * count is the number of ok answers. Nothing sent is ever withdrawn.
   */
  method SubmitEvents(isAdmin: bool, slotsArr: seq<Option<nat>>, courtsArr: seq<Option<nat>>,
                      players: seq<string>, dates: seq<string>, name: string,
                      selectedLeagueId: Option<string>, results: seq<PostResult>)
    returns (sent: seq<EventRequest>, count: Option<nat>)
    requires |results| == |dates|
    ensures |sent| == (if FirstThrow(results) < |dates| then FirstThrow(results) + 1 else |dates|)
    ensures forall i :: 0 <= i < |sent| ==>
              sent[i] == EventRequest(EventKind(isAdmin), slotsArr, courtsArr, players, dates[i], name,
                                      if isAdmin then None else Some(selectedLeagueId))
    ensures count.None? <==> FirstThrow(results) < |dates|
    ensures count.Some? ==> count.value == CountOk(results) && count.value <= |dates|
  {
    var kind := EventKind(isAdmin);
    sent := [];
    var successCount := 0;
    var i := 0;
    while i < |dates|
      invariant 0 <= i <= |dates|
      invariant |sent| == i
      invariant forall j :: 0 <= j < i ==>
                  sent[j] == EventRequest(kind, slotsArr, courtsArr, players, dates[j], name,
                                          if isAdmin then None else Some(selectedLeagueId))
      invariant forall j :: 0 <= j < i ==> results[j].Answered?
      invariant successCount == CountOk(results[..i])
    {
      sent := sent + [EventRequest(kind, slotsArr, courtsArr, players, dates[i], name,
                                   if kind == "LEAGUE" then Some(selectedLeagueId) else None)];
      if results[i].Threw? {
        return sent, None;
      }
      if results[i].ok {
        successCount := successCount + 1;
      }
      assert results[..i + 1][..i] == results[..i];
      i := i + 1;
    }
    assert results[..|dates|] == results;
    count := Some(successCount);
  }

  /** The success notification: a count only when more than one reservation was made. */
  function SuccessTitle(count: Option<int>): (t: string)
    ensures count.Some? && count.value > 1 ==> t == IntToString(count.value) + " reservations created"
    ensures (count.None? || count.value <= 1) ==> t == "Reservation created"
  {
    if count.Some? && count.value > 1 then IntToString(count.value) + " reservations created"
    else "Reservation created"
  }

  /** `!!selectedLeagueId`: a non-empty id. */
  predicate Truthy(s: Option<string>) {
    s.Some? && s.value != ""
  }

  /** `leagueSubmitReady`. */
  predicate LeagueSubmitReady(cellCount: nat, name: string, isCoordinator: bool,
                              leaguesLoading: bool, selectedLeagueId: Option<string>) {
    cellCount > 0 && Trim(name) != "" &&
    (!isCoordinator || (!leaguesLoading && Truthy(selectedLeagueId)))
  }

  /** `isSubmitDisabled`. */
  predicate SubmitDisabled(isPending: bool, status: Option<DateStatus>, showLeagueForm: bool,
                           leagueReady: bool, slot: int, court: int) {
    isPending || !StatusValid(status) ||
    (if showLeagueForm then !leagueReady else slot == 0 || court == 0)
  }

  /**
   * Submit is enabled only with no request pending, a date the gate
   * accepts and, in the league/club form, a selection and a name (and a
   * league for a coordinator); in the regular form a slot and a court.
   */
  lemma SubmitEnabledMeans(isPending: bool, date: string, w: Window, skip: bool, showLeague: bool,
                           cellCount: nat, name: string, isCoordinator: bool, leaguesLoading: bool,
                           selectedLeagueId: Option<string>, slot: int, court: int)
    requires !SubmitDisabled(isPending, StatusOf(date, w, skip), showLeague,
                             LeagueSubmitReady(cellCount, name, isCoordinator, leaguesLoading, selectedLeagueId),
                             slot, court)
    ensures !isPending && date != "" && !LexLess(date, w.minDate)
    ensures !skip ==> !LexLess(w.maxDate, date)
    ensures showLeague ==> cellCount > 0 && !AllSpace(name)
    ensures showLeague && isCoordinator ==> !leaguesLoading && Truthy(selectedLeagueId)
    ensures !showLeague ==> slot != 0 && court != 0
  {
    TrimEmptyIffAllSpace(name);
  }

  /** `Number(searchParams.get(p)) || 0`: absent, NaN and zero all give 0. */
  function ParamNumber(p: Option<string>): (n: nat)
    ensures p.None? ==> n == 0
  {
    match p
    case None => 0
    case Some(s) => match JsNumber(s) { case Some(v) => v case None => 0 }
  }

  /** The form's state. The selected cells keep the insertion order of the JavaScript `Set`. */
  class ReserveForm {
    var mode: Mode
    var date: string
    var slot: int
    var court: int
    var selectedCells: seq<string>
    var players: seq<string>
    var reservationName: string
    var repeatWeekly: bool
    var repeatWeeks: real

    predicate Valid()
      reads this
    {
      NoDuplicates(selectedCells) && 1.0 <= repeatWeeks <= 26.0
    }

    /** The initial state, with date, slot and court read from the query string. */
    constructor (dateParam: Option<string>, slotParam: Option<string>, courtParam: Option<string>)
      ensures Valid()
      ensures mode == LeagueMode
      ensures date == (if dateParam.Some? then dateParam.value else "")
      ensures slot == ParamNumber(slotParam) && court == ParamNumber(courtParam)
      ensures selectedCells == [] && players == [] && reservationName == ""
      ensures !repeatWeekly && repeatWeeks == 4.0
    {
      mode := LeagueMode;
      date := if dateParam.Some? then dateParam.value else "";
      slot := ParamNumber(slotParam);
      court := ParamNumber(courtParam);
      selectedCells := [];
      players := [];
      reservationName := "";
      repeatWeekly := false;
      repeatWeeks := 4.0;
    }

    /** `handleToggleCell`: flips one key, keeps every other. */
    method ToggleCell(s: int, c: int)
      requires Valid()
      modifies this
      ensures Valid()
      ensures selectedCells == SetToggle(old(selectedCells), CellKey(s, c))
      ensures CellKey(s, c) in selectedCells <==> CellKey(s, c) !in old(selectedCells)
      ensures forall k :: k != CellKey(s, c) ==> (k in selectedCells <==> k in old(selectedCells))
      ensures mode == old(mode) && date == old(date) && slot == old(slot) && court == old(court)
      ensures players == old(players) && reservationName == old(reservationName)
      ensures repeatWeekly == old(repeatWeekly) && repeatWeeks == old(repeatWeeks)
    {
      var key := CellKey(s, c);
      SetToggleFlips(selectedCells, key);
      if key in selectedCells {
        selectedCells := SetDelete(selectedCells, key);
      } else {
        selectedCells := SetAdd(selectedCells, key);
      }
    }

    /** `handleOnClear`: everything back to empty; the name falls back to the selected league's. */
    method Clear(selectedLeagueName: Option<string>)
      modifies this
      ensures Valid()
      ensures mode == old(mode)
      ensures players == [] && date == "" && slot == 0 && court == 0 && selectedCells == []
      ensures reservationName == (if selectedLeagueName.Some? then selectedLeagueName.value else "")
      ensures !repeatWeekly && repeatWeeks == 4.0
    {
      players := [];
      date := "";
      slot := 0;
      court := 0;
      selectedCells := [];
      reservationName := if selectedLeagueName.Some? then selectedLeagueName.value else "";
      repeatWeekly := false;
      repeatWeeks := 4.0;
    }

    /** `handleModeSwitch`: a new mode starts a fresh booking; a personal booking includes the user. */
    method SwitchMode(m: Mode, userId: Option<string>, selectedLeagueName: Option<string>)
      requires Valid()
      modifies this
      ensures Valid()
      ensures mode == m && date == "" && slot == 0 && court == 0 && selectedCells == []
      ensures players == (if m == PersonalMode && Truthy(userId) then [userId.value] else [])
      ensures reservationName == (if m == LeagueMode && selectedLeagueName.Some? then selectedLeagueName.value else "")
      ensures repeatWeekly == old(repeatWeekly) && repeatWeeks == old(repeatWeeks)
    {
      mode := m;
      date := "";
      slot := 0;
      court := 0;
      selectedCells := [];
      players := if m == PersonalMode && Truthy(userId) then [userId.value] else [];
      reservationName := if m == LeagueMode && selectedLeagueName.Some? then selectedLeagueName.value else "";
    }

    /** The weeks field, clamped to 1..26. */
    method SetRepeatWeeks(n: real)
      requires Valid()
      modifies this
      ensures Valid()
      ensures repeatWeeks == ClampWeeks(n)
      ensures mode == old(mode) && date == old(date) && slot == old(slot) && court == old(court)
      ensures selectedCells == old(selectedCells) && players == old(players)
      ensures reservationName == old(reservationName) && repeatWeekly == old(repeatWeekly)
    {
      repeatWeeks := ClampWeeks(n);
    }

    /** The court-reset effect. */
    method ResetCourtIfBooked(booked: set<string>)
      requires Valid()
      modifies this
      ensures Valid()
      ensures court == ResetCourt(slot, old(court), booked)
      ensures mode == old(mode) && date == old(date) && slot == old(slot)
      ensures selectedCells == old(selectedCells) && players == old(players)
      ensures reservationName == old(reservationName)
      ensures repeatWeekly == old(repeatWeekly) && repeatWeeks == old(repeatWeeks)
    {
      if court != 0 && slot != 0 && CellKey(slot, court) in booked {
        court := 0;
      }
    }
  }
}
