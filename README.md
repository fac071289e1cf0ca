# crtc-ui court booking front end, modelled in Dafny

This project models the client-side logic of the tennis club's web front end.
Members reserve courts, browse the court calendar, see their reservations,
join leagues and manage their account. Administrators edit member accounts
and send mass email. The model covers what those pages compute and keep in
state. It does not cover the HTTP APIs or the database behind them.

Modules, one per part of the program:

- `Types`: the shared records (members, reservations, slots, leagues).
- `Seqs`, `Text`, `Dates`: the building blocks JavaScript gives the pages.
  - `Seqs`: a JavaScript `Set` of strings, kept as a duplicate-free sequence in insertion order.
  - `Text`: `trim`, `toLowerCase`, `includes`, `split` and `join`, and `Number` on digit strings.
  - `Dates`: the calendar, day numbers, weekdays, `new Date(y, m, d)` with its overflow and its reading of the years 0 to 99 as 1900 to 1999, and `YYYY-MM-DD` strings.
- `Utils`: `memberMatchesFilter` and `normalizeString`.
- `Reserve`, `SlotGrid`, `BookedCells`: the Reserve page.
  - the booking window, opening at 22:00 Eastern seven days ahead;
  - the slot-by-court grid and the set of booked cells;
  - league and club events, with optional weekly repeats;
  - the form state, as the class `ReserveForm`.
- `Calendar`, `MonthView`, `WeekView`, `DayView`: the member calendar.
  - month, week and day navigation, as the class `CalendarPage`;
  - the month grid in whole weeks;
  - availability colours, week columns and day rows;
  - the links that pre-fill the Reserve page.
- `Reservations`, `Home`: "My reservations" and the home page.
  - time-slot and court labels;
  - grouping by date;
  - the preview of upcoming reservations.
- `MemberLists`: the member list, the accounts table and the players picker.
  - filtering and sorting;
  - chosen players first.
- `Leagues`: the member's status in a league, waitlist position, fullness and the enroll button.
- `Accounts`: the account editor and the status drop-down.
- `SendEmail`, `MassEmail`: the admin mass-email page.
  - recipient groups and the de-duplicated recipient list;
  - the message handed to Mailgun;
  - the form state, as the class `EmailForm`.
- `SignUp`, `Login`, `Phone`: the join and log-in forms and the phone-number formatter.
- `Notifications`, `Navbar`: the notification list, as the class `NotificationsProvider`, and the active-link test.

Inputs the pages read from the environment become parameters:

- the current Eastern date and hour;
- whether the user is an administrator or a league coordinator (the Reserve page as written never learns the first; see "## Findings");
- whether an email matches the pages' regular expression;
- every answer from the server, Supabase or Mailgun.

## Model

| member | source | states |
|---|---|---|
| Reserve.DaysAhead | app/member/reserve/page.tsx:86 | the window reaches seven days ahead from 22:00 Eastern on, six before |
| Reserve.StatusOf | app/member/reserve/page.tsx:92-119 | an empty date has no status; a date whose ISO text sorts before today's is Past and never valid |
| Reserve.DateGate | app/member/reserve/page.tsx:81-119 | a date is bookable iff it is not before today and, unless the window is skipped, not after today plus the days ahead (by day number) |
| Reserve.PlainMemberWindow | app/member/reserve/page.tsx:59-62 | in personal mode, or for a member who is neither admin nor coordinator, the window always applies |
| Reserve.IsAdminAsWritten | app/member/reserve/page.tsx:44 | `isAdmin` destructured from `useProtectedRoute`, which returns no such field: false for every member |
| Reserve.IsAdmin | app/types.ts:9 | the intended flag: the member's role is ADMIN |
| Reserve.IsCoordinator | app/member/reserve/page.tsx:45 | the member's role is LEAGUE_COORDINATOR |
| Reserve.AdminFlagLost | app/member/reserve/page.tsx:59-60 | as written, an administrator never sees the league/club form, in any mode, and a booking would be typed LEAGUE |
| Reserve.AdminBooksClub | app/member/reserve/page.tsx:254 | with the role read, an administrator sees the form outside the personal mode and books CLUB events |
| Reserve.ShiftParsedIso | app/member/reserve/page.tsx:97-98 | splitting an ISO date and building `new Date(y, m - 1, d + k)` gives the date the constructor reads back from those fields, shifted by k days; from year 100 on that is the date itself shifted by k days |
| Reserve.ShiftCentury | app/member/reserve/page.tsx:97-98 | for "0050-03-10" the week-earlier date is 3 March 1950, since the constructor reads year 50 as 1950 |
| Reserve.OpensWeekBefore | app/member/reserve/page.tsx:96-105 | a not-yet-open date reports as its opening day the date read back by the constructor less seven days; from year 100 on that is exactly seven days before the date |
| Reserve.OpenThroughMax | app/member/reserve/page.tsx:107-116 | an open date in the window reports the window's last day as the constructor reads it back; that is the last day itself when today is in year 100 or later |
| Reserve.FilterCourts | app/member/reserve/page.tsx:178-180 | a court is offered iff its cell for the chosen slot is not booked; never more courts than options |
| Reserve.FilterCourtsInOrder | app/member/reserve/page.tsx:178-180 | the offered courts are a subsequence of the options: `filter` keeps their order |
| Reserve.AvailableCourts | app/member/reserve/page.tsx:176-181 | with no slot chosen every court is offered; otherwise only the unbooked ones |
| Reserve.ResetCourt | app/member/reserve/page.tsx:184-188 | the chosen court is cleared exactly when slot and court are set and that cell is booked |
| Reserve.SlotsArr | app/member/reserve/page.tsx:237-239 | the posted slots hold exactly the decoded slot numbers of the selected cells, each once, first occurrences in selection order |
| Reserve.CourtsArr | app/member/reserve/page.tsx:240-242 | the posted courts hold exactly the decoded court numbers of the selected cells, each once, first occurrences in selection order |
| Reserve.SelectedCellsCovered | app/member/reserve/page.tsx:237-242 | every selected cell's slot and court appear in the posted arrays |
| Reserve.ProductExceedsSelection | app/member/reserve/page.tsx:237-242 | two diagonal cells post both their slots and both their courts, so the pairs the server books include the two crossed cells, which were never selected |
| Reserve.ClampWeeks | app/member/reserve/page.tsx:492-496 | the typed number, fractions included, is kept within 1 to 26, and unchanged inside that range |
| Reserve.WeekCount | app/member/reserve/page.tsx:246 | the number of loop turns: exactly the i = 0, 1, ... with i < repeatWeeks |
| Reserve.WeekCountRounds | app/member/reserve/page.tsx:246 | a whole count k runs k times; k and a half runs k + 1 times (2.5 weeks post 3 dates) |
| Reserve.RecurrenceDates | app/member/reserve/page.tsx:243-252 | one date without repeats; otherwise one date per loop turn of `i < repeatWeeks`, the i-th being the start date moved i weeks |
| Reserve.WeeklyDates | app/member/reserve/page.tsx:246-249 | the weekly loop yields one date per i below the (possibly fractional) count, the i-th being the split start date moved i weeks |
| Reserve.WeeklyFromIso | app/member/reserve/page.tsx:245-249 | the i-th repeat date is the ISO text of the start date, as the constructor reads it back, plus 7·i days; from year 100 on that is the start date itself plus 7·i days |
| Reserve.FirstThrow | app/member/reserve/page.tsx:256-257 | the first POST whose `fetch` rejected: every earlier one was answered, and it threw |
| Reserve.SubmitEvents | app/member/reserve/page.tsx:254-271 | requests go out in date order, CLUB for admins and LEAGUE with the league id otherwise, up to and including the first that throws; a throw leaves no count (the mutation rejects), otherwise the count is the number of ok answers |
| Reserve.SuccessTitle | app/member/reserve/page.tsx:224-233 | a count above one is announced with the count; otherwise "Reservation created" |
| Reserve.SubmitEnabledMeans | app/member/reserve/page.tsx:288-296 | an enabled Submit means nothing is pending, the date is set and not past, within the window unless skipped, and the league form is ready or a slot and a court are chosen |
| Reserve.ParamNumber | app/member/reserve/page.tsx:65-66 | a missing query parameter becomes 0 |
| Reserve.ReserveForm.constructor | app/member/reserve/page.tsx:47-78 | the date, slot and court come from the query parameters; league mode, nothing selected, no name, no repeats, four weeks |
| Reserve.ReserveForm.ToggleCell | app/member/reserve/page.tsx:190-197 | the cell's key joins the selection if absent and leaves it if present; the selection stays duplicate-free and nothing else changes |
| Reserve.ReserveForm.Clear | app/member/reserve/page.tsx:199-208 | players, date, slot, court and cells are emptied, the name becomes the selected league's or empty, repeats go off at four weeks; the mode is kept |
| Reserve.ReserveForm.SwitchMode | app/member/reserve/page.tsx:210-218 | the mode changes and date, slot, court and cells are emptied; personal mode with a user pre-selects that user; league mode takes the league's name, others an empty name |
| Reserve.ReserveForm.SetRepeatWeeks | app/member/reserve/page.tsx:493-495 | the repeat count becomes the typed number, fraction kept, clamped to 1..26; nothing else changes |
| Reserve.ReserveForm.ResetCourtIfBooked | app/member/reserve/page.tsx:184-187 | the court becomes the reset rule's result; nothing else changes |
| Seqs.SetToggleTwice | app/member/reserve/page.tsx:192-195 | toggling the same key twice gives back the same members, and the same list when the key was absent |
| SlotGrid.DecodeCellKey | app/member/reserve/SlotCourtGrid.tsx:51 | a `slot-court` key splits back into its slot and court |
| SlotGrid.CellKeyInjective | app/member/reserve/SlotCourtGrid.tsx:52 | two cells have the same key iff they are the same cell |
| SlotGrid.Grid | app/member/reserve/SlotCourtGrid.tsx:43-68 | nine rows of four cells; each cell carries its slot, court and key, is disabled iff booked, and is marked booked, selected or blank |
| SlotGrid.Click | app/member/reserve/SlotCourtGrid.tsx:56-59 | clicking a booked cell changes nothing; any other click flips that key alone, keeping the selection duplicate-free |
| SlotGrid.BookedCellStaysOut | app/member/reserve/SlotCourtGrid.tsx:53-59 | in the drawn grid a booked cell shows the booked mark and clicking it leaves the selection as it was |
| BookedCells.ComputeBookedCells | app/member/reserve/page.tsx:164-173 | no slot data gives the empty set; otherwise the loop gathers the keys of every booked court of every slot |
| BookedCells.AddSlotKeys | app/member/reserve/page.tsx:168-170 | the inner loop adds to the set exactly the keys of the slot's booked courts |
| BookedCells.SlotKeyDecode | app/member/reserve/page.tsx:168-169 | within one slot, a key is present iff it pairs the slot's own index with one of its booked courts |
| BookedCells.BookedMembers | app/member/reserve/page.tsx:167-171 | a key is gathered iff one of the slots has it among its booked keys |
| BookedCells.BookedCellsDecode | app/member/reserve/page.tsx:169 | a cell is in the booked set iff the slot with that index has that court booked |
| MemberLists.FilterMembers | app/hooks/useListMembers.ts:22-24 | the members kept all pass the filter, and there are no more of them than fetched |
| MemberLists.FilterMembersInOrder | app/hooks/useListMembers.ts:22-24 | the kept members are a subsequence of the fetched list: `filter` keeps their order |
| MemberLists.FilterCounts | app/member/list/page.tsx:29-33 | each passing member is kept as often as it was fetched, and no other member is kept |
| MemberLists.FilterKeepsAll | app/hooks/useListMembers.ts:22-24 | a filter every member passes returns the list unchanged |
| MemberLists.BeforeAsym | app/member/reserve/PlayersMultiSelect.tsx:28-36 | the comparator never puts two members before each other; members it leaves unordered have the same rank and first name |
| MemberLists.BeforeTrans | app/member/reserve/PlayersMultiSelect.tsx:42-50 | the comparator's order is transitive |
| MemberLists.NotBeforeTrans | app/member/reserve/PlayersMultiSelect.tsx:29-35 | "not after" is transitive too, so the comparator is consistent |
| MemberLists.Insert | app/hooks/useListMembers.ts:18-20 | inserting adds exactly the one member, keeping the others |
| MemberLists.InsertSorted | app/hooks/useListMembers.ts:26-28 | inserting into a sorted list keeps it sorted |
| MemberLists.SortMembers | app/member/list/page.tsx:25-27 | sorting keeps the length and the members, each as often as before |
| MemberLists.SortMembersSorted | app/member/list/page.tsx:35-37 | the sorted list is in comparator order |
| MemberLists.ShownSortedFiltered | app/member/reserve/PlayersMultiSelect.tsx:25-51 | the shown list is sorted and holds exactly the passing members, each as often as fetched |
| MemberLists.ChosenFirst | app/member/reserve/PlayersMultiSelect.tsx:29-33 | every chosen player is listed before every other member |
| MemberLists.GroupsByFirstName | app/member/reserve/PlayersMultiSelect.tsx:35 | within the chosen and the other players, first names never decrease |
| MemberLists.BlankFilterShowsAll | app/hooks/useListMembers.ts:16-24 | a whitespace-only filter shows the same list as an empty one |
| MemberLists.ListPageLastNameCaseSensitive | app/member/list/page.tsx:32 | on the list page a filter with a capital letter never matches a last name |
| MemberLists.ListPageFirstNameIgnoresCase | app/member/list/page.tsx:31 | the list page's first-name test ignores the filter's case and surrounding space |
| MemberLists.SortInPlace | app/hooks/useListMembers.ts:18-20 | the array ends up holding the sorted members |
| MemberLists.Select | app/admin/accounts/page.tsx:227-242 | the shown list is the sorted, filtered members; an empty filter sorts the fetched array in place; otherwise it is left alone |
| MemberLists.ClickPlayer | app/member/reserve/PlayersMultiSelect.tsx:101-104 | the clicked player flips in or out; other players and the lack of duplicates are kept |
| MemberLists.ClickPlayerAsWritten | app/member/reserve/page.tsx:510-513 | the Reserve page passes the picker only `onSave`, so a click calls an undefined callback and the players stay as they were |
| MemberLists.PickerClickLost | app/member/reserve/PlayersMultiSelect.tsx:101-104 | as wired, a click never changes the players, while the intended toggle always does (an unchosen player stays unchosen) |
| MemberLists.PickerLabel | app/member/reserve/PlayersMultiSelect.tsx:77 | "n selected" for n chosen players, "Select players" for none |
| Utils.BlankFilterMatchesAll | app/utils.ts:10-11 | a blank filter matches every member |
| Utils.MatchesFullName | app/utils.ts:14 | a member matches iff the trimmed, lower-cased filter is empty or occurs in "first last" lower-cased |
| Utils.MatchIgnoresCase | app/utils.ts:10-13 | upper-casing the filter does not change whether a member matches |
| Utils.MatchIgnoresSurroundingSpace | app/utils.ts:10 | spaces around the filter do not change whether a member matches |
| Utils.NormalizeString | app/utils.ts:17-20 | the result has the trimmed length, an upper-case first character and lower-case others |
| Utils.NormalizeBlank | app/utils.ts:18-19 | the result is empty iff the string is blank |
| Utils.NormalizeIdempotent | app/utils.ts:17-20 | normalizing twice is normalizing once |
| Utils.NormalizeUpperWord | app/utils.ts:17-20 | an upper-case status name keeps its first letter and lower-cases the rest |
| Leagues.FindIndex | app/member/leagues/page.tsx:90 | -1 iff no entry has the user's id (or there is no user), else the index of the first one that does |
| Leagues.MyStatusOf | app/member/leagues/page.tsx:89-95 | enrolled iff on the roster; waitlisted iff on the waitlist only; none iff on neither or signed out |
| Leagues.PositionOfWaitlisted | app/member/leagues/page.tsx:264 | a waitlisted member's number is the 1-based position of their first waitlist entry |
| Leagues.SeasonOf | app/member/leagues/page.tsx:85 | the roster's season when it has one, else the waitlist's, else none |
| Leagues.FullnessMonotone | app/member/leagues/page.tsx:160-161 | an uncapped season is never full, and a full season stays full as the roster grows |
| Leagues.Offered | app/member/leagues/page.tsx:247-287 | Withdraw is offered iff the member is enrolled or waitlisted; Enroll iff neither and enrollment is open; the button is disabled iff a request is pending |
| Leagues.EnrollCaption | app/member/leagues/page.tsx:275-287 | the enroll button reads "Join waitlist" iff the season is full and nothing is pending, and "Enroll" iff neither |
| Leagues.ClickLeague | app/member/leagues/page.tsx:179 | clicking a card selects it, or clears the selection if it was the selected one |
| Leagues.ClickLeagueTwice | app/member/leagues/page.tsx:179 | two clicks on one card leave it selected iff it was selected before |
| Accounts.ApplyEdit | app/admin/accounts/page.tsx:68-188 | an edit sets its own field of the member and keeps every other field |
| Accounts.EditUndo | app/admin/accounts/page.tsx:64-87 | writing back a field's old value after an edit restores the member |
| Accounts.EditLastWins | app/admin/accounts/page.tsx:141-146 | of two edits to the same field, the second wins |
| Accounts.StatusOptions | app/admin/accounts/page.tsx:147-164 | four distinct options, each status at its place in the drop-down |
| Accounts.StatusLabel | app/admin/accounts/page.tsx:149-161 | each option's label keeps the status name's first letter and lower-cases the rest |
| Accounts.CreateAccountAfterStatusEdit | app/admin/accounts/page.tsx:196-205 | "Create account" shows iff the edited status is Waitlist |
| Accounts.ProxyQuery | app/api/members/route.ts:12-19 | the Next members route, which the member list's relative `fetch` reaches: WAITLIST and ACTIVE are passed on as the status filter; any other value gives no filter |
| Accounts.ViewQueries | app/admin/accounts/page.tsx:244-246 | each view requests its own name upper-cased: `?status=ACTIVE`, `?status=WAITLIST`, and `?status=ALL` for the All view |
| Calendar.SetMonthAsWritten | app/member/calendar/page.tsx:25 | the month step the page writes, `setMonth` with day overflow; always a valid date |
| Calendar.SetMonthSkipsFebruary | app/member/calendar/page.tsx:33 | from 31 January 2025 "next" lands on 3 March; from 31 March "previous" lands on 3 March |
| Calendar.ShiftMonth | app/member/calendar/page.tsx:29-35 | the step lands k months away, on the same day clamped to that month's length |
| Calendar.ShiftMonthAgrees | app/member/calendar/page.tsx:23-25 | where the day exists in the target month, the corrected step agrees with the page's |
| Calendar.MonthRoundTrip | app/member/calendar/page.tsx:21-35 | "next" then "previous" returns to the same month and year |
| Calendar.SetMonthOverflow | app/member/calendar/page.tsx:25 | `setMonth` is the clamped month step followed by the days the target month lacks |
| Calendar.Step | app/member/calendar/page.tsx:21-35 | a day or week step moves the day number by 1 or 7; a month step is the page's `setMonth`: the clamped step plus the overflow days |
| Calendar.NextThenPrev | app/member/calendar/page.tsx:21-35 | in the day and week views "next" then "previous" gives back the date; in the month view it does so when the next month has the date's day |
| Calendar.MonthBackAndForth | app/member/calendar/page.tsx:25-33 | `setMonth` forward then back returns the date itself when the next month has its day |
| Calendar.WeekLabelRange | app/member/calendar/page.tsx:47-52 | the label runs from a Monday to the Sunday six days later, around the current date |
| Calendar.PageRequests | app/member/calendar/page.tsx:73-119 | the day view requests the current date's slots, the month view the grid's availability range, the week view nothing of its own |
| Calendar.RangeCoversGrid | app/member/calendar/page.tsx:86-105 | a day's ISO text lies in the requested range iff the day lies in the grid |
| Calendar.CalendarPage.constructor | app/member/calendar/page.tsx:18-19 | the page opens on today in the day view |
| Calendar.CalendarPage.GoPrev | app/member/calendar/page.tsx:21-27 | the date moves one step back in the current view, by `setMonth` in the month view; the view is kept |
| Calendar.CalendarPage.GoNext | app/member/calendar/page.tsx:29-35 | the date moves one step forward in the current view, by `setMonth` in the month view; the view is kept |
| Calendar.CalendarPage.GoToday | app/member/calendar/page.tsx:137 | the date becomes today and the view is kept |
| Calendar.CalendarPage.SetView | app/member/calendar/page.tsx:159 | the view changes and the date is kept |
| Calendar.CalendarPage.SelectDate | app/member/calendar/page.tsx:176-191 | choosing a day opens that day in the day view |
| MonthView.AvailabilityColor | app/member/calendar/MonthView.tsx:9-14 | green up to 9 booked slots, yellow up to 18, orange up to 27, red beyond |
| MonthView.ColorMonotone | app/member/calendar/MonthView.tsx:10-13 | more booked slots never give a lighter colour |
| MonthView.FirstOfMonth | app/member/calendar/MonthView.tsx:36 | day 1 of the date's month, in the year the constructor reads (1900 + y for a year y from 0 to 99) |
| MonthView.LastOfMonth | app/member/calendar/MonthView.tsx:37 | the last day of the date's month, in the year the constructor reads |
| MonthView.GridBounds | app/member/calendar/MonthView.tsx:39-48 | the grid starts on the Monday at most six days before the 1st and ends on the Sunday at most six days after the last day |
| MonthView.WholeWeeks | app/member/calendar/MonthView.tsx:50-55 | a span from a Monday to a later Sunday holds a whole number of weeks |
| MonthView.DayCells | app/member/calendar/MonthView.tsx:50-55 | the loop lists every day from grid start to grid end, in order |
| MonthView.ChunkWeeks | app/member/calendar/MonthView.tsx:57-60 | the days are cut into rows of seven that concatenate back to the list |
| MonthView.Weeks | app/member/calendar/MonthView.tsx:33-62 | rows of seven consecutive days, Monday to Sunday, from grid start to grid end, holding every day of the month in the constructor's year |
| MonthView.WeekRows | app/member/calendar/MonthView.tsx:58-59 | seven-day rows from a Monday each start on a Monday and hold seven consecutive days |
| MonthView.MonthInGrid | app/member/calendar/MonthView.tsx:51-54 | every day of the month, in the constructor's year, appears in the grid |
| MonthView.LastFor | app/member/calendar/MonthView.tsx:29 | a found entry is in the list and has that date |
| MonthView.AvailabilityMap | app/member/calendar/MonthView.tsx:27-31 | the loop maps each date to the last list entry with that date |
| MonthView.Bar | app/member/calendar/MonthView.tsx:107-115 | a day shows a bar iff it has an entry with booked slots, in that entry's colour |
| MonthView.BarFromList | app/member/calendar/MonthView.tsx:28-30 | a day shows a bar iff the last list entry for that date has booked slots |
| WeekView.WeekDates | app/member/calendar/WeekView.tsx:31-39 | seven valid dates |
| WeekView.WeekDatesSpan | app/member/calendar/WeekView.tsx:32-38 | consecutive days from a Monday to a Sunday, including the current date |
| WeekView.WeekIsos | app/member/calendar/WeekView.tsx:41-44 | seven ISO strings, one per column |
| WeekView.WeekIsosDistinct | app/member/calendar/WeekView.tsx:42-43 | the seven column keys are distinct |
| WeekView.SlotsOrEmpty | app/member/calendar/WeekView.tsx:62 | the returned slots, or none when the query has no data |
| WeekView.SlotsByDate | app/member/calendar/WeekView.tsx:60-63 | the map's keys are the week's dates, each mapping to the slots of its own query result |
| WeekView.WeekSlots | app/member/calendar/WeekView.tsx:61-63 | each column reads the slots of its own date's query |
| WeekView.Dots | app/member/calendar/WeekView.tsx:111-114 | one dot per court, filled iff that court is booked in the slot |
| WeekView.DotMatchesBookedCells | app/member/calendar/WeekView.tsx:96-114 | a dot is filled iff the Reserve page counts that cell as booked |
| DayView.DigitPrefix | app/member/calendar/DayView.tsx:9 | the leading digits of the text in the base `parseInt` uses (decimal, or hexadecimal after a `0x`/`0X` prefix): a prefix of the text, all digits of that base, and not followed by one |
| DayView.ParseIntNaN | app/member/calendar/DayView.tsx:9 | NaN iff no digit of the base follows the leading space, the sign and a `0x`/`0X` prefix; the value is at most 0 after `-` and at least 0 otherwise |
| DayView.ParseIntHex | app/member/calendar/DayView.tsx:9 | a `0x` or `0X` prefix followed by hexadecimal digits reads them in base 16; the prefix alone is NaN |
| DayView.ParseIntHexExample | app/member/calendar/DayView.tsx:9 | `parseInt("0x1f")` is 31 and `parseInt("0x")` is NaN |
| DayView.ParseIntOfDigits | app/member/calendar/DayView.tsx:11 | `parseInt` of a digit string gives its value |
| DayView.JsRem | app/member/calendar/DayView.tsx:12 | the remainder lies strictly between -n and n and is the ordinary one for a non-negative dividend |
| DayView.FormatTimeOfClock | app/member/calendar/DayView.tsx:8-13 | an `HH:MM:SS` time shows as the 12-hour hour and the minutes, with AM before noon and PM from noon |
| DayView.ClockParts | app/member/calendar/DayView.tsx:11-12 | an hour and minutes show in 12-hour form, with AM before 12 and PM from 12 |
| DayView.SplitClock | app/member/calendar/DayView.tsx:9 | splitting `HH:MM:SS` at the colons gives the three parts back |
| DayView.PlayerRows | app/member/calendar/DayView.tsx:51-56 | half as many rows as players, rounded up |
| DayView.PlayerRowsAreChunks | app/member/calendar/DayView.tsx:52-55 | the rows are the players cut in pieces of two |
| DayView.PlayerRowsShape | app/member/calendar/DayView.tsx:51-61 | the rows concatenate back to the players; every row holds two players except possibly the last, which holds one |
| DayView.CellAt | app/member/calendar/DayView.tsx:42-72 | a court shows its reservation's name and player rows iff it is booked; a free court links to the Reserve page for that date, slot and court |
| DayView.FirstValue | app/member/reserve/page.tsx:64 | a found value belongs to a pair with that name; none iff no pair has the name |
| DayView.QueryRoundTrip | app/member/reserve/page.tsx:64-66 | the date, slot and court written into a query are read back unchanged |
| DayView.PrefillRoundTrip | app/member/calendar/DayView.tsx:65-72 | the Reserve page reads the linked date, slot and court back from the link |
| Types.ReservationAt | app/member/calendar/DayView.tsx:42 | a reservation is found iff the court has one |
| Dates.AddDaysNumber | app/member/calendar/page.tsx:23-24 | adding n days adds n to the day number |
| Dates.IsoOrder | app/member/reserve/page.tsx:94-96 | ISO strings sort as their dates do, and are equal iff the dates are |
| Dates.WeekStartIsMonday | app/member/calendar/WeekView.tsx:32-33 | the week starts on a Monday at most six days before the date |
| Dates.WeekEndIsSunday | app/member/calendar/MonthView.tsx:46-48 | the week ends on a Sunday at most six days after the date |
| Dates.NewDateLastOfMonth | app/member/calendar/MonthView.tsx:37 | `new Date(y, m, 0)` is the last day of month m in the year the constructor reads |
| Dates.RereadYear | app/member/calendar/MonthView.tsx:36 | rebuilding a date from its fields gives it back outside the years 0 to 99; inside them it gives the same month and day in 1900 + y, except that 29 February of year 0 becomes 1 March 1900 |
| Dates.NewDateShift | app/member/reserve/page.tsx:98 | `new Date(y, m - 1, d + k)` of a date's fields is k days after the date the constructor reads back |
| Dates.NewDateCentury | app/member/reserve/page.tsx:98 | `new Date(50, 2, 3)` is 3 March 1950 and `new Date(150, 2, 3)` is 3 March 150 |
| Dates.LeapDayOfYearZero | app/member/calendar/MonthView.tsx:36 | 29 February of year 0 is read back as 1 March 1900 |
| Dates.ParseIso | app/member/reserve/page.tsx:97 | splitting an ISO date on dashes and reading the numbers gives the date back |
| Reservations.TimeSlotParts | app/member/reservations/page.tsx:24-35 | each time-slot label is its start, ` – ` and its end, neither part holding an en dash |
| Reservations.SlotsOf | app/member/reservations/page.tsx:38 | the reservation's slot list when non-empty, else its single slot |
| Reservations.CourtsOf | app/member/home/page.tsx:58 | the reservation's court list when non-empty, else its single court |
| Reservations.SplitLabel | app/member/home/page.tsx:49-55 | a label splits at ` – ` into its start and end |
| Reservations.SlotsDisplayRange | app/member/reservations/page.tsx:37-43 | one slot shows its label; several show the earliest start to the latest end |
| Reservations.CourtList | app/member/home/page.tsx:57-62 | each court number as text, in order |
| Reservations.CourtsDisplayReadsBack | app/member/reservations/page.tsx:45-50 | one court shows "Court n"; several show "Courts " and a list that splits back into the court numbers |
| Reservations.GroupByDate | app/member/reservations/page.tsx:101-110 | the loop's groups equal the grouping function |
| Reservations.ItemsOfPlace | app/member/reservations/page.tsx:109 | placing a reservation appends it to the grouped items |
| Reservations.GroupingKeepsItems | app/member/reservations/page.tsx:101-110 | the groups together hold every reservation, in list order |
| Reservations.GroupingFirst | app/member/reservations/page.tsx:101-110 | the first group is headed by the list's first date and opens with its first reservation |
| Reservations.GroupingDates | app/member/reservations/page.tsx:103-108 | the group dates are distinct and are exactly the dates in the list |
| Reservations.PlaceWellGrouped | app/member/reservations/page.tsx:104-109 | placing a reservation whose date is the last group's, or new, keeps one group per run of dates |
| Reservations.GroupingAdjacent | app/member/reservations/page.tsx:101-110 | a list whose equal dates are adjacent groups into one group per date |
| Reservations.GroupingSplitRun | app/member/reservations/page.tsx:109 | with dates d1, d2, d1 the third reservation is appended to the d2 group, so the result is not grouped by date |
| Reservations.Badge | app/member/reservations/page.tsx:146 | no type shows "Play on your own"; REGULAR, LEAGUE and CLUB have badges and other types none |
| Reservations.EmptyIffNoReservations | app/member/reservations/page.tsx:123 | there are no groups iff there are no reservations |
| Home.Greeting | app/member/home/page.tsx:22-27 | morning before 11, afternoon from 11 to before 17, evening from 17 |
| Home.Preview | app/member/home/page.tsx:131 | nothing without data; otherwise the first three reservations, or all when fewer |
| Home.PreviewLeadsReservations | app/member/home/page.tsx:131 | the preview is the first three reservations the reservations page shows across its date groups, in order, and opens with the first reservation of the first group |
| SendEmail.RecipientList | app/actions/send-email.ts:11-13 | one recipient per comma-separated part, each trimmed; never empty |
| SendEmail.RecipientVariablesKeys | app/actions/send-email.ts:21-26 | the recipient variables have exactly the recipients as keys, each with value 1 |
| SendEmail.MessageOf | app/actions/send-email.ts:16-27 | the message is from the club's sender with the given subject, body and recipient list |
| SendEmail.SendMassEmail | app/actions/send-email.ts:30-37 | success iff Mailgun queued the message, with a message counting the recipients |
| SendEmail.CountIncludesDuplicates | app/actions/send-email.ts:30-33 | a repeated address is counted twice in the message though it is one key |
| SendEmail.EmptyStringOneRecipient | app/actions/send-email.ts:11-13 | an empty field still yields one empty recipient, reported as 1 email |
| MassEmail.LeagueGroup | app/admin/email/page.tsx:278 | a league's group id is `league-` followed by its id |
| MassEmail.MemberEmails | app/admin/email/page.tsx:271-276 | the email addresses of a member list, in order |
| MassEmail.RosterEmailsMembers | app/admin/email/page.tsx:279-281 | an address comes from a roster iff some enrollment there has it as its member's non-empty email |
| MassEmail.LeagueEmailsMembers | app/admin/email/page.tsx:277-283 | an address comes from the leagues iff a selected league's roster has it |
| MassEmail.AddEachMembers | app/admin/email/page.tsx:270-272 | adding addresses to a set gives the old and the new addresses, without duplicates |
| MassEmail.AddAll | app/admin/email/page.tsx:272 | the loop adds each address to the set in turn |
| MassEmail.AddMemberGroups | app/admin/email/page.tsx:270-276 | the loop adds the addresses of the selected active and waitlist groups |
| MassEmail.RecipientEmails | app/admin/email/page.tsx:269-285 | the loops add the addresses of every selected group, in the page's order |
| MassEmail.RecipientsMembers | app/admin/email/page.tsx:271-283 | the recipients are distinct, and an address is a recipient iff a selected group holds it |
| MassEmail.RosterSkipsMissingEmail | app/admin/email/page.tsx:280 | an enrollment without an email adds nothing |
| MassEmail.ToggleGroup | app/admin/email/page.tsx:287-293 | the group flips in or out of the selection; the other groups and the lack of duplicates are kept |
| MassEmail.RecipientsRoundTrip | app/admin/email/page.tsx:313 | the server splits the joined field back into the page's list of addresses |
| MassEmail.SendReportedAsWritten | app/admin/email/page.tsx:298-308 | the page treats every answer as done, whatever it says |
| MassEmail.FailedSendReportedAsSent | app/actions/send-email.ts:34-37 | a send Mailgun did not queue fails, yet the page reports it as sent |
| MassEmail.SendSucceeded | app/admin/email/page.tsx:298-301 | a send is done only when an answer came back |
| MassEmail.SendSucceededIffQueued | app/actions/send-email.ts:30-37 | with the corrected check a send is done iff Mailgun queued it, and never without an answer |
| MassEmail.EmailForm.constructor | app/admin/email/page.tsx:198-199 | the form starts with no groups, no subject and no content |
| MassEmail.EmailForm.Toggle | app/admin/email/page.tsx:288-292 | the groups become the toggled selection; subject and content are kept |
| MassEmail.EmailForm.Send | app/admin/email/page.tsx:320-331 | the recipients are the memo's addresses for the ticked groups; none gives an error and nothing is sent; otherwise the content, subject and joined recipients are sent, and the form is cleared whenever the server action answered, a refused send included |
| MassEmail.EmailForm.Clear | app/admin/email/page.tsx:333-337 | groups, subject and content are emptied |
| SignUp.SignUpCheck | app/join/page.tsx:57-71 | the first failing check in the handler's order; none iff the email is valid, the password has 8 characters and matches the confirmation |
| SignUp.Message | app/join/page.tsx:59-69 | each check's error text |
| SignUp.SignUpForm.constructor | app/join/page.tsx:18-29 | every field empty, no errors, not loading |
| SignUp.SignUpForm.EditEmail | app/join/page.tsx:151-154 | the email changes and its error clears; the rest of the form is kept |
| SignUp.SignUpForm.EditPassword | app/join/page.tsx:249-252 | the password changes and the password error clears; the rest is kept |
| SignUp.SignUpForm.EditConfirmation | app/join/page.tsx:267-270 | the confirmation changes and the password error clears; the rest is kept |
| SignUp.SignUpForm.EditPhone | app/join/page.tsx:170-183 | the phone becomes the formatted input, at most 12 characters; the rest is kept |
| SignUp.SignUpForm.HandleSignUp | app/join/page.tsx:57-100 | a failing check sets its error and posts nothing; otherwise the form is posted, the login page follows iff a user came back, and loading stays on iff no user came back |
| Phone.Kept | app/join/page.tsx:173-175 | the kept characters are all ones `Number` reads as an integer, no more than the input |
| Phone.Dashed | app/join/page.tsx:176-178 | one dash is added once there are three characters and another once there are six |
| Phone.PhoneFormat | app/join/page.tsx:170-182 | the formatted number has at most 12 characters |
| Phone.DashedPush | app/components/PhoneInput.tsx:29-31 | one turn of the loop, pushing a character and a dash at length 3 or 7, extends the dashed form by that character |
| Phone.FormatPhone | app/components/PhoneInput.tsx:24-35 | the loop and the cut to 12 characters produce the formatted number |
| Phone.PhoneInputChange | app/components/PhoneInput.tsx:19-22 | a shorter value (a deletion) is taken as typed; anything else is reformatted |
| Phone.KeptDashed | app/components/PhoneInput.tsx:26-31 | dropping the dashes gives back the kept characters |
| Phone.TakeDashed | app/components/PhoneInput.tsx:35 | cutting to 12 characters is dashing the first ten kept characters |
| Phone.PhoneFormatIdempotent | app/components/PhoneInput.tsx:24-35 | formatting a formatted number changes nothing |
| Phone.PhoneFormatShape | app/join/page.tsx:176-182 | dashes at positions 3 and 7 when the number reaches them; every other character is one the loop keeps |
| Phone.TenDigits | app/components/PhoneInput.tsx:26-35 | ten digits become `xxx-xxx-xxxx` |
| Phone.SpaceIsKept | app/components/PhoneInput.tsx:27 | a space is kept as if it were a digit |
| Login.ErrorText | app/login/page.tsx:47-54 | invalid credentials get the fixed text; other errors show their own message |
| Login.LoginForm.constructor | app/login/page.tsx:19-23 | every field and error starts empty |
| Login.LoginForm.EditEmail | app/login/page.tsx:82-86 | the email changes, and the email error and the general error clear; the password side is kept |
| Login.LoginForm.EditPassword | app/login/page.tsx:104-107 | the password changes, and the password error and the general error clear; the email side is kept |
| Login.LoginForm.HandleLogin | app/login/page.tsx:28-64 | an invalid email or a short password sets only its own error and does not sign in; otherwise a sign-in error sets the general error and no error logs in |
| Notifications.WithId | app/providers/Notifications.tsx:48-50 | a notification with the placeholder id gets the fresh id, any other keeps its id; title, expiry and status are kept |
| Notifications.WithoutId | app/providers/Notifications.tsx:56-61 | no notification with the id remains, and the list does not grow |
| Notifications.WithoutIdInOrder | app/providers/Notifications.tsx:58-59 | exactly the entries with another id are kept, in their order, and the list shrinks by the number of entries with the id |
| Notifications.WithoutAbsentId | app/providers/Notifications.tsx:57-59 | removing an id no notification has changes nothing |
| Notifications.WithoutIdAppend | app/providers/Notifications.tsx:58-59 | removal distributes over joining two lists |
| Notifications.AddThenRemove | app/providers/Notifications.tsx:47-61 | adding a notification with an unused id and removing that id restores the list |
| Notifications.Generate | app/providers/Notifications.tsx:35-42 | missing arguments give the default notification; given fields are kept and missing ones take the defaults |
| Notifications.NotificationsProvider.constructor | app/providers/Notifications.tsx:45 | the list starts empty |
| Notifications.NotificationsProvider.AddNotification | app/providers/Notifications.tsx:47-54 | the notification is appended, with the fresh id in place of the placeholder |
| Notifications.NotificationsProvider.RemoveNotification | app/providers/Notifications.tsx:56-61 | the notifications with that id are removed; exactly the others remain, in their order |
| Navbar.IsActiveMeaning | app/components/Navbar.tsx:10-11 | no path is never active; `/` is active only on `/`; any other link is active iff the path starts with it |
| Navbar.LoginxMatchesLogin | app/components/Navbar.tsx:5-11 | the prefix test marks `/login` active on `/loginx` and `/login/reset`, but not on `/log` |

## Left out

- The regular single-slot booking request is not modelled. It posts `slot`, `court`, `players` and `date` and returns the server's answer, and the page then clears the form even when the answer is not ok.
- The Reserve page's effects are not modelled: the admin default to club mode, the personal pre-select of the user, the league auto-select and the league name pre-fill. The form's constructor stands for their combined result.
- The backend that `apiFetch` calls, at the address in `NEXT_PUBLIC_API_URL`, is not part of this model. Accounts.ViewQuery is the request the accounts page sends; what the backend lists for `status=ALL` is not modelled. The Next members route (Accounts.ProxyQuery) is on the path only of the member list's relative `fetch`.
- React's scheduling of effects, memos and queries, and the time between a request and its answer, are not modelled. Every answer is a parameter.
- Time zones and locales: the current Eastern date and hour are inputs, and `toLocaleDateString` labels are shown as the date they name.
- Dates before year 0 or after 9999 are not modelled; ISO strings are four-digit years.
- `localeCompare` is modelled as code-unit order on first names; JavaScript's `sort` is taken to be stable, which it is since ES2019.
- String lengths are counted in characters, not UTF-16 code units, and there is no Unicode case mapping beyond ASCII.
- Text.JsNumber: only digit strings and whitespace are read; signs, decimals, hexadecimal and exponents are not modelled.
- The email regular expression is not modelled; whether an email matches it is an input.
- `reservationsByCourt` is a list of court entries rather than a JavaScript object; key order and duplicate keys do not arise.
- The browser's `maxLength={12}` truncation of the phone field is not modelled; the formatter's own cut to 12 characters is.
- Percent-encoding of query parameters is not modelled; the round trip is proved for plain values (digits and ISO dates).
- Time-slot labels are modelled for indices 1 to 9, the ones the club defines.
- Notifications.NotificationsProvider.AddNotification: the stale closure over the list is not modelled, and each call sees the latest list. The caller's notification object is not mutated in place; the stored copy is returned instead.
- Reserve.SubmitEvents: the request body's `league_id` is present for leagues and absent for clubs; an explicit `undefined` spread is not distinguished. The request that throws is included in `sent`, since it may have reached the server.
- Reserve.ReserveForm.SetRepeatWeeks: a typed value that `Number` reads as NaN or Infinity is not modelled; a number field hands over "" (read as 0) for text that is not a number.
- The recipient count label on the email page and trivial field setters (names, address, gender, rating, subject) are not modelled.
- Reservations.SlotsDisplay and Reservations.CourtsDisplay carry no contract of their own; their lemmas state their meaning.
- Reserve.ShowLeagueForm and Reserve.BookingWindow, and the `IsDisabled` predicates of the forms, are their definitions; SubmitEnabledMeans states the Reserve page's.
- MemberLists.ClickPlayer requires a duplicate-free player list, which is what the picker builds. It is the intended add-or-remove toggle; the Reserve page as written never supplies those callbacks (see "## Findings" and MemberLists.ClickPlayerAsWritten).
- Supabase sessions, Mailgun, the API routes and the database are not modelled beyond the answers they give.

## Findings

| source | as written | input that shows it | evidently intended | confidence | as-written member | corrected member |
|---|---|---|---|---|---|---|
| app/member/calendar/page.tsx:25 | "previous" and "next" in the month view call `setMonth(getMonth() ∓ 1)` on the current date, which overflows into the month after when the day does not exist | on 31 January "next" shows 3 March (2 March in a leap year); on 31 March "previous" shows 3 March again | move to the previous or next calendar month | high (not executed) | Calendar.SetMonthAsWritten, Calendar.SetMonthSkipsFebruary, Calendar.Step, Calendar.CalendarPage.GoNext | Calendar.ShiftMonth, Calendar.MonthRoundTrip |
| app/admin/email/page.tsx:298-313 | the mutation awaits `sendMassEmail`, which answers `{ success: false }` rather than throwing, so `onSuccess` runs on every send | Mailgun rejects the message: the form is cleared and "Email sent successfully" is shown | clear the form and announce success only when the answer says success | high (not executed) | MassEmail.SendReportedAsWritten, MassEmail.FailedSendReportedAsSent, MassEmail.EmailForm.Send | MassEmail.SendSucceeded, MassEmail.SendSucceededIffQueued |
| app/member/reserve/page.tsx:510-513 | the page renders `PlayersMultiSelect` with `onSave`, but the component calls `addPlayer` and `removePlayer` (PlayersMultiSelect.tsx:10-17, 101-104), which are then undefined | click any member in the players picker: the call throws and the chosen players never change | clicking a member adds or removes that player | high (not executed) | MemberLists.ClickPlayerAsWritten, MemberLists.PickerClickLost | MemberLists.ClickPlayer, Seqs.SetToggleTwice |
| app/member/reserve/page.tsx:44 | `isAdmin` is destructured from `useProtectedRoute({ isAdmin: false })`, whose result has only `user`, `error` and `loading` (app/hooks/useProtectedRoute.ts:59-63) | an ADMIN member opens the Reserve page: no club-event switch, no club form, and every event would be typed LEAGUE | read the admin flag from the member's role | high (not executed) | Reserve.IsAdminAsWritten, Reserve.AdminFlagLost | Reserve.IsAdmin, Reserve.AdminBooksClub |
