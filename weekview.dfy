/**
 * The calendar's week view: seven day columns from Monday to Sunday, nine
 * slot rows, and in each cell one dot per court that is filled when the
 * court is reserved in that slot.
 */
module WeekView {
  import opened Seqs
  import opened Dates
  import opened Types
  import opened SlotGrid
  import opened BookedCells

  /** Row labels: the start time of each of the nine slots. */
  const SlotStarts: seq<string> := [
    "8:30 AM", "10:00 AM", "11:30 AM", "1:00 PM", "2:30 PM",
    "4:00 PM", "5:30 PM", "7:00 PM", "8:30 PM"]

  const DayNames: seq<string> := ["Mon", "Tue", "Wed", "Thu", "Fri", "Sat", "Sun"]

  /** `weekDates`: the Monday on or before `current`, then the six days after it. */
  function WeekDates(current: Date): (days: seq<Date>)
    requires Valid(current)
    ensures |days| == 7
    ensures forall i :: 0 <= i < 7 ==> Valid(days[i])
  {
    var start := WeekStart(current);
    seq(7, i requires 0 <= i < 7 => AddDays(start, i))
  }

  /**
   * The week is seven consecutive days; the first is a Monday, column `i`
   * falls on the weekday `DayNames[i]` names, and `current` is one of them.
   */
  lemma WeekDatesSpan(current: Date)
    requires Valid(current)
    ensures Weekday(WeekDates(current)[0]) == 1
    ensures forall i :: 0 <= i < 6 ==>
              DayNumber(WeekDates(current)[i + 1]) == DayNumber(WeekDates(current)[i]) + 1
    ensures forall i :: 0 <= i < 7 ==> Weekday(WeekDates(current)[i]) == (i + 1) % 7
    ensures current in WeekDates(current)
  {
    var start := WeekStart(current);
    var days := WeekDates(current);
    WeekStartIsMonday(current);
    forall i | 0 <= i < 7
      ensures DayNumber(days[i]) == DayNumber(start) + i
      ensures Weekday(days[i]) == (i + 1) % 7
    {
      AddDaysNumber(start, i);
      WeekColumn(start, 0, i);
    }
    var k := DayNumber(current) - DayNumber(start);
    DayNumberOrder(days[k], current);
  }

  /** `toEasternISO` of each day of the week. */
  function WeekIsos(current: Date): (isos: seq<string>)
    requires Valid(current)
    requires forall i :: 0 <= i < 7 ==> IsoYear(WeekDates(current)[i])
    ensures |isos| == 7
  {
    seq(7, i requires 0 <= i < 7 => Iso(WeekDates(current)[i]))
  }

  /** The seven ISO strings of a week are distinct. */
  lemma WeekIsosDistinct(current: Date)
    requires Valid(current)
    requires forall i :: 0 <= i < 7 ==> IsoYear(WeekDates(current)[i])
    ensures forall i, j :: 0 <= i < j < 7 ==> WeekIsos(current)[i] != WeekIsos(current)[j]
  {
    var days := WeekDates(current);
    forall i, j | 0 <= i < j < 7
      ensures WeekIsos(current)[i] != WeekIsos(current)[j]
    {
      AddDaysNumber(WeekStart(current), i);
      AddDaysNumber(WeekStart(current), j);
      DayNumberOrder(days[i], days[j]);
      IsoInjective(days[i], days[j]);
    }
  }

  /** `results[i].data?.slots || []`: a day whose data is missing has no slots. */
  function SlotsOrEmpty(data: Option<seq<Slot>>): (slots: seq<Slot>)
    ensures data.None? ==> slots == []
    ensures data.Some? ==> slots == data.value
  {
    if data.Some? then data.value else []
  }

  /**
   * The `slotsByDate` loop: every day of the week gets an entry, and a day
   * that appears only once (all of them, in a real week) gets its own
   * query's slots, or none when its data is missing.
   */
  method SlotsByDate(isos: seq<string>, results: seq<Option<seq<Slot>>>) returns (m: map<string, seq<Slot>>)
    requires |results| == |isos|
    ensures forall k :: k in m <==> k in isos
    ensures forall i :: 0 <= i < |isos| && (forall j :: i < j < |isos| ==> isos[j] != isos[i]) ==>
              m[isos[i]] == SlotsOrEmpty(results[i])
  {
    m := map[];
    var n := 0;
    while n < |isos|
      invariant 0 <= n <= |isos|
      invariant forall k :: k in m <==> k in isos[..n]
      invariant LastWins(isos, results, m, n)
    {
      assert isos[..n + 1] == isos[..n] + [isos[n]];
      LastWinsStep(isos, results, m, n);
      m := m[isos[n] := SlotsOrEmpty(results[n])];
      n := n + 1;
    }
    assert isos[..n] == isos;
  }

  /** No query among the first `n` after the `i`-th is for the same date. */
  ghost predicate NotRequeried(isos: seq<string>, i: int, n: int)
    requires 0 <= i < n <= |isos|
  {
    forall j :: i < j < n ==> isos[j] != isos[i]
  }

  /** Each date among the first `n` that is not queried again maps to its own result. */
  ghost predicate LastWins(isos: seq<string>, results: seq<Option<seq<Slot>>>, m: map<string, seq<Slot>>, n: int)
    requires |results| == |isos| && 0 <= n <= |isos|
  {
    forall i :: 0 <= i < n && NotRequeried(isos, i, n) ==>
      isos[i] in m && m[isos[i]] == SlotsOrEmpty(results[i])
  }

  /** Writing the `n`-th result over the map keeps the later query winning. */
  lemma LastWinsStep(isos: seq<string>, results: seq<Option<seq<Slot>>>, m: map<string, seq<Slot>>, n: int)
    requires |results| == |isos| && 0 <= n < |isos|
    requires LastWins(isos, results, m, n)
    ensures LastWins(isos, results, m[isos[n] := SlotsOrEmpty(results[n])], n + 1)
  {
    var m' := m[isos[n] := SlotsOrEmpty(results[n])];
    forall i | 0 <= i < n + 1 && NotRequeried(isos, i, n + 1)
      ensures isos[i] in m' && m'[isos[i]] == SlotsOrEmpty(results[i])
    {
      if i < n {
        assert isos[n] != isos[i];
        assert NotRequeried(isos, i, n);
      }
    }
  }

  /** In a real week each day reads the slots fetched for it. */
  lemma WeekSlots(current: Date, results: seq<Option<seq<Slot>>>, m: map<string, seq<Slot>>, i: int)
    requires Valid(current)
    requires forall d :: 0 <= d < 7 ==> IsoYear(WeekDates(current)[d])
    requires |results| == 7 && 0 <= i < 7
    requires forall k :: k in m <==> k in WeekIsos(current)
    requires forall d :: 0 <= d < 7 && (forall j :: d < j < 7 ==> WeekIsos(current)[j] != WeekIsos(current)[d]) ==>
               m[WeekIsos(current)[d]] == SlotsOrEmpty(results[d])
    ensures m[WeekIsos(current)[i]] == SlotsOrEmpty(results[i])
  {
    WeekIsosDistinct(current);
  }

  /** `slot ? court in slot.reservationsByCourt : false`, the slot taken by position. */
  predicate DotBooked(slots: seq<Slot>, slotIdx: int, court: int) {
    0 <= slotIdx < |slots| && HasCourt(slots[slotIdx], court)
  }

  /** The four dots of one cell, courts 1 to 4. */
  function Dots(slots: seq<Slot>, slotIdx: int): (dots: seq<bool>)
    ensures |dots| == |Courts|
    ensures forall c :: 0 <= c < |dots| ==> (dots[c] <==> DotBooked(slots, slotIdx, Courts[c]))
  {
    seq(|Courts|, c requires 0 <= c < |Courts| => DotBooked(slots, slotIdx, Courts[c]))
  }

  /**
   * When the day's slots come in order (`slots[j]` has index `j + 1`), the
   * week view's dot for row `slotIdx` and a court is filled exactly when the
   * booking form counts that cell as booked.
   */
  lemma DotMatchesBookedCells(slots: seq<Slot>, slotIdx: nat, court: nat)
    requires forall j :: 0 <= j < |slots| ==> slots[j].slotIndex == j + 1
    requires forall j, e :: 0 <= j < |slots| && 0 <= e < |slots[j].reservationsByCourt| ==>
               slots[j].reservationsByCourt[e].0 >= 0
    ensures DotBooked(slots, slotIdx, court) <==> CellKey(slotIdx + 1, court) in BookedUpTo(slots, |slots|)
  {
    BookedCellsDecode(slots, slotIdx + 1, court);
  }
}
