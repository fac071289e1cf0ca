/**
 * The calendar's month view: a grid of whole Monday-to-Sunday weeks that
 * covers the current month, each day carrying an occupancy bar taken from
 * the availability list of the visible range.
 */
module MonthView {
  import opened Seqs
  import opened Dates
  import opened Types

  const Palette: seq<string> := ["bg-green-400", "bg-yellow-400", "bg-orange-400", "bg-red-500"]

  /** Occupancy band of a day: up to 9, 18 and 27 booked slots, or more. */
  function AvailabilityColor(bookedSlots: int): (c: string)
    ensures c in Palette
    ensures c == Palette[0] <==> bookedSlots <= 9
    ensures c == Palette[1] <==> 9 < bookedSlots <= 18
    ensures c == Palette[2] <==> 18 < bookedSlots <= 27
    ensures c == Palette[3] <==> 27 < bookedSlots
  {
    if bookedSlots <= 9 then "bg-green-400"
    else if bookedSlots <= 18 then "bg-yellow-400"
    else if bookedSlots <= 27 then "bg-orange-400"
    else "bg-red-500"
  }

  /** Position of a colour in the palette, from least to most occupied. */
  function ColorRank(c: string): (r: int)
    ensures c in Palette ==> 0 <= r < |Palette| && Palette[r] == c
  {
    if c == Palette[0] then 0
    else if c == Palette[1] then 1
    else if c == Palette[2] then 2
    else if c == Palette[3] then 3
    else -1
  }

  /** More booked slots never give a lighter colour. */
  lemma ColorMonotone(a: int, b: int)
    requires a <= b
    ensures ColorRank(AvailabilityColor(a)) <= ColorRank(AvailabilityColor(b))
  {
  }

  /**
   * `new Date(year, month, 1)`: the first of the current month, in the year
   * the constructor reads (1900 + y for a year y from 0 to 99).
   */
  function FirstOfMonth(d: Date): (r: Date)
    requires Valid(d)
    ensures r == Date(FullYear(d.year), d.month, 1)
  {
    MakeDateInYear(FullYear(d.year), d.month - 1, 1);
    NewDate(d.year, d.month - 1, 1)
  }

  /** `new Date(year, month + 1, 0)`: the last day of the month `FirstOfMonth` starts. */
  function LastOfMonth(d: Date): (r: Date)
    requires Valid(d)
    ensures r == Date(FullYear(d.year), d.month, DaysInMonth(FullYear(d.year), d.month))
  {
    NewDateLastOfMonth(d.year, d.month);
    NewDate(d.year, d.month, 0)
  }

  /** The Monday on or before the first of the month. */
  function GridStart(d: Date): (r: Date)
    requires Valid(d)
    ensures Valid(r)
  {
    WeekStart(FirstOfMonth(d))
  }

  /** The Sunday on or after the last of the month. */
  function GridEnd(d: Date): (r: Date)
    requires Valid(d)
    ensures Valid(r)
  {
    WeekEndOnOrAfter(LastOfMonth(d))
  }

  /**
   * The grid starts on a Monday at most six days before the first of the
   * month and ends on a Sunday at most six days after its last day.
   */
  lemma GridBounds(d: Date)
    requires Valid(d)
    ensures Weekday(GridStart(d)) == 1
    ensures DayNumber(FirstOfMonth(d)) - 6 <= DayNumber(GridStart(d)) <= DayNumber(FirstOfMonth(d))
    ensures Weekday(GridEnd(d)) == 0
    ensures DayNumber(LastOfMonth(d)) <= DayNumber(GridEnd(d)) <= DayNumber(LastOfMonth(d)) + 6
  {
    WeekStartIsMonday(FirstOfMonth(d));
    WeekEndIsSunday(LastOfMonth(d));
  }

  /** From a Monday through a later Sunday is a whole number of weeks. */
  lemma WholeWeeks(start: Date, end: Date) returns (n: nat)
    requires Valid(start) && Valid(end)
    requires Weekday(start) == 1 && Weekday(end) == 0
    requires DayNumber(start) <= DayNumber(end)
    ensures DayNumber(end) - DayNumber(start) + 1 == 7 * n
  {
    var a := (DayNumber(start) + 6) / 7;
    var b := (DayNumber(end) + 6) / 7;
    assert DayNumber(start) + 6 == 7 * a + 1;
    assert DayNumber(end) + 6 == 7 * b;
    n := b - a;
  }

  /**
   * The `while (cursor <= gridEnd)` loop: one cell per day from `start`
   * through `end`, the cursor advancing a day at a time.
   */
  method DayCells(start: Date, end: Date) returns (cells: seq<Date>)
    requires Valid(start) && Valid(end)
    ensures |cells| == if DayNumber(start) <= DayNumber(end) then DayNumber(end) - DayNumber(start) + 1 else 0
    ensures forall i :: 0 <= i < |cells| ==> cells[i] == AddDays(start, i)
  {
    cells := [];
    var cursor := start;
    while DayNumber(cursor) <= DayNumber(end)
      invariant cursor == AddDays(start, |cells|)
      invariant DayNumber(cursor) == DayNumber(start) + |cells|
      invariant |cells| <= if DayNumber(start) <= DayNumber(end) then DayNumber(end) - DayNumber(start) + 1 else 0
      invariant forall i :: 0 <= i < |cells| ==> cells[i] == AddDays(start, i)
      decreases DayNumber(end) - DayNumber(cursor) + 1
    {
      CursorStep(start, |cells|);
      cells := cells + [cursor];
      cursor := AddDays(cursor, 1);
    }
  }

  /** Advancing the cursor a day moves it to the next day number. */
  lemma CursorStep(start: Date, n: nat)
    requires Valid(start)
    ensures AddDays(AddDays(start, n), 1) == AddDays(start, n + 1)
    ensures DayNumber(AddDays(start, n + 1)) == DayNumber(start) + n + 1
  {
    AddDaysAdd(start, n, 1);
    AddDaysNumber(start, n + 1);
  }

  /** The `for (i = 0; i < cells.length; i += 7)` loop pushing `cells.slice(i, i + 7)`. */
  method ChunkWeeks(cells: seq<Date>) returns (rows: seq<seq<Date>>)
    ensures rows == Chunks(cells, 7)
  {
    rows := [];
    var i := 0;
    while i < |cells|
      invariant 0 <= i
      invariant rows + Chunks(cells[Min(i, |cells|)..], 7) == Chunks(cells, 7)
      decreases |cells| - i
    {
      var rest := cells[i..];
      var hi := Min(i + 7, |cells|);
      assert cells[i..hi] == if |rest| <= 7 then rest else rest[..7];
      if |rest| > 7 {
        assert rest[7..] == cells[i + 7..];
      } else {
        assert cells[hi..] == [];
      }
      rows := rows + [cells[i..hi]];
      i := i + 7;
    }
  }

  /**
   * The `weeks` memo: the month padded to whole weeks and cut into rows.
   * Every row is a Monday-to-Sunday week, the rows read in order give
   * consecutive days from the grid start to the grid end, and every day of
   * the month appears.
   */
  method Weeks(current: Date) returns (weeks: seq<seq<Date>>)
    requires Valid(current)
    ensures |weeks| > 0
    ensures forall w :: 0 <= w < |weeks| ==> |weeks[w]| == 7
    ensures forall w, j :: 0 <= w < |weeks| && 0 <= j < 7 ==>
              weeks[w][j] == AddDays(GridStart(current), 7 * w + j) &&
              Weekday(weeks[w][j]) == (j + 1) % 7
    ensures Flatten(weeks)[0] == GridStart(current)
    ensures Flatten(weeks)[|Flatten(weeks)| - 1] == GridEnd(current)
    ensures forall dd :: 1 <= dd <= DaysInMonth(FullYear(current.year), current.month) ==>
              Date(FullYear(current.year), current.month, dd) in Flatten(weeks)
  {
    var gridStart := GridStart(current);
    var gridEnd := GridEnd(current);
    GridBounds(current);
    DayNumberOrder(FirstOfMonth(current), LastOfMonth(current));
    var cells := DayCells(gridStart, gridEnd);
    weeks := ChunkWeeks(cells);
    ChunksShape(cells, 7);
    var n := WholeWeeks(gridStart, gridEnd);
    WeekRows(gridStart, cells, n);
    GridEnds(gridStart, gridEnd, cells);
    MonthInGrid(current, cells);
  }

  /** Consecutive days from a Monday, `7 * n` of them, cut into Monday-to-Sunday rows. */
  lemma WeekRows(start: Date, cells: seq<Date>, n: nat)
    requires Valid(start) && Weekday(start) == 1
    requires |cells| == 7 * n
    requires forall i :: 0 <= i < |cells| ==> cells[i] == AddDays(start, i)
    ensures |Chunks(cells, 7)| == n
    ensures forall w :: 0 <= w < n ==> |Chunks(cells, 7)[w]| == 7
    ensures forall w, j :: 0 <= w < n && 0 <= j < 7 ==>
              Chunks(cells, 7)[w][j] == AddDays(start, 7 * w + j) &&
              Weekday(Chunks(cells, 7)[w][j]) == (j + 1) % 7
  {
    var rows := Chunks(cells, 7);
    ChunksExact(cells, 7, n);
    forall w, j | 0 <= w < n && 0 <= j < 7
      ensures rows[w][j] == AddDays(start, 7 * w + j)
      ensures Weekday(rows[w][j]) == (j + 1) % 7
    {
      ChunkElement(cells, w, j);
      WeekColumn(start, w, j);
    }
  }

  /** The first cell is the grid start and the last is the grid end. */
  lemma GridEnds(start: Date, end: Date, cells: seq<Date>)
    requires Valid(start) && Valid(end) && DayNumber(start) <= DayNumber(end)
    requires |cells| == DayNumber(end) - DayNumber(start) + 1
    requires forall i :: 0 <= i < |cells| ==> cells[i] == AddDays(start, i)
    ensures cells[0] == start && cells[|cells| - 1] == end
  {
    AddDaysNumber(start, |cells| - 1);
    DayNumberOrder(cells[|cells| - 1], end);
  }

  /** Every day of the month lies between the grid's ends, so it is a cell. */
  lemma MonthInGrid(current: Date, cells: seq<Date>)
    requires Valid(current)
    requires DayNumber(GridStart(current)) <= DayNumber(GridEnd(current))
    requires |cells| == DayNumber(GridEnd(current)) - DayNumber(GridStart(current)) + 1
    requires forall i :: 0 <= i < |cells| ==> cells[i] == AddDays(GridStart(current), i)
    ensures forall dd :: 1 <= dd <= DaysInMonth(FullYear(current.year), current.month) ==>
              Date(FullYear(current.year), current.month, dd) in cells
  {
    var y := FullYear(current.year);
    var first := FirstOfMonth(current);
    var last := LastOfMonth(current);
    var gridStart := GridStart(current);
    GridBounds(current);
    forall dd | 1 <= dd <= DaysInMonth(y, current.month)
      ensures Date(y, current.month, dd) in cells
    {
      var day := Date(y, current.month, dd);
      FirstPlus(first, dd - 1);
      AddDaysNumber(first, dd - 1);
      DayNumberOrder(day, last);
      var i := DayNumber(day) - DayNumber(gridStart);
      AddDaysNumber(gridStart, i);
      DayNumberOrder(cells[i], day);
    }
  }

  /** Row `w`, column `j` of the chunked cells is cell `7 * w + j`. */
  lemma {:induction false} ChunkElement<T>(xs: seq<T>, w: nat, j: nat)
    requires w < |Chunks(xs, 7)| && j < |Chunks(xs, 7)[w]|
    ensures 7 * w + j < |xs| && Chunks(xs, 7)[w][j] == xs[7 * w + j]
    decreases w
  {
    if |xs| <= 7 {
      assert Chunks(xs, 7) == [xs];
    } else {
      var rows := Chunks(xs, 7);
      assert rows == [xs[..7]] + Chunks(xs[7..], 7);
      if w > 0 {
        ChunkElement(xs[7..], w - 1, j);
        assert rows[w] == Chunks(xs[7..], 7)[w - 1];
      }
    }
  }

  /** The entry the `forEach` assignment leaves for `key`: the last one with that date. */
  function LastFor(list: seq<DayAvailability>, key: string): (r: Option<DayAvailability>)
    ensures r.Some? ==> r.value in list && r.value.date == key
  {
    if |list| == 0 then None
    else if list[|list| - 1].date == key then Some(list[|list| - 1])
    else LastFor(list[..|list| - 1], key)
  }

  /** When `LastFor` finds an entry, it is the last one with that date. */
  lemma {:induction false} LastForIndex(list: seq<DayAvailability>, key: string) returns (i: int)
    requires LastFor(list, key).Some?
    ensures 0 <= i < |list| && list[i] == LastFor(list, key).value
    ensures forall j :: i < j < |list| ==> list[j].date != key
    decreases |list|
  {
    var n := |list| - 1;
    if list[n].date == key {
      i := n;
    } else {
      var init := list[..n];
      i := LastForIndex(init, key);
      assert list[i] == init[i];
    }
  }

  /** When `LastFor` finds nothing, no entry has that date. */
  lemma {:induction false} LastForNone(list: seq<DayAvailability>, key: string)
    requires LastFor(list, key).None?
    ensures forall j :: 0 <= j < |list| ==> list[j].date != key
    decreases |list|
  {
    if |list| > 0 {
      var n := |list| - 1;
      var init := list[..n];
      LastForNone(init, key);
      assert forall j :: 0 <= j < n ==> list[j] == init[j];
    }
  }

  /** The map holds, for every date of the list, the last entry with that date. */
  ghost predicate Indexes(m: map<string, DayAvailability>, list: seq<DayAvailability>) {
    forall key :: (key in m <==> LastFor(list, key).Some?) &&
                  (key in m ==> m[key] == LastFor(list, key).value)
  }

  /** The `availabilityMap` memo: `forEach` assigning `map[a.date] = a`. */
  method AvailabilityMap(list: seq<DayAvailability>) returns (m: map<string, DayAvailability>)
    ensures Indexes(m, list)
  {
    m := map[];
    var i := 0;
    while i < |list|
      invariant 0 <= i <= |list|
      invariant Indexes(m, list[..i])
    {
      assert list[..i + 1][..i] == list[..i];
      m := m[list[i].date := list[i]];
      i := i + 1;
    }
    assert list[..i] == list;
  }

  /** The bar under a day: a colour when the day has an entry with bookings, otherwise grey. */
  function Bar(m: map<string, DayAvailability>, iso: string): (bar: Option<string>)
    ensures bar.Some? <==> iso in m && m[iso].bookedSlots > 0
    ensures bar.Some? ==> bar.value == AvailabilityColor(m[iso].bookedSlots)
  {
    if iso in m && m[iso].bookedSlots > 0 then Some(AvailabilityColor(m[iso].bookedSlots)) else None
  }

  /**
   * A coloured bar is shown exactly when the list has an entry for the day
   * and the last such entry has bookings; for a repeated date the later
   * entry decides.
   */
  lemma BarFromList(m: map<string, DayAvailability>, list: seq<DayAvailability>, iso: string)
    requires Indexes(m, list)
    ensures Bar(m, iso).Some? <==>
              exists i :: 0 <= i < |list| && list[i].date == iso && list[i].bookedSlots > 0 &&
                          forall j :: i < j < |list| ==> list[j].date != iso
  {
    if LastFor(list, iso).Some? {
      var k := LastForIndex(list, iso);
      forall i | 0 <= i < |list| && list[i].date == iso &&
                 (forall j :: i < j < |list| ==> list[j].date != iso)
        ensures i == k
      {
        assert !(k < i) && !(i < k);
      }
    } else {
      LastForNone(list, iso);
    }
  }

  /** A day is dimmed when it falls outside the month being shown. */
  predicate InCurrentMonth(day: Date, current: Date) {
    day.month == current.month
  }
}
