/**
 * The calendar page: a day, week or month view of one current date, with
 * previous/next navigation, a "Today" button and a view switch. Picking a
 * day in the week or month view opens that day.
 */
module Calendar {
  import opened Seqs
  import opened Text
  import opened Dates
  import opened MonthView
  import opened WeekView

  datatype CalendarView = Day | Week | Month

  /**
   * `d.setMonth(d.getMonth() + k)` as the page writes it: the day of the
   * month is kept, and a day the target month does not have runs on into
   * the month after it.
   */
  function SetMonthAsWritten(d: Date, k: int): (r: Date)
    requires Valid(d)
    ensures Valid(r)
  {
    MakeDate(d.year, d.month - 1 + k, d.day)
  }

  /**
   * From January 31st "next month" lands on March 3rd, skipping February;
   * from March 31st "previous month" lands on March 3rd, staying in March.
   */
  lemma SetMonthSkipsFebruary()
    ensures SetMonthAsWritten(Date(2025, 1, 31), 1) == Date(2025, 3, 3)
    ensures SetMonthAsWritten(Date(2025, 3, 31), -1) == Date(2025, 3, 3)
    ensures SetMonthAsWritten(Date(2025, 3, 3), -1) == Date(2025, 2, 3)
  {
    var feb1 := Date(2025, 2, 1);
    var mar1 := Date(2025, 3, 1);
    assert MakeDate(2025, 1, 31) == AddDays(feb1, 30);
    FirstPlus(feb1, 27);
    AddDaysAdd(feb1, 27, 3);
    assert NextDay(Date(2025, 2, 28)) == mar1;
    assert AddDays(Date(2025, 2, 28), 3) == AddDays(mar1, 2);
    FirstPlus(mar1, 2);
    FirstPlus(feb1, 2);
  }

  /**
   * A month step that keeps the day when the target month has it and
   * otherwise stops at that month's last day.
   */
  function ShiftMonth(d: Date, k: int): (r: Date)
    requires Valid(d)
    ensures Valid(r)
    ensures 12 * r.year + r.month == 12 * d.year + d.month + k
    ensures r.day == Min(d.day, DaysInMonth(r.year, r.month))
  {
    var m0 := d.month - 1 + k;
    var y := d.year + m0 / 12;
    var m := m0 % 12 + 1;
    Date(y, m, Min(d.day, DaysInMonth(y, m)))
  }

  /** Where the target month has the day, the corrected step and the page's step agree. */
  lemma ShiftMonthAgrees(d: Date, k: int)
    requires Valid(d)
    requires d.day <= DaysInMonth(ShiftMonth(d, k).year, ShiftMonth(d, k).month)
    ensures ShiftMonth(d, k) == SetMonthAsWritten(d, k)
  {
    var m0 := d.month - 1 + k;
    FirstPlus(Date(d.year + m0 / 12, m0 % 12 + 1, 1), d.day - 1);
  }

  /**
   * The page's step is the clamped step followed by the days the target
   * month lacks: when the day exists nothing is added, otherwise the date
   * runs on past that month's last day.
   */
  lemma SetMonthOverflow(d: Date, k: int)
    requires Valid(d)
    ensures SetMonthAsWritten(d, k) == AddDays(ShiftMonth(d, k), d.day - ShiftMonth(d, k).day)
  {
    var s := ShiftMonth(d, k);
    var first := MonthFirst(d, k);
    ShiftMonthFromFirst(d, k);
    AddDaysAdd(first, s.day - 1, d.day - s.day);
  }

  /** The first day of the month `k` months from the date's month. */
  function MonthFirst(d: Date, k: int): (r: Date)
    requires Valid(d)
    ensures Valid(r) && r.day == 1
    ensures 12 * r.year + r.month == 12 * d.year + d.month + k
  {
    Date(d.year + (d.month - 1 + k) / 12, (d.month - 1 + k) % 12 + 1, 1)
  }

  /** The clamped step lands `day - 1` days after that month's first day, and so does `setMonth`. */
  lemma ShiftMonthFromFirst(d: Date, k: int)
    requires Valid(d)
    ensures AddDays(MonthFirst(d, k), ShiftMonth(d, k).day - 1) == ShiftMonth(d, k)
    ensures SetMonthAsWritten(d, k) == AddDays(MonthFirst(d, k), d.day - 1)
  {
    var first := MonthFirst(d, k);
    FirstPlus(first, ShiftMonth(d, k).day - 1);
  }

  /** One month forward then one back returns to the same month of the same year. */
  lemma MonthRoundTrip(d: Date)
    requires Valid(d)
    ensures ShiftMonth(ShiftMonth(d, 1), -1).year == d.year
    ensures ShiftMonth(ShiftMonth(d, 1), -1).month == d.month
  {
    var r := ShiftMonth(ShiftMonth(d, 1), -1);
    assert 12 * r.year + r.month == 12 * d.year + d.month;
  }

  /**
   * Where `goPrev` (`dir` = -1) and `goNext` (`dir` = 1) move the date in
   * each view; the month view calls `setMonth` on the month number.
   */
  function Step(d: Date, v: CalendarView, dir: int): (r: Date)
    requires Valid(d)
    ensures Valid(r)
    ensures v == Day ==> DayNumber(r) == DayNumber(d) + dir
    ensures v == Week ==> DayNumber(r) == DayNumber(d) + 7 * dir
    ensures v == Month ==> r == AddDays(ShiftMonth(d, dir), d.day - ShiftMonth(d, dir).day)
  {
    AddDaysNumber(d, dir);
    AddDaysNumber(d, 7 * dir);
    SetMonthOverflow(d, dir);
    match v
    case Day => AddDays(d, dir)
    case Week => AddDays(d, 7 * dir)
    case Month => SetMonthAsWritten(d, dir)
  }

  /**
   * Next then previous gives back the same date in the day and week views;
   * in the month view only when the next month has the date's day.
   */
  lemma NextThenPrev(d: Date, v: CalendarView)
    requires Valid(d)
    ensures v != Month ==> Step(Step(d, v, 1), v, -1) == d
    ensures v == Month && d.day <= DaysInMonth(ShiftMonth(d, 1).year, ShiftMonth(d, 1).month) ==>
              Step(Step(d, v, 1), v, -1) == d
  {
    var back := Step(Step(d, v, 1), v, -1);
    if v == Month {
      if d.day <= DaysInMonth(ShiftMonth(d, 1).year, ShiftMonth(d, 1).month) {
        MonthBackAndForth(d);
      }
    } else {
      DayNumberOrder(back, d);
    }
  }

  lemma MonthBackAndForth(d: Date)
    requires Valid(d)
    requires d.day <= DaysInMonth(ShiftMonth(d, 1).year, ShiftMonth(d, 1).month)
    ensures SetMonthAsWritten(SetMonthAsWritten(d, 1), -1) == d
  {
    ShiftMonthAgrees(d, 1);
    var next := ShiftMonth(d, 1);
    var back := ShiftMonth(next, -1);
    assert 12 * back.year + back.month == 12 * d.year + d.month;
    assert back.year == d.year && back.month == d.month;
    ShiftMonthAgrees(next, -1);
  }

  /**
   * The week label's two ends: the Monday on or before the date and the
   * Sunday six days later; they are the first and last columns of the week
   * view.
   */
  function WeekLabelRange(d: Date): (r: (Date, Date))
    requires Valid(d)
    ensures Valid(r.0) && Valid(r.1)
    ensures Weekday(r.0) == 1 && Weekday(r.1) == 0
    ensures DayNumber(r.1) == DayNumber(r.0) + 6
    ensures DayNumber(r.0) <= DayNumber(d) <= DayNumber(r.1)
    ensures r.0 == WeekDates(d)[0] && r.1 == WeekDates(d)[6]
  {
    var start := WeekStart(d);
    WeekStartIsMonday(d);
    WeekColumn(start, 0, 6);
    AddDaysNumber(start, 6);
    (start, AddDays(start, 6))
  }

  /** The page's own requests: one day's slots, the month grid's availability, or none. */
  datatype Request = SlotsOfDay(date: string) | Availability(start: string, end: string)

  /** The month view needs ISO strings for both grid ends, and the day view for the date. */
  predicate Renderable(d: Date) {
    Valid(d) && IsoYear(d) && IsoYear(GridStart(d)) && IsoYear(GridEnd(d))
  }

  /** Slots are fetched only in the day view, the availability range only in the month view. */
  function PageRequests(v: CalendarView, d: Date): (reqs: seq<Request>)
    requires Renderable(d)
    ensures |reqs| <= 1
    ensures v == Day <==> reqs == [SlotsOfDay(Iso(d))]
    ensures v == Month <==> reqs == [Availability(Iso(GridStart(d)), Iso(GridEnd(d)))]
    ensures v == Week <==> reqs == []
  {
    match v
    case Day => [SlotsOfDay(Iso(d))]
    case Week => []
    case Month => [Availability(Iso(GridStart(d)), Iso(GridEnd(d)))]
  }

  /**
   * `monthStart`/`monthEnd` bracket exactly the month grid: a day's ISO
   * string lies between them, in string order, iff the day is a cell of the
   * grid.
   */
  lemma RangeCoversGrid(d: Date, day: Date)
    requires Renderable(d) && Valid(day) && IsoYear(day)
    ensures (!LexLess(Iso(day), Iso(GridStart(d))) && !LexLess(Iso(GridEnd(d)), Iso(day))) <==>
            DayNumber(GridStart(d)) <= DayNumber(day) <= DayNumber(GridEnd(d))
  {
    IsoOrder(day, GridStart(d));
    IsoOrder(GridEnd(d), day);
    DayNumberOrder(day, GridStart(d));
    DayNumberOrder(GridEnd(d), day);
  }

  class CalendarPage {
    var view: CalendarView
    var current: Date

    ghost predicate Valid()
      reads this
    {
      Dates.Valid(current)
    }

    /** The page opens on today's date in the day view. */
    constructor(today: Date)
      requires Dates.Valid(today)
      ensures Valid()
      ensures view == Day && current == today
    {
      view := Day;
      current := today;
    }

    method GoPrev()
      requires Valid()
      modifies this
      ensures Valid()
      ensures view == old(view) && current == Step(old(current), old(view), -1)
    {
      var d := current;
      if view == Day { d := AddDays(d, -1); }
      if view == Week { d := AddDays(d, -7); }
      if view == Month { d := SetMonthAsWritten(d, -1); }
      current := d;
    }

    method GoNext()
      requires Valid()
      modifies this
      ensures Valid()
      ensures view == old(view) && current == Step(old(current), old(view), 1)
    {
      var d := current;
      if view == Day { d := AddDays(d, 1); }
      if view == Week { d := AddDays(d, 7); }
      if view == Month { d := SetMonthAsWritten(d, 1); }
      current := d;
    }

    /** The "Today" button; the clock's reading is passed in. */
    method GoToday(today: Date)
      requires Dates.Valid(today)
      modifies this
      ensures Valid()
      ensures view == old(view) && current == today
    {
      current := today;
    }

    method SetView(v: CalendarView)
      modifies this
      ensures view == v && current == old(current)
    {
      view := v;
    }

    /** Picking a day in the week or month view opens it in the day view. */
    method SelectDate(d: Date)
      requires Dates.Valid(d)
      modifies this
      ensures Valid()
      ensures view == Day && current == d
    {
      current := d;
      view := Day;
    }
  }
}
