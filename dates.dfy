/**
 * Calendar dates as the browser's `Date` sees them at local midnight: a
 * proleptic Gregorian year, month (1-12) and day, the `new Date(y, m, d)`
 * constructor (its reading of years 0-99 as 1900-1999 and its carrying of
 * out-of-range months and days), `getDay()`, and the
 * `YYYY-MM-DD` strings `toEasternISO` produces.
 */
module Dates {
  import opened Seqs
  import opened Text

  datatype Date = Date(year: int, month: int, day: int)

  predicate IsLeap(y: int) {
    y % 4 == 0 && (y % 100 != 0 || y % 400 == 0)
  }

  function DaysInMonth(y: int, m: int): (n: int)
    requires 1 <= m <= 12
    ensures 28 <= n <= 31
    ensures n == 29 <==> m == 2 && IsLeap(y)
  {
    if m == 2 then (if IsLeap(y) then 29 else 28)
    else if m == 4 || m == 6 || m == 9 || m == 11 then 30
    else 31
  }

  predicate Valid(d: Date) {
    1 <= d.month <= 12 && 1 <= d.day <= DaysInMonth(d.year, d.month)
  }

  /** The calendar date after `d`. */
  function NextDay(d: Date): (r: Date)
    requires Valid(d)
    ensures Valid(r)
  {
    if d.day < DaysInMonth(d.year, d.month) then Date(d.year, d.month, d.day + 1)
    else if d.month < 12 then Date(d.year, d.month + 1, 1)
    else Date(d.year + 1, 1, 1)
  }

  /** The calendar date before `d`. */
  function PrevDay(d: Date): (r: Date)
    requires Valid(d)
    ensures Valid(r)
  {
    if d.day > 1 then Date(d.year, d.month, d.day - 1)
    else if d.month > 1 then Date(d.year, d.month - 1, DaysInMonth(d.year, d.month - 1))
    else Date(d.year - 1, 12, 31)
  }

  lemma PrevNext(d: Date)
    requires Valid(d)
    ensures PrevDay(NextDay(d)) == d
    ensures NextDay(PrevDay(d)) == d
  {
  }

  /** `date.setDate(date.getDate() + k)`: `k` days later (earlier when `k < 0`). */
  function AddDays(d: Date, k: int): (r: Date)
    requires Valid(d)
    ensures Valid(r)
    decreases if k < 0 then -k else k
  {
    if k == 0 then d
    else if k > 0 then AddDays(NextDay(d), k - 1)
    else AddDays(PrevDay(d), k + 1)
  }

  /** Leap years in [0, y). */
  function Leaps(y: int): int {
    (y + 3) / 4 - (y + 99) / 100 + (y + 399) / 400
  }

  function DaysBeforeYear(y: int): int {
    365 * y + Leaps(y)
  }

  function DaysBeforeMonth(y: int, m: int): int
    requires 1 <= m <= 12
  {
    var base := [0, 31, 59, 90, 120, 151, 181, 212, 243, 273, 304, 334][m - 1];
    if m > 2 && IsLeap(y) then base + 1 else base
  }

  /** Days since 0000-01-01. */
  function DayNumber(d: Date): int
    requires Valid(d)
  {
    DaysBeforeYear(d.year) + DaysBeforeMonth(d.year, d.month) + d.day - 1
  }

  lemma Step4(y: int)
    ensures (y + 4) / 4 - (y + 3) / 4 == if y % 4 == 0 then 1 else 0
  {
    var q := (y + 3) / 4;
    assert y + 3 == 4 * q + (y + 3) % 4;
  }

  lemma Step100(y: int)
    ensures (y + 100) / 100 - (y + 99) / 100 == if y % 100 == 0 then 1 else 0
  {
    var q := (y + 99) / 100;
    assert y + 99 == 100 * q + (y + 99) % 100;
  }

  lemma Step400(y: int)
    ensures (y + 400) / 400 - (y + 399) / 400 == if y % 400 == 0 then 1 else 0
  {
    var q := (y + 399) / 400;
    assert y + 399 == 400 * q + (y + 399) % 400;
  }

  lemma Mod100Mod4(y: int)
    requires y % 100 == 0
    ensures y % 4 == 0
  {
    var q := y / 100;
    assert y == 4 * (25 * q);
  }

  lemma Mod400Mod100(y: int)
    requires y % 400 == 0
    ensures y % 100 == 0
  {
    var q := y / 400;
    assert y == 100 * (4 * q);
  }

  lemma LeapsStep(y: int)
    ensures Leaps(y + 1) == Leaps(y) + (if IsLeap(y) then 1 else 0)
  {
    assert Leaps(y + 1) == (y + 4) / 4 - (y + 100) / 100 + (y + 400) / 400;
    Step4(y);
    Step100(y);
    Step400(y);
    if y % 100 == 0 {
      Mod100Mod4(y);
    }
    if y % 400 == 0 {
      Mod400Mod100(y);
    }
  }

  function YearLength(y: int): int {
    if IsLeap(y) then 366 else 365
  }

  lemma YearStep(y: int)
    ensures DaysBeforeYear(y + 1) == DaysBeforeYear(y) + YearLength(y)
  {
    LeapsStep(y);
  }

  lemma MonthStep(y: int, m: int)
    requires 1 <= m <= 12
    ensures m < 12 ==> DaysBeforeMonth(y, m + 1) == DaysBeforeMonth(y, m) + DaysInMonth(y, m)
    ensures m == 12 ==> DaysBeforeMonth(y, m) + DaysInMonth(y, m) == YearLength(y)
  {
  }

  lemma NextDayNumber(d: Date)
    requires Valid(d)
    ensures DayNumber(NextDay(d)) == DayNumber(d) + 1
  {
    MonthStep(d.year, d.month);
    YearStep(d.year);
  }

  lemma {:induction false} AddDaysNumber(d: Date, k: int)
    requires Valid(d)
    ensures DayNumber(AddDays(d, k)) == DayNumber(d) + k
    decreases if k < 0 then -k else k
  {
    if k > 0 {
      NextDayNumber(d);
      AddDaysNumber(NextDay(d), k - 1);
    } else if k < 0 {
      PrevNext(d);
      NextDayNumber(PrevDay(d));
      AddDaysNumber(PrevDay(d), k + 1);
    }
  }

  /** Chronological order of calendar dates. */
  predicate Before(a: Date, b: Date) {
    a.year < b.year ||
    (a.year == b.year && (a.month < b.month || (a.month == b.month && a.day < b.day)))
  }

  lemma {:induction false} MonthsBefore(y: int, m1: int, m2: int)
    requires 1 <= m1 < m2 <= 12
    ensures DaysBeforeMonth(y, m1) + DaysInMonth(y, m1) <= DaysBeforeMonth(y, m2)
    decreases m2 - m1
  {
    MonthStep(y, m1);
    if m1 + 1 < m2 {
      MonthsBefore(y, m1 + 1, m2);
    }
  }

  lemma {:induction false} YearsBefore(y1: int, y2: int)
    requires y1 < y2
    ensures DaysBeforeYear(y1) + YearLength(y1) <= DaysBeforeYear(y2)
    decreases y2 - y1
  {
    YearStep(y1);
    if y1 + 1 < y2 {
      YearsBefore(y1 + 1, y2);
    }
  }

  lemma WithinYear(d: Date)
    requires Valid(d)
    ensures DaysBeforeYear(d.year) <= DayNumber(d) < DaysBeforeYear(d.year) + YearLength(d.year)
  {
    if d.month < 12 {
      MonthsBefore(d.year, d.month, 12);
    }
    MonthStep(d.year, 12);
  }

  lemma BeforeNumber(a: Date, b: Date)
    requires Valid(a) && Valid(b)
    requires Before(a, b)
    ensures DayNumber(a) < DayNumber(b)
  {
    if a.year < b.year {
      WithinYear(a);
      WithinYear(b);
      YearsBefore(a.year, b.year);
    } else if a.month < b.month {
      MonthsBefore(a.year, a.month, b.month);
    }
  }

  /** Day numbers order dates exactly as the calendar does. */
  lemma DayNumberOrder(a: Date, b: Date)
    requires Valid(a) && Valid(b)
    ensures Before(a, b) <==> DayNumber(a) < DayNumber(b)
    ensures a == b <==> DayNumber(a) == DayNumber(b)
  {
    if Before(a, b) {
      BeforeNumber(a, b);
    } else if Before(b, a) {
      BeforeNumber(b, a);
    }
  }

  lemma AddDaysAdd(d: Date, i: int, j: int)
    requires Valid(d)
    ensures AddDays(AddDays(d, i), j) == AddDays(d, i + j)
  {
    AddDaysNumber(d, i);
    AddDaysNumber(AddDays(d, i), j);
    AddDaysNumber(d, i + j);
    DayNumberOrder(AddDays(AddDays(d, i), j), AddDays(d, i + j));
  }

  /** Moving forward by less than a year changes the year by at most one. */
  lemma AddDaysYearBound(d: Date, k: int)
    requires Valid(d) && 0 <= k <= 365
    ensures d.year <= AddDays(d, k).year <= d.year + 1
  {
    var r := AddDays(d, k);
    AddDaysNumber(d, k);
    var e := Date(d.year + 1, 12, 31);
    WithinYear(d);
    YearStep(d.year);
    YearStep(d.year + 1);
    MonthStep(d.year + 1, 12);
    assert DayNumber(e) == DaysBeforeYear(d.year + 2) - 1;
    DayNumberOrder(e, r);
    DayNumberOrder(r, d);
  }

  /** `getDay()`: 0 for Sunday through 6 for Saturday (2000-01-01 was a Saturday). */
  function Weekday(d: Date): (w: int)
    requires Valid(d)
    ensures 0 <= w < 7
  {
    (DayNumber(d) + 6) % 7
  }

  lemma WeekdayAnchor()
    ensures Weekday(Date(2000, 1, 1)) == 6
  {
  }

  lemma Mod7Add(a: int, k: int)
    ensures (a + k) % 7 == (a % 7 + k) % 7
  {
    var q := a / 7;
    assert a == 7 * q + a % 7;
    assert a + k == (a % 7 + k) + 7 * q;
  }

  lemma WeekdayAdd(d: Date, k: int)
    requires Valid(d)
    ensures Weekday(AddDays(d, k)) == (Weekday(d) + k) % 7
  {
    AddDaysNumber(d, k);
    Mod7Add(DayNumber(d) + 6, k);
  }

  /**
   * The calendar arithmetic behind the `Date` constructor and `setMonth`,
   * with a zero-based month: months outside 0-11 carry into the year and
   * days outside the month carry into neighbouring months.
   */
  function MakeDate(y: int, m0: int, dd: int): (r: Date)
    ensures Valid(r)
  {
    AddDays(Date(y + m0 / 12, m0 % 12 + 1, 1), dd - 1)
  }

  /**
   * The year the constructor `new Date(y, m, d)` builds in: a year from 0 to
   * 99 is read as 1900 + y. `setMonth` and `setDate` keep the year as it is.
   */
  function FullYear(y: int): int {
    if 0 <= y <= 99 then 1900 + y else y
  }

  /** `new Date(y, m0, dd)`: the year read as `FullYear`, then `MakeDate`'s carrying. */
  function NewDate(y: int, m0: int, dd: int): (r: Date)
    ensures Valid(r)
  {
    MakeDate(FullYear(y), m0, dd)
  }

  /** `new Date(y, m - 1, d)` of a date's own fields. */
  function Reread(d: Date): (r: Date)
    requires Valid(d)
    ensures Valid(r)
  {
    NewDate(d.year, d.month - 1, d.day)
  }

  /** `new Date(y, m - 1, d + k)` of a date's own fields is `k` days after the date read back. */
  lemma NewDateShift(d: Date, k: int)
    requires Valid(d)
    ensures NewDate(d.year, d.month - 1, d.day + k) == AddDays(Reread(d), k)
  {
    var y := FullYear(d.year);
    var first := Date(y, d.month, 1);
    var j := d.day - 1;
    assert Reread(d) == MakeDate(y, d.month - 1, d.day);
    MakeDateInYear(y, d.month - 1, d.day);
    assert Reread(d) == AddDays(first, j);
    MakeDateInYear(y, d.month - 1, d.day + k);
    assert NewDate(d.year, d.month - 1, d.day + k) == AddDays(first, j + k);
    AddDaysAdd(first, j, k);
  }

  /**
   * Rebuilding a date from its fields gives the date back outside the years
   * 0 to 99; inside them it lands in 1900 + y, on the same month and day
   * where that year has the day (all but 29 February of year 0).
   */
  lemma RereadYear(d: Date)
    requires Valid(d)
    ensures (d.year < 0 || 99 < d.year) ==> Reread(d) == d
    ensures 0 <= d.year <= 99 && Valid(Date(1900 + d.year, d.month, d.day)) ==>
            Reread(d) == Date(1900 + d.year, d.month, d.day)
    ensures 0 <= d.year <= 99 && !Valid(Date(1900 + d.year, d.month, d.day)) ==>
            d == Date(0, 2, 29) && Reread(d) == Date(1900, 3, 1)
  {
    var c := Date(FullYear(d.year), d.month, d.day);
    if Valid(c) {
      MakeDateShift(c, 0);
      assert AddDays(c, 0) == c;
    } else {
      assert d.month == 2 && d.day == 29 && IsLeap(d.year) && !IsLeap(1900 + d.year);
      assert d.year == 0;
      LeapDayOfYearZero();
    }
  }

  /** 29 February of year 0 is rebuilt as 1 March 1900, 1900 having no leap day. */
  lemma LeapDayOfYearZero()
    ensures Reread(Date(0, 2, 29)) == Date(1900, 3, 1)
  {
    var feb1 := Date(1900, 2, 1);
    MakeDateInYear(1900, 1, 29);
    FirstPlus(feb1, 27);
    AddDaysAdd(feb1, 27, 1);
    assert AddDays(Date(1900, 2, 28), 1) == Date(1900, 3, 1);
  }

  /** The constructor reads a two-digit year in the 1900s; from 100 on it keeps the year. */
  lemma NewDateCentury()
    ensures NewDate(50, 2, 3) == Date(1950, 3, 3)
    ensures NewDate(150, 2, 3) == Date(150, 3, 3)
  {
    MakeDateInYear(1950, 2, 3);
    FirstPlus(Date(1950, 3, 1), 2);
    MakeDateInYear(150, 2, 3);
    FirstPlus(Date(150, 3, 1), 2);
  }

  lemma {:induction false} FirstPlus(d: Date, j: int)
    requires Valid(d) && d.day == 1
    requires 0 <= j < DaysInMonth(d.year, d.month)
    ensures AddDays(d, j) == Date(d.year, d.month, 1 + j)
    decreases j
  {
    if j > 0 {
      AddDaysAdd(d, j - 1, 1);
      FirstPlus(d, j - 1);
    }
  }

  /** A date's own fields give it back, shifted by `k` days. */
  lemma MakeDateShift(c: Date, k: int)
    requires Valid(c)
    ensures MakeDate(c.year, c.month - 1, c.day + k) == AddDays(c, k)
  {
    var first := Date(c.year, c.month, 1);
    var j := c.day - 1;
    MakeDateInYear(c.year, c.month - 1, c.day + k);
    assert MakeDate(c.year, c.month - 1, c.day + k) == AddDays(first, j + k);
    FirstPlus(first, j);
    AddDaysAdd(first, j, k);
  }

  lemma MakeDateInYear(y: int, m0: int, dd: int)
    requires 0 <= m0 < 12
    ensures MakeDate(y, m0, dd) == AddDays(Date(y, m0 + 1, 1), dd - 1)
  {
    assert m0 / 12 == 0 && m0 % 12 == m0;
  }

  /** Day 0 of the month after `m` is the last day of `m`. */
  lemma MakeDateLastOfMonth(y: int, m: int)
    requires 1 <= m <= 12
    ensures MakeDate(y, m, 0) == Date(y, m, DaysInMonth(y, m))
  {
    var last := Date(y, m, DaysInMonth(y, m));
    var next := Date(y + m / 12, m % 12 + 1, 1);
    if m < 12 {
      assert m / 12 == 0 && m % 12 == m;
    } else {
      assert m / 12 == 1 && m % 12 == 0;
    }
    assert next == NextDay(last);
    PrevNext(last);
    assert MakeDate(y, m, 0) == AddDays(next, -1);
    assert AddDays(next, -1) == AddDays(PrevDay(next), 0);
  }

  /** `new Date(y, m, 0)`: the last day of month `m` of the year the constructor reads. */
  lemma NewDateLastOfMonth(y: int, m: int)
    requires 1 <= m <= 12
    ensures NewDate(y, m, 0) == Date(FullYear(y), m, DaysInMonth(FullYear(y), m))
  {
    MakeDateLastOfMonth(FullYear(y), m);
  }

  /** The Monday on or before `d` (`d - (getDay() + 6) % 7`). */
  function WeekStart(d: Date): (r: Date)
    requires Valid(d)
    ensures Valid(r)
  {
    AddDays(d, -((Weekday(d) + 6) % 7))
  }

  lemma WeekStartIsMonday(d: Date)
    requires Valid(d)
    ensures Weekday(WeekStart(d)) == 1
    ensures DayNumber(d) - 6 <= DayNumber(WeekStart(d)) <= DayNumber(d)
  {
    var back := (Weekday(d) + 6) % 7;
    WeekdayAdd(d, -back);
    AddDaysNumber(d, -back);
    MondayFacts(Weekday(d), Weekday(WeekStart(d)), DayNumber(d), DayNumber(WeekStart(d)));
  }

  /**
   * Going back `(w + 6) % 7` days from weekday `w` lands on a Monday at most
   * six days earlier, stated on the weekday and day numbers alone.
   */
  lemma MondayFacts(w: int, w2: int, n: int, n2: int)
    requires 0 <= w < 7
    requires w2 == (w + -((w + 6) % 7)) % 7 && n2 == n + -((w + 6) % 7)
    ensures w2 == 1 && n - 6 <= n2 <= n
  {
    if w == 0 {
      assert (w + 6) % 7 == 6;
    } else {
      assert (w + 6) % 7 == w - 1;
    }
  }

  /** Day `j` of week `w` after a Monday falls on weekday `(j + 1) % 7`. */
  lemma WeekColumn(start: Date, w: nat, j: nat)
    requires Valid(start) && Weekday(start) == 1 && j < 7
    ensures Weekday(AddDays(start, 7 * w + j)) == (j + 1) % 7
  {
    WeekdayAdd(start, 7 * w + j);
    ColumnMod(w, j);
  }

  lemma ColumnMod(w: int, j: int)
    ensures (1 + (7 * w + j)) % 7 == (j + 1) % 7
  {
    var x := j + 1;
    var q := x / 7;
    assert 1 + (7 * w + j) == 7 * (q + w) + x % 7;
  }

  /** The Sunday on or after `d` (`d + (7 - getDay()) % 7`). */
  function WeekEndOnOrAfter(d: Date): (r: Date)
    requires Valid(d)
    ensures Valid(r)
  {
    AddDays(d, (7 - Weekday(d)) % 7)
  }

  lemma WeekEndIsSunday(d: Date)
    requires Valid(d)
    ensures Weekday(WeekEndOnOrAfter(d)) == 0
    ensures DayNumber(d) <= DayNumber(WeekEndOnOrAfter(d)) <= DayNumber(d) + 6
  {
    var k := (7 - Weekday(d)) % 7;
    WeekdayAdd(d, k);
    AddDaysNumber(d, k);
    SundayFacts(Weekday(d), Weekday(WeekEndOnOrAfter(d)), DayNumber(d), DayNumber(WeekEndOnOrAfter(d)));
  }

  /**
   * Going forward `(7 - w) % 7` days from weekday `w` lands on a Sunday at
   * most six days later, stated on the weekday and day numbers alone.
   */
  lemma SundayFacts(w: int, w2: int, n: int, n2: int)
    requires 0 <= w < 7
    requires w2 == (w + (7 - w) % 7) % 7 && n2 == n + (7 - w) % 7
    ensures w2 == 0 && n <= n2 <= n + 6
  {
    assert (7 - w) % 7 == if w == 0 then 0 else 7 - w;
  }

  /** A year `toEasternISO` renders with four digits. */
  predicate IsoYear(d: Date) {
    0 <= d.year <= 9999
  }

  function DigitChar(n: int): (c: char)
    requires 0 <= n < 10
    ensures IsDigit(c)
  {
    ('0' as int + n) as char
  }

  function Pad2(n: int): (r: string)
    requires 0 <= n < 100
    ensures |r| == 2
  {
    [DigitChar(n / 10), DigitChar(n % 10)]
  }

  function Pad4(n: int): (r: string)
    requires 0 <= n < 10000
    ensures |r| == 4
  {
    Pad2(n / 100) + Pad2(n % 100)
  }

  /** `toEasternISO(date)`: the `YYYY-MM-DD` form of a date. */
  function Iso(d: Date): (s: string)
    requires Valid(d) && IsoYear(d)
    ensures |s| == 10 && s[4] == '-' && s[7] == '-'
  {
    Pad4(d.year) + "-" + Pad2(d.month) + "-" + Pad2(d.day)
  }

  lemma Pad2Less(a: int, b: int, s: string, t: string)
    requires 0 <= a < 100 && 0 <= b < 100
    ensures LexLess(Pad2(a) + s, Pad2(b) + t) == if a == b then LexLess(s, t) else a < b
  {
    var x := Pad2(a) + s;
    var y := Pad2(b) + t;
    if a / 10 == b / 10 {
      assert x[1..] == [DigitChar(a % 10)] + s;
      assert y[1..] == [DigitChar(b % 10)] + t;
      if a % 10 == b % 10 {
        assert a == b;
        LexCommonPrefix(Pad2(a), s, t);
      }
    }
  }

  lemma Pad4Less(a: int, b: int, s: string, t: string)
    requires 0 <= a < 10000 && 0 <= b < 10000
    ensures LexLess(Pad4(a) + s, Pad4(b) + t) == if a == b then LexLess(s, t) else a < b
  {
    assert Pad4(a) + s == Pad2(a / 100) + (Pad2(a % 100) + s);
    assert Pad4(b) + t == Pad2(b / 100) + (Pad2(b % 100) + t);
    Pad2Less(a / 100, b / 100, Pad2(a % 100) + s, Pad2(b % 100) + t);
    Pad2Less(a % 100, b % 100, s, t);
  }

  /** Comparing `YYYY-MM-DD` strings compares the dates they name. */
  lemma IsoOrder(a: Date, b: Date)
    requires Valid(a) && IsoYear(a) && Valid(b) && IsoYear(b)
    ensures LexLess(Iso(a), Iso(b)) <==> Before(a, b)
    ensures Iso(a) == Iso(b) <==> a == b
  {
    var ra := "-" + Pad2(a.month) + "-" + Pad2(a.day);
    var rb := "-" + Pad2(b.month) + "-" + Pad2(b.day);
    assert Iso(a) == Pad4(a.year) + ra;
    assert Iso(b) == Pad4(b.year) + rb;
    Pad4Less(a.year, b.year, ra, rb);
    var da := "-" + Pad2(a.day);
    var db := "-" + Pad2(b.day);
    assert ra == "-" + (Pad2(a.month) + da);
    assert rb == "-" + (Pad2(b.month) + db);
    LexCommonPrefix("-", Pad2(a.month) + da, Pad2(b.month) + db);
    Pad2Less(a.month, b.month, da, db);
    LexCommonPrefix("-", Pad2(a.day), Pad2(b.day));
    Pad2Less(a.day, b.day, "", "");
    assert Pad2(a.day) + "" == Pad2(a.day);
    assert Pad2(b.day) + "" == Pad2(b.day);
    IsoInjective(a, b);
  }

  lemma IsoInjective(a: Date, b: Date)
    requires Valid(a) && IsoYear(a) && Valid(b) && IsoYear(b)
    ensures Iso(a) == Iso(b) <==> a == b
  {
    if Iso(a) == Iso(b) {
      var s := Iso(a);
      assert Pad4(a.year) == s[..4] == Pad4(b.year);
      assert Pad2(a.month) == s[5..7] == Pad2(b.month);
      assert Pad2(a.day) == s[8..] == Pad2(b.day);
      assert Pad2(a.year / 100) == Pad4(a.year)[..2];
      assert Pad2(b.year / 100) == Pad4(b.year)[..2];
      assert Pad2(a.year % 100) == Pad4(a.year)[2..];
      assert Pad2(b.year % 100) == Pad4(b.year)[2..];
    }
  }

  /** `s.split("-").map(Number)`, destructured as `[y, m, d]`. */
  function ParseYmd(s: string): (r: Option<(int, int, int)>)
  {
    var parts := Split(s, "-");
    if |parts| < 3 then None
    else match (JsNumber(parts[0]), JsNumber(parts[1]), JsNumber(parts[2]))
      case (Some(y), Some(m), Some(d)) => Some((y, m, d))
      case _ => None
  }

  lemma Pad2Digits(n: int)
    requires 0 <= n < 100
    ensures DigitsValue(Pad2(n)) == n
  {
    var s := Pad2(n);
    var one := [DigitChar(n / 10)];
    assert s[..1] == one;
    assert one[..0] == [];
    assert DigitsValue(one) == n / 10;
    assert DigitOf(s[1]) == n % 10;
    assert DigitsValue(s) == 10 * (n / 10) + n % 10;
  }

  lemma Pad2Value(n: int)
    requires 0 <= n < 100
    ensures JsNumber(Pad2(n)) == Some(n)
  {
    JsNumberOfDigits(Pad2(n));
    Pad2Digits(n);
  }

  /** Two more digits after a run of digits multiply its value by 100. */
  lemma DigitsTwoMore(a: string, b: string)
    requires forall i :: 0 <= i < |a| ==> IsDigit(a[i])
    requires |b| == 2 && IsDigit(b[0]) && IsDigit(b[1])
    ensures DigitsValue(a + b) == 100 * DigitsValue(a) + DigitsValue(b)
  {
    var s := a + b;
    assert s[..|s| - 1] == a + [b[0]];
    assert (a + [b[0]])[..|a|] == a;
    assert b[..1] == [b[0]] && [b[0]][..0] == [];
  }

  lemma Pad4Digits(n: int)
    requires 0 <= n < 10000
    ensures DigitsValue(Pad4(n)) == n
  {
    Pad2Digits(n / 100);
    Pad2Digits(n % 100);
    DigitsTwoMore(Pad2(n / 100), Pad2(n % 100));
  }

  lemma Pad4Value(n: int)
    requires 0 <= n < 10000
    ensures JsNumber(Pad4(n)) == Some(n)
  {
    JsNumberOfDigits(Pad4(n));
    Pad4Digits(n);
  }

  /** Splitting an ISO date string on `-` gives its year, month and day back. */
  lemma ParseIso(d: Date)
    requires Valid(d) && IsoYear(d)
    ensures ParseYmd(Iso(d)) == Some((d.year, d.month, d.day))
  {
    var parts := [Pad4(d.year), Pad2(d.month), Pad2(d.day)];
    assert Join(parts, "-") == Iso(d) by {
      assert Join(parts[2..], "-") == Pad2(d.day);
      assert Join(parts[1..], "-") == Pad2(d.month) + "-" + Pad2(d.day);
    }
    forall k | 0 <= k < 3
      ensures SplitsCleanly(parts[k], "-")
    {
      NoSepCharSplitsCleanly(parts[k], "-");
    }
    SplitJoin(parts, "-");
    Pad4Value(d.year);
    Pad2Value(d.month);
    Pad2Value(d.day);
  }
}
