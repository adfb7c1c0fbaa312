/** The calendar facts `strftime` needs for the period keys: the proleptic
    Gregorian calendar of Python's `datetime`, and the fields of C's
    `struct tm` that `strftime` reads: the day of the year (`tm_yday`, 0 on
    January 1), the weekday (`tm_wday`, Sunday = 0), and from them the `%U`
    week number. */
module Calendar {

  /** The date part of an entry's `created` timestamp. */
  datatype Date = Date(year: int, month: int, day: int)

  predicate IsLeapYear(y: int) {
    y % 4 == 0 && (y % 100 != 0 || y % 400 == 0)
  }

  function DaysInMonth(y: int, m: int): (n: int)
    requires 1 <= m <= 12
    ensures 28 <= n <= 31
    ensures m == 2 ==> (n == 29 <==> IsLeapYear(y))
  {
    if m == 2 then (if IsLeapYear(y) then 29 else 28)
    else if m == 4 || m == 6 || m == 9 || m == 11 then 30
    else 31
  }

  /** The dates `datetime` can hold: years 1 through 9999. */
  predicate ValidDate(d: Date) {
    1 <= d.year <= 9999 && 1 <= d.month <= 12 && 1 <= d.day <= DaysInMonth(d.year, d.month)
  }

  /** Days of year `y` before the first day of month `m`. */
  function DaysBeforeMonth(y: int, m: int): (n: nat)
    requires 1 <= m <= 12
    ensures n <= 31 * (m - 1)
    ensures m == 1 ==> n == 0
  {
    if m == 1 then 0 else DaysBeforeMonth(y, m - 1) + DaysInMonth(y, m - 1)
  }

  lemma {:induction false} DaysBeforeMonthGrows(y: int, m1: int, m2: int)
    requires 1 <= m1 < m2 <= 12
    ensures DaysBeforeMonth(y, m1) + DaysInMonth(y, m1) <= DaysBeforeMonth(y, m2)
    decreases m2 - m1
  {
    if m1 + 1 < m2 { DaysBeforeMonthGrows(y, m1 + 1, m2); }
  }

  lemma MonthEndsWithinYear(y: int, m: int)
    requires 1 <= m <= 12
    ensures DaysBeforeMonth(y, m) + DaysInMonth(y, m) <= DaysBeforeMonth(y, 12) + DaysInMonth(y, 12)
  {
    if m < 12 { DaysBeforeMonthGrows(y, m, 12); }
  }

  /** A year has 365 days, 366 in a leap year. */
  lemma DaysInYear(y: int)
    ensures DaysBeforeMonth(y, 12) + DaysInMonth(y, 12) == if IsLeapYear(y) then 366 else 365
  {
    var leap := if IsLeapYear(y) then 1 else 0;
    assert DaysBeforeMonth(y, 3) == 59 + leap;
    assert DaysBeforeMonth(y, 5) == 120 + leap;
    assert DaysBeforeMonth(y, 7) == 181 + leap;
    assert DaysBeforeMonth(y, 9) == 243 + leap;
    assert DaysBeforeMonth(y, 11) == 304 + leap;
  }

  /** Days before January 1 of year `y`, counted from January 1 of year 1. */
  function DaysBeforeYear(y: int): int
    requires y >= 1
  {
    var p := y - 1;
    p * 365 + p / 4 - p / 100 + p / 400
  }

  /** `date.toordinal()`: day 1 is January 1 of year 1. */
  function Ordinal(d: Date): int
    requires ValidDate(d)
  {
    DaysBeforeYear(d.year) + DaysBeforeMonth(d.year, d.month) + d.day
  }

  /** C's `tm_yday`: 0 on January 1. */
  function YearDay(d: Date): (n: nat)
    requires ValidDate(d)
    ensures n < DaysBeforeMonth(d.year, 12) + DaysInMonth(d.year, 12)
  {
    MonthEndsWithinYear(d.year, d.month);
    DaysBeforeMonth(d.year, d.month) + d.day - 1
  }

  /** C's `tm_wday`: 0 for Sunday. January 1 of year 1 (ordinal 1) was a Monday. */
  function Weekday(d: Date): (w: nat)
    requires ValidDate(d)
    ensures w < 7
  {
    Ordinal(d) % 7
  }

  /** `%U`: the week of the year, weeks starting on Sunday; the days before the
      year's first Sunday are week 0. */
  function WeekNumber(d: Date): (w: nat)
    requires ValidDate(d)
    ensures w <= 53
  {
    DaysInYear(d.year);
    (YearDay(d) + 7 - Weekday(d)) / 7
  }

  /** Chronological order of dates. */
  predicate DateLe(d1: Date, d2: Date) {
    d1.year < d2.year
    || (d1.year == d2.year && (d1.month < d2.month || (d1.month == d2.month && d1.day <= d2.day)))
  }

  lemma YearDayMonotone(d1: Date, d2: Date)
    requires ValidDate(d1) && ValidDate(d2) && d1.year == d2.year && DateLe(d1, d2)
    ensures YearDay(d1) <= YearDay(d2)
  {
    if d1.month < d2.month { DaysBeforeMonthGrows(d1.year, d1.month, d2.month); }
  }

  /** `WeekNumber` counts the ordinal's completed multiples of seven since the
      year began: what makes it step up on Sundays and nowhere else. */
  lemma WeekNumberByOrdinal(d: Date)
    requires ValidDate(d)
    ensures WeekNumber(d) == (7 * (Ordinal(d) / 7) - DaysBeforeYear(d.year) + 6) / 7
  {
    var o := Ordinal(d);
    assert o == 7 * (o / 7) + o % 7;
    assert YearDay(d) + 7 - Weekday(d) == 7 * (o / 7) - DaysBeforeYear(d.year) + 6;
  }

  lemma DivSevenMonotone(x: int, y: int)
    requires x <= y
    ensures x / 7 <= y / 7
  {
    assert 7 * (x / 7) <= x <= y < 7 * (y / 7) + 7;
  }

  /** Within one year the `%U` week never goes backwards in time. */
  lemma WeekNumberMonotone(d1: Date, d2: Date)
    requires ValidDate(d1) && ValidDate(d2) && d1.year == d2.year && DateLe(d1, d2)
    ensures WeekNumber(d1) <= WeekNumber(d2)
  {
    YearDayMonotone(d1, d2);
    WeekNumberByOrdinal(d1);
    WeekNumberByOrdinal(d2);
    var c := DaysBeforeYear(d1.year);
    DivSevenMonotone(Ordinal(d1), Ordinal(d2));
    DivSevenMonotone(7 * (Ordinal(d1) / 7) - c + 6, 7 * (Ordinal(d2) / 7) - c + 6);
  }

  lemma OrdinalStep(o: int)
    ensures (o + 1) % 7 == (o % 7 + 1) % 7
  {
    var q, r := o / 7, o % 7;
    if r == 6 {
      assert o + 1 == 7 * (q + 1);
    } else {
      assert o + 1 == 7 * q + (r + 1);
    }
  }

  lemma DivAddSeven(x: int)
    ensures (x + 7) / 7 == x / 7 + 1
  {
    assert x + 7 == 7 * (x / 7 + 1) + x % 7;
  }

  /** From one day to the next within a year, the weekday advances by one
      (Saturday to Sunday wrapping around) and the `%U` week grows by one
      exactly when the new day is a Sunday. */
  lemma NextDayWeek(d1: Date, d2: Date)
    requires ValidDate(d1) && ValidDate(d2) && d1.year == d2.year
    requires Ordinal(d2) == Ordinal(d1) + 1
    ensures Weekday(d2) == (Weekday(d1) + 1) % 7
    ensures WeekNumber(d2) == WeekNumber(d1) + (if Weekday(d2) == 0 then 1 else 0)
  {
    var o1, o2 := Ordinal(d1), Ordinal(d2);
    OrdinalStep(o1);
    var y1, y2 := YearDay(d1), YearDay(d2);
    var w1, w2 := Weekday(d1), Weekday(d2);
    assert y2 == y1 + 1;
    assert w2 == (w1 + 1) % 7;
    if w1 == 6 {
      assert y2 + 7 - w2 == (y1 + 7 - w1) + 7;
      DivAddSeven(y1 + 7 - w1);
    } else {
      assert y2 + 7 - w2 == y1 + 7 - w1;
    }
  }

  /** January 1 is in week 1 when it is a Sunday and in week 0 otherwise. */
  lemma NewYearWeek(d: Date)
    requires ValidDate(d) && d.month == 1 && d.day == 1
    ensures WeekNumber(d) == if Weekday(d) == 0 then 1 else 0
  {
  }
}
