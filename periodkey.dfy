/** The bucket key `group_by` derives from an entry's timestamp:
    `strftime("%Y-W%U")` for a week, `"%Y-%m"` for a month, `"%Y"` for a year. */
module PeriodKey {
  import opened LexOrder
  import opened Calendar

  /** The `key` argument of `group_by`: "week", "month", or anything else (a year). */
  datatype Period = Week | Month | Year

  function Digit(k: int): (c: char)
    requires 0 <= k < 10
    ensures '0' <= c <= '9'
  {
    ('0' as int + k) as char
  }

  function Pow10(w: nat): (p: nat)
    ensures p >= 1
  {
    if w == 0 then 1 else 10 * Pow10(w - 1)
  }

  /** `n` in decimal, zero-padded to `w` digits (as `%Y`, `%m` and `%U` print). */
  function Pad(n: nat, w: nat): (s: string)
    ensures |s| == w
  {
    if w == 0 then [] else Pad(n / 10, w - 1) + [Digit(n % 10)]
  }

  /** Zero-padded numbers of one width sort as strings exactly as they sort
      as numbers. */
  lemma {:induction false} PadOrder(n1: nat, n2: nat, w: nat)
    requires n1 < Pow10(w) && n2 < Pow10(w)
    ensures LexLe(Pad(n1, w), Pad(n2, w)) <==> n1 <= n2
    decreases w
  {
    if w > 0 {
      var h1, h2 := n1 / 10, n2 / 10;
      PadOrder(h1, h2, w - 1);
      PadOrder(h2, h1, w - 1);
      var t1, t2 := [Digit(n1 % 10)], [Digit(n2 % 10)];
      LexLeConcat(Pad(h1, w - 1), t1, Pad(h2, w - 1), t2);
      if Pad(h1, w - 1) == Pad(h2, w - 1) {
        LexLeReflexive(Pad(h1, w - 1));
        assert h1 == h2;
        assert LexLe(t1, t2) <==> n1 % 10 <= n2 % 10;
      } else {
        LexLeReflexive(Pad(h1, w - 1));
        assert h1 != h2;
      }
    }
  }

  lemma PadInjective(n1: nat, n2: nat, w: nat)
    requires n1 < Pow10(w) && n2 < Pow10(w)
    requires Pad(n1, w) == Pad(n2, w)
    ensures n1 == n2
  {
    LexLeReflexive(Pad(n1, w));
    PadOrder(n1, n2, w);
    PadOrder(n2, n1, w);
  }

  /** `dt.strftime(...)` for the key chosen by `period`. */
  function Key(d: Date, period: Period): (k: string)
    requires ValidDate(d)
  {
    match period
    case Week => Pad(d.year, 4) + ("-W" + Pad(WeekNumber(d), 2))
    case Month => Pad(d.year, 4) + ("-" + Pad(d.month, 2))
    case Year => Pad(d.year, 4)
  }

  /** Two dates fall in the same period: the same year and `%U` week, the
      same year and month, or the same year. */
  predicate SamePeriod(d1: Date, d2: Date, period: Period)
    requires ValidDate(d1) && ValidDate(d2)
  {
    match period
    case Week => d1.year == d2.year && WeekNumber(d1) == WeekNumber(d2)
    case Month => d1.year == d2.year && d1.month == d2.month
    case Year => d1.year == d2.year
  }

  /** The period of `d1` is no later than the period of `d2`. */
  predicate PeriodLe(d1: Date, d2: Date, period: Period)
    requires ValidDate(d1) && ValidDate(d2)
  {
    match period
    case Week => d1.year < d2.year || (d1.year == d2.year && WeekNumber(d1) <= WeekNumber(d2))
    case Month => d1.year < d2.year || (d1.year == d2.year && d1.month <= d2.month)
    case Year => d1.year <= d2.year
  }

  lemma Pow10Values()
    ensures Pow10(2) == 100 && Pow10(4) == 10000
  {
  }

  /** Comparing two keys as strings compares their periods in time. */
  lemma KeyOrder(d1: Date, d2: Date, period: Period)
    requires ValidDate(d1) && ValidDate(d2)
    ensures LexLe(Key(d1, period), Key(d2, period)) <==> PeriodLe(d1, d2, period)
  {
    Pow10Values();
    var y1, y2 := Pad(d1.year, 4), Pad(d2.year, 4);
    PadOrder(d1.year, d2.year, 4);
    if y1 == y2 { PadInjective(d1.year, d2.year, 4); }
    match period
    case Week =>
      var w1, w2 := Pad(WeekNumber(d1), 2), Pad(WeekNumber(d2), 2);
      LexLeConcat(y1, "-W" + w1, y2, "-W" + w2);
      LexLeConcat("-W", w1, "-W", w2);
      PadOrder(WeekNumber(d1), WeekNumber(d2), 2);
      if y1 != y2 { assert d1.year != d2.year; }
    case Month =>
      var m1, m2 := Pad(d1.month, 2), Pad(d2.month, 2);
      LexLeConcat(y1, "-" + m1, y2, "-" + m2);
      LexLeConcat("-", m1, "-", m2);
      PadOrder(d1.month, d2.month, 2);
      if y1 != y2 { assert d1.year != d2.year; }
    case Year =>
  }

  /** Two entries share a bucket exactly when their dates fall in the same
      period. */
  lemma KeyEqual(d1: Date, d2: Date, period: Period)
    requires ValidDate(d1) && ValidDate(d2)
    ensures Key(d1, period) == Key(d2, period) <==> SamePeriod(d1, d2, period)
  {
    if Key(d1, period) == Key(d2, period) {
      LexLeReflexive(Key(d1, period));
      KeyOrder(d1, d2, period);
      KeyOrder(d2, d1, period);
    }
  }

  /** A later date never falls in an earlier period. */
  lemma PeriodMonotone(d1: Date, d2: Date, period: Period)
    requires ValidDate(d1) && ValidDate(d2) && DateLe(d1, d2)
    ensures PeriodLe(d1, d2, period)
  {
    if period.Week? && d1.year == d2.year { WeekNumberMonotone(d1, d2); }
  }

  /** So the string order of keys never contradicts the order of time. */
  lemma KeyMonotone(d1: Date, d2: Date, period: Period)
    requires ValidDate(d1) && ValidDate(d2) && DateLe(d1, d2)
    ensures LexLe(Key(d1, period), Key(d2, period))
  {
    PeriodMonotone(d1, d2, period);
    KeyOrder(d1, d2, period);
  }
}
