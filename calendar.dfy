/** Dates and times as Python's `datetime` counts them: the proleptic Gregorian calendar, day
    1 being 0001-01-01 (`date.toordinal()`), and instants in microseconds on that day count. */
module Calendar {
  import opened Wrappers

  predicate IsLeap(y: int) {
    y % 4 == 0 && (y % 100 != 0 || y % 400 == 0)
  }

  function DaysInMonth(y: int, m: int): (n: int)
    requires 1 <= m <= 12
    ensures 28 <= n <= 31
  {
    if m == 2 then (if IsLeap(y) then 29 else 28)
    else if m == 4 || m == 6 || m == 9 || m == 11 then 30
    else 31
  }

  function DaysInYear(y: int): int {
    if IsLeap(y) then 366 else 365
  }

  /** Days of year `y` before the first of month `m` (month 13 standing for the year's end). */
  function DaysBeforeMonth(y: int, m: int): (n: nat)
    requires 1 <= m <= 13
  {
    if m == 1 then 0 else DaysBeforeMonth(y, m - 1) + DaysInMonth(y, m - 1)
  }

  /** Days before the first of January of year `y`. */
  function DaysBeforeYear(y: int): int
    requires y >= 1
  {
    var p := y - 1;
    p * 365 + p / 4 - p / 100 + p / 400
  }

  /** `date(y, m, d).toordinal()`. */
  function Ordinal(y: int, m: int, d: int): int
    requires y >= 1 && 1 <= m <= 12
  {
    DaysBeforeYear(y) + DaysBeforeMonth(y, m) + d
  }

  /** A parsed date and time; `offset` is the UTC offset in minutes of an aware value, and
      None for a naive one. */
  datatype DateTime = DateTime(year: int, month: int, day: int, hour: int, minute: int,
                               second: int, micro: int, offset: Option<int>)

  predicate ValidDate(y: int, m: int, d: int) {
    1 <= y <= 9999 && 1 <= m <= 12 && 1 <= d <= DaysInMonth(y, m)
  }

  /** The values `datetime` accepts: a real date, a time of day, and an offset strictly within
      one day. */
  predicate Valid(t: DateTime) {
    && ValidDate(t.year, t.month, t.day)
    && 0 <= t.hour < 24 && 0 <= t.minute < 60 && 0 <= t.second < 60 && 0 <= t.micro < 1000000
    && (t.offset.Some? ==> -1440 < t.offset.value < 1440)
  }

  const MicrosPerDay: int := 86400000000

  /** Microseconds since the start of the day. */
  function ClockMicros(t: DateTime): int {
    ((t.hour * 60 + t.minute) * 60 + t.second) * 1000000 + t.micro
  }

  /** The instant `t` denotes, in microseconds: for an aware value the UTC instant, for a naive
      one its wall-clock reading on the same scale. */
  function Instant(t: DateTime): (us: int)
    requires Valid(t)
    ensures 0 <= ClockMicros(t) < MicrosPerDay
    ensures t.offset.None? ==> us == Ordinal(t.year, t.month, t.day) * MicrosPerDay + ClockMicros(t)
  {
    var local := Ordinal(t.year, t.month, t.day) * MicrosPerDay + ClockMicros(t);
    if t.offset.Some? then local - t.offset.value * 60000000 else local
  }

  /** The calendar order of two readings: year, month, day, then the time of day. */
  predicate Earlier(a: DateTime, b: DateTime) {
    || a.year < b.year
    || (a.year == b.year && a.month < b.month)
    || (a.year == b.year && a.month == b.month && a.day < b.day)
    || (a.year == b.year && a.month == b.month && a.day == b.day && ClockMicros(a) < ClockMicros(b))
  }

  lemma {:induction false} DaysBeforeMonthGrows(y: int, m1: int, m2: int)
    requires 1 <= m1 <= m2 <= 13
    ensures m1 < m2 ==> DaysBeforeMonth(y, m1) + 28 <= DaysBeforeMonth(y, m2)
    ensures m1 < m2 && m1 <= 12 ==> DaysBeforeMonth(y, m1) + DaysInMonth(y, m1) <= DaysBeforeMonth(y, m2)
  {
    if m1 < m2 {
      DaysBeforeMonthGrows(y, m1, m2 - 1);
    }
  }

  lemma {:induction false} YearLength(y: int)
    requires y >= 1
    ensures DaysBeforeMonth(y, 13) == DaysInYear(y)
    ensures DaysBeforeYear(y + 1) == DaysBeforeYear(y) + DaysInYear(y)
  {
    MonthsFillYear(y);
    YearStep(y);
  }

  lemma {:induction false} MonthsFillYear(y: int)
    ensures DaysBeforeMonth(y, 13) == DaysInYear(y)
  {
    var feb := DaysInMonth(y, 2);
    assert DaysBeforeMonth(y, 2) == 31;
    assert DaysBeforeMonth(y, 3) == 31 + feb;
    assert DaysBeforeMonth(y, 4) == 62 + feb;
    assert DaysBeforeMonth(y, 5) == 92 + feb;
    assert DaysBeforeMonth(y, 6) == 123 + feb;
    assert DaysBeforeMonth(y, 7) == 153 + feb;
    assert DaysBeforeMonth(y, 8) == 184 + feb;
    assert DaysBeforeMonth(y, 9) == 215 + feb;
    assert DaysBeforeMonth(y, 10) == 245 + feb;
    assert DaysBeforeMonth(y, 11) == 276 + feb;
    assert DaysBeforeMonth(y, 12) == 306 + feb;
  }

  lemma DivStep(p: nat, k: int)
    requires k == 4 || k == 100 || k == 400
    ensures (p + 1) / k == p / k + (if (p + 1) % k == 0 then 1 else 0)
  {
  }

  lemma ModChain(y: int)
    ensures y % 400 == 0 ==> y % 100 == 0
    ensures y % 100 == 0 ==> y % 4 == 0
  {
    if y % 400 == 0 {
      var k := 4 * (y / 400);
      assert y == 100 * k;
    }
    if y % 100 == 0 {
      var k := 25 * (y / 100);
      assert y == 4 * k;
    }
  }

  lemma {:induction false} YearStep(y: int)
    requires y >= 1
    ensures DaysBeforeYear(y + 1) == DaysBeforeYear(y) + DaysInYear(y)
  {
    var p := y - 1;
    DivStep(p, 4);
    DivStep(p, 100);
    DivStep(p, 400);
    ModChain(y);
    assert DaysBeforeYear(y + 1) - DaysBeforeYear(y)
        == 365 + ((p + 1) / 4 - p / 4) - ((p + 1) / 100 - p / 100) + ((p + 1) / 400 - p / 400);
  }

  lemma {:induction false} DaysBeforeYearGrows(y1: int, y2: int)
    requires 1 <= y1 < y2
    ensures DaysBeforeYear(y1) + DaysInYear(y1) <= DaysBeforeYear(y2)
    decreases y2 - y1
  {
    YearLength(y1);
    if y1 + 1 < y2 {
      DaysBeforeYearGrows(y1 + 1, y2);
    }
  }

  /** Day numbers follow the calendar: a date before another has a smaller ordinal. */
  lemma {:induction false} OrdinalMonotone(y1: int, m1: int, d1: int, y2: int, m2: int, d2: int)
    requires ValidDate(y1, m1, d1) && ValidDate(y2, m2, d2)
    requires y1 < y2 || (y1 == y2 && m1 < m2) || (y1 == y2 && m1 == m2 && d1 < d2)
    ensures Ordinal(y1, m1, d1) < Ordinal(y2, m2, d2)
  {
    if y1 < y2 {
      DaysBeforeMonthGrows(y1, m1, 13);
      YearLength(y1);
      DaysBeforeYearGrows(y1, y2);
    } else if m1 < m2 {
      DaysBeforeMonthGrows(y1, m1, m2);
    }
  }

  /** Instants follow the calendar: of two readings with the same offset (or both naive), the
      earlier one denotes the smaller instant, so comparing instants compares readings. */
  lemma InstantMonotone(a: DateTime, b: DateTime)
    requires Valid(a) && Valid(b) && a.offset == b.offset
    requires Earlier(a, b)
    ensures Instant(a) < Instant(b)
  {
    if !(a.year == b.year && a.month == b.month && a.day == b.day) {
      OrdinalMonotone(a.year, a.month, a.day, b.year, b.month, b.day);
    }
  }

  /** With the same offset (or both naive), comparing instants is comparing readings: the
      instant of `a` is smaller exactly when `a` is the earlier reading, and equal exactly when
      the readings agree on date and time of day. */
  lemma {:induction false} InstantOrder(a: DateTime, b: DateTime)
    requires Valid(a) && Valid(b) && a.offset == b.offset
    ensures Instant(a) < Instant(b) <==> Earlier(a, b)
    ensures Instant(a) == Instant(b) <==> !Earlier(a, b) && !Earlier(b, a)
  {
    if Earlier(a, b) {
      InstantMonotone(a, b);
    } else if Earlier(b, a) {
      InstantMonotone(b, a);
    }
  }
}
