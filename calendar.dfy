/** The calendar arithmetic behind the monthly report's date range: the
    `Date(year, monthIndex, day, hours, minutes, seconds, ms)` constructor as a
    count of milliseconds since 1970-01-01T00:00:00, in a zone with no offset. */
module Calendar {

  const MillisPerDay: int := 86_400_000

  /** Gregorian leap years. */
  predicate IsLeapYear(y: int) {
    y % 4 == 0 && (y % 100 != 0 || y % 400 == 0)
  }

  function DaysInYear(y: int): int {
    if IsLeapYear(y) then 366 else 365
  }

  function DaysInMonth(y: int, m: int): (d: int)
    requires 1 <= m <= 12
    ensures 28 <= d <= 31
    ensures d == 29 <==> m == 2 && IsLeapYear(y)
  {
    if m == 2 then (if IsLeapYear(y) then 29 else 28)
    else if m == 4 || m == 6 || m == 9 || m == 11 then 30
    else 31
  }

  /** Days from 1970-01-01 to the first of January of year `y` (negative
      before 1970). */
  function DaysBeforeYear(y: int): int
    decreases if y < 1970 then 1970 - y else y - 1970
  {
    if y == 1970 then 0
    else if y > 1970 then DaysBeforeYear(y - 1) + DaysInYear(y - 1)
    else DaysBeforeYear(y + 1) - DaysInYear(y)
  }

  /** Days from the first of January to the first of month `m` of year `y`. */
  function DaysBeforeMonth(y: int, m: int): int
    requires 1 <= m <= 12
  {
    if m == 1 then 0 else DaysBeforeMonth(y, m - 1) + DaysInMonth(y, m - 1)
  }

  /** Days from 1970-01-01 to day `d` of month `m` of year `y`; `d` may lie
      outside the month and then counts on from its first. */
  function DayNumber(y: int, m: int, d: int): int
    requires 1 <= m <= 12
  {
    DaysBeforeYear(y) + DaysBeforeMonth(y, m) + d - 1
  }

  /** The year the `Date` constructor uses: 0 to 99 mean 1900 to 1999. */
  function FullYear(year: int): (r: int)
    ensures r == year || r == year + 1900
    ensures r != year <==> 0 <= year <= 99
  {
    if 0 <= year <= 99 then 1900 + year else year
  }

  /** `Date(year, monthIndex, day, h, mi, s, ms)`: a month index outside 0..11
      carries into the year, and a day outside the month carries into the
      neighbouring months. */
  function MakeDate(year: int, monthIndex: int, day: int, h: int, mi: int, s: int, ms: int): (r: int)
    ensures var y := FullYear(year) + monthIndex / 12;
            var m := monthIndex % 12 + 1;
            var start := DayNumber(y, m, day) * MillisPerDay;
            0 <= h * 3_600_000 + mi * 60_000 + s * 1000 + ms < MillisPerDay ==> start <= r < start + MillisPerDay
  {
    var y := FullYear(year) + monthIndex / 12;
    var m := monthIndex % 12 + 1;
    (DayNumber(y, m, 1) + day - 1) * MillisPerDay + h * 3_600_000 + mi * 60_000 + s * 1000 + ms
  }

  /** The first instant of month `monthNum` (1-based) of `year`: midnight on
      the month's first day, where a month number outside 1..12 first
      carries into the year. */
  function MonthStart(year: int, monthNum: int): (r: int)
    ensures var y := FullYear(year) + (monthNum - 1) / 12;
            var m := (monthNum - 1) % 12 + 1;
            r == DayNumber(y, m, 1) * MillisPerDay
  {
    MakeDate(year, monthNum - 1, 1, 0, 0, 0, 0)
  }

  /** Day 0 of the following month at 23:59:59.999, that is the last
      millisecond of the last day of month `monthNum`. */
  function MonthEnd(year: int, monthNum: int): (r: int)
    ensures var y := FullYear(year) + (monthNum - 1) / 12;
            var m := (monthNum - 1) % 12 + 1;
            r == DayNumber(y, m, DaysInMonth(y, m)) * MillisPerDay + MillisPerDay - 1
  {
    DayZeroIsLastDay(year, monthNum, 23, 59, 59, 999);
    MakeDate(year, monthNum, 0, 23, 59, 59, 999)
  }

  /** Day 0 of a month is the last day of the month before it, across a year
      end too. */
  lemma DayZeroIsLastDay(year: int, monthIndex: int, h: int, mi: int, s: int, ms: int)
    ensures var y := FullYear(year) + (monthIndex - 1) / 12;
            var m := (monthIndex - 1) % 12 + 1;
            MakeDate(year, monthIndex, 0, h, mi, s, ms) == MakeDate(year, monthIndex - 1, DaysInMonth(y, m), h, mi, s, ms)
  {
    var y := FullYear(year) + (monthIndex - 1) / 12;
    var m := (monthIndex - 1) % 12 + 1;
    NextMonthFollows(y, m);
    if m < 12 {
      assert monthIndex / 12 == (monthIndex - 1) / 12 && monthIndex % 12 + 1 == m + 1;
    } else {
      assert monthIndex / 12 == (monthIndex - 1) / 12 + 1 && monthIndex % 12 + 1 == 1;
    }
  }

  lemma YearLength(y: int)
    ensures DaysBeforeYear(y + 1) == DaysBeforeYear(y) + DaysInYear(y)
  {
    if y < 1969 {
      assert DaysBeforeYear(y) == DaysBeforeYear(y + 1) - DaysInYear(y);
    }
  }

  lemma DaysBeforeDecember(y: int)
    ensures DaysBeforeMonth(y, 12) + DaysInMonth(y, 12) == DaysInYear(y)
  {
    var leap := if IsLeapYear(y) then 1 else 0;
    assert DaysBeforeMonth(y, 2) == 31;
    assert DaysBeforeMonth(y, 3) == 59 + leap;
    assert DaysBeforeMonth(y, 4) == 90 + leap;
    assert DaysBeforeMonth(y, 5) == 120 + leap;
    assert DaysBeforeMonth(y, 6) == 151 + leap;
    assert DaysBeforeMonth(y, 7) == 181 + leap;
    assert DaysBeforeMonth(y, 8) == 212 + leap;
    assert DaysBeforeMonth(y, 9) == 243 + leap;
    assert DaysBeforeMonth(y, 10) == 273 + leap;
    assert DaysBeforeMonth(y, 11) == 304 + leap;
    assert DaysBeforeMonth(y, 12) == 334 + leap;
  }

  /** The first of the month after (y, m) is the day after the last of (y, m). */
  lemma NextMonthFollows(y: int, m: int)
    requires 1 <= m <= 12
    ensures m < 12 ==> DayNumber(y, m + 1, 1) == DayNumber(y, m, DaysInMonth(y, m)) + 1
    ensures m == 12 ==> DayNumber(y + 1, 1, 1) == DayNumber(y, m, DaysInMonth(y, m)) + 1
  {
    if m == 12 {
      YearLength(y);
      DaysBeforeDecember(y);
    }
  }

  /** The report's range for a month is not empty, and the range of one month
      ends one millisecond before the next month's begins. */
  lemma MonthRange(year: int, monthNum: int)
    ensures MonthStart(year, monthNum) < MonthEnd(year, monthNum)
    ensures MonthEnd(year, monthNum) + 1 == MonthStart(year, monthNum + 1)
  {
    var y := FullYear(year) + (monthNum - 1) / 12;
    var m := (monthNum - 1) % 12 + 1;
    NextMonthFollows(y, m);
    if m < 12 {
      assert monthNum / 12 == (monthNum - 1) / 12 && monthNum % 12 + 1 == m + 1;
    } else {
      assert monthNum / 12 == (monthNum - 1) / 12 + 1 && monthNum % 12 + 1 == 1;
    }
  }
}
