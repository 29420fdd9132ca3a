/**
 * `DateTime` values as .NET represents them: a count of 100-nanosecond
 * ticks since 0001-01-01 00:00:00 (proleptic Gregorian calendar, UTC).
 * The calendar fields the system prints (`yyyy`, `MM`) are computed the way
 * the runtime's own date-part routine computes them, from 400-, 100-, 4- and
 * 1-year cycles.
 */
module Clock {
  import opened Wrappers

  const TicksPerHour: int := 36_000_000_000
  const TicksPerDay: int := 864_000_000_000
  /** The ticks of DateTime.MaxValue, 9999-12-31 23:59:59.9999999. */
  const MaxTicks: int := 3_155_378_975_999_999_999

  const DaysPerYear: int := 365
  const DaysPer4Years: int := 1461
  const DaysPer100Years: int := 36524
  const DaysPer400Years: int := 146097

  type DateTime = t: int | 0 <= t <= MaxTicks

  /** `t.AddHours(h)`, which throws when the result leaves the representable range. */
  function AddHours(t: DateTime, hours: int): Option<DateTime> {
    var r := t + hours * TicksPerHour;
    if 0 <= r <= MaxTicks then Some(r) else None
  }

  /** Days before the first of each month, for a common and a leap year. */
  function DaysToMonth(leap: bool): (days: seq<int>)
    ensures |days| == 13 && days[0] == 0
    ensures days[12] == if leap then 366 else 365
    ensures forall i, j :: 0 <= i < j < 13 ==> days[i] < days[j]
  {
    if leap then [0, 31, 60, 91, 121, 152, 182, 213, 244, 274, 305, 335, 366]
    else [0, 31, 59, 90, 120, 151, 181, 212, 243, 273, 304, 334, 365]
  }

  /** The year of a date, the zero-based day within that year, and whether the year is a leap year. */
  datatype YearDay = YearDay(year: int, dayOfYear: int, leap: bool)

  function YearDayOf(t: DateTime): (d: YearDay)
    ensures 1 <= d.year <= 9999
    ensures 0 <= d.dayOfYear < DaysToMonth(d.leap)[12]
  {
    var n := t / TicksPerDay;
    var y400 := n / DaysPer400Years;
    var n1 := n - y400 * DaysPer400Years;
    // the last day of a 400-year cycle belongs to its fourth century
    var y100 := if n1 / DaysPer100Years == 4 then 3 else n1 / DaysPer100Years;
    var n2 := n1 - y100 * DaysPer100Years;
    var y4 := n2 / DaysPer4Years;
    var n3 := n2 - y4 * DaysPer4Years;
    // the last day of a 4-year cycle belongs to its fourth year
    var y1 := if n3 / DaysPerYear == 4 then 3 else n3 / DaysPerYear;
    var n4 := n3 - y1 * DaysPerYear;
    assert n <= 3652058;
    assert y400 <= 24;
    assert 0 <= n1 < DaysPer400Years;
    assert 0 <= y100 <= 3 && 0 <= n2 < DaysPer100Years + 1;
    assert 0 <= y4 <= 24 && 0 <= n3 < DaysPer4Years;
    assert 0 <= y1 <= 3 && 0 <= n4 <= 365;
    assert y400 == 24 ==> n1 <= 145730;
    assert y400 == 24 && y100 == 3 ==> n2 <= 36158;
    assert y400 == 24 && y100 == 3 && y4 == 24 ==> n3 <= 1094;
    assert n4 == 365 ==> y1 == 3 && (y4 != 24 || y100 == 3);
    YearDay(y400 * 400 + y100 * 100 + y4 * 4 + y1 + 1, n4, y1 == 3 && (y4 != 24 || y100 == 3))
  }

  /** The first month, counting from `m`, whose end lies beyond day `n`. */
  function MonthFrom(n: int, days: seq<int>, m: int): (r: int)
    requires |days| == 13 && 1 <= m <= 12
    requires forall i, j :: 0 <= i < j < 13 ==> days[i] < days[j]
    requires days[m - 1] <= n < days[12]
    ensures m <= r <= 12
    ensures days[r - 1] <= n < days[r]
    decreases 12 - m
  {
    if n < days[m] then m else MonthFrom(n, days, m + 1)
  }

  datatype YearMonth = YearMonth(year: int, month: int)

  /** The year and month of an instant: what the format string "yyyy/MM" prints. */
  function DatePart(t: DateTime): (d: YearMonth)
    ensures 1 <= d.year <= 9999 && 1 <= d.month <= 12
    ensures var yd := YearDayOf(t); var days := DaysToMonth(yd.leap);
      d.year == yd.year && days[d.month - 1] <= yd.dayOfYear < days[d.month]
  {
    var yd := YearDayOf(t);
    YearMonth(yd.year, MonthFrom(yd.dayOfYear, DaysToMonth(yd.leap), 1))
  }

  /** Reference instants: the first tick, 2025-09-15 00:00 and the last tick. */
  lemma DatePartOfFirstTick()
    ensures DatePart(0) == YearMonth(1, 1)
  {
    assert YearDayOf(0) == YearDay(1, 0, false);
  }

  lemma DatePartOfSeptember2025()
    ensures DatePart(638_934_912_000_000_000) == YearMonth(2025, 9)
  {
    assert 638_934_912_000_000_000 / TicksPerDay == 739508;
    assert YearDayOf(638_934_912_000_000_000) == YearDay(2025, 257, false);
  }

  lemma DatePartOfLastTick()
    ensures DatePart(MaxTicks) == YearMonth(9999, 12)
  {
    assert MaxTicks / TicksPerDay == 3652058;
    assert YearDayOf(MaxTicks) == YearDay(9999, 364, false);
  }
}
