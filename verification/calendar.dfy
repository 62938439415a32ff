/**
 Proleptic Gregorian calendar arithmetic (the ISO chronology of `java.time`),
 counting days from 1970-01-01. `FromDayNumber` is the date-breakdown step of
 `LocalDateTime.ofInstant`, proved to invert the closed-form `DayNumber`.
 */
module Calendar {

  const DAYS_PER_CYCLE: int := 146097   // days in 400 Gregorian years
  const SECONDS_PER_DAY: int := 86400

  datatype Date = Date(year: int, month: int, day: int)

  predicate IsLeap(y: int) {
    y % 4 == 0 && (y % 100 != 0 || y % 400 == 0)
  }

  function DaysInYear(y: int): int {
    if IsLeap(y) then 366 else 365
  }

  function DaysInMonth(y: int, m: int): int
    requires 1 <= m <= 12
  {
    if m == 2 then (if IsLeap(y) then 29 else 28)
    else if m == 4 || m == 6 || m == 9 || m == 11 then 30
    else 31
  }

  predicate Valid(d: Date) {
    1 <= d.month <= 12 && 1 <= d.day <= DaysInMonth(d.year, d.month)
  }

  /** Leap years among 1 .. y-1 (negative when y < 1, by the floor divisions). */
  function LeapsBefore(y: int): int {
    (y - 1) / 4 - (y - 1) / 100 + (y - 1) / 400
  }

  /** Day number of January 1st of year `y`. */
  function YearStart(y: int): int {
    365 * (y - 1970) + LeapsBefore(y) - LeapsBefore(1970)
  }

  /** Days of year `y` before the first day of month `m` (m = 13: the whole year). */
  function MonthStart(y: int, m: int): int
    requires 1 <= m <= 13
  {
    if m == 1 then 0 else MonthStart(y, m - 1) + DaysInMonth(y, m - 1)
  }

  /** Day number of a date: days since 1970-01-01. */
  function DayNumber(d: Date): int
    requires Valid(d)
  {
    YearStart(d.year) + MonthStart(d.year, d.month) + d.day - 1
  }

  lemma YearStartNext(y: int)
    ensures YearStart(y + 1) == YearStart(y) + DaysInYear(y)
  {
    assert y / 4 - (y - 1) / 4 == (if y % 4 == 0 then 1 else 0);
    assert y / 100 - (y - 1) / 100 == (if y % 100 == 0 then 1 else 0);
    assert y / 400 - (y - 1) / 400 == (if y % 400 == 0 then 1 else 0);
    assert y % 400 == 0 ==> y % 100 == 0 && y % 4 == 0;
    assert y % 100 == 0 ==> y % 4 == 0;
  }

  lemma YearStartCycles(y: int, q: int)
    ensures YearStart(y + 400 * q) == YearStart(y) + DAYS_PER_CYCLE * q
  {
    assert (y - 1 + 400 * q) / 4 == (y - 1) / 4 + 100 * q;
    assert (y - 1 + 400 * q) / 100 == (y - 1) / 100 + 4 * q;
    assert (y - 1 + 400 * q) / 400 == (y - 1) / 400 + q;
  }

  lemma {:induction false} YearStartMonotone(a: int, b: int)
    requires a <= b
    ensures YearStart(a) <= YearStart(b)
    decreases b - a
  {
    if a < b {
      YearStartMonotone(a, b - 1);
      YearStartNext(b - 1);
    }
  }

  lemma MonthStartYear(y: int)
    ensures MonthStart(y, 13) == DaysInYear(y)
  {
    var feb := DaysInMonth(y, 2);
    assert MonthStart(y, 2) == 31;
    assert MonthStart(y, 3) == 31 + feb;
    assert MonthStart(y, 4) == 62 + feb;
    assert MonthStart(y, 5) == 92 + feb;
    assert MonthStart(y, 6) == 123 + feb;
    assert MonthStart(y, 7) == 153 + feb;
    assert MonthStart(y, 8) == 184 + feb;
    assert MonthStart(y, 9) == 215 + feb;
    assert MonthStart(y, 10) == 245 + feb;
    assert MonthStart(y, 11) == 276 + feb;
    assert MonthStart(y, 12) == 306 + feb;
    assert MonthStart(y, 13) == 337 + feb;
  }

  lemma {:induction false} MonthStartMonotone(y: int, a: int, b: int)
    requires 1 <= a <= b <= 13
    ensures MonthStart(y, a) <= MonthStart(y, b)
    decreases b - a
  {
    if a < b {
      MonthStartMonotone(y, a, b - 1);
    }
  }

  /** The year holding day `z`, found by walking forward from year `y`
      at most one 400-year cycle; also the day's offset within that year. */
  function FindYear(y: int, r: int): (res: (int, int))
    requires 0 <= r
    ensures YearStart(res.0) + res.1 == YearStart(y) + r
    ensures 0 <= res.1 < DaysInYear(res.0)
    decreases r
  {
    if r < DaysInYear(y) then (y, r)
    else
      YearStartNext(y);
      FindYear(y + 1, r - DaysInYear(y))
  }

  /** The month holding day offset `r` of year `y`, walking from month `m`. */
  function FindMonth(y: int, m: int, r: int): (d: Date)
    requires 1 <= m <= 12 && 0 <= r && MonthStart(y, m) + r < DaysInYear(y)
    ensures Valid(d) && d.year == y
    ensures MonthStart(y, d.month) + d.day - 1 == MonthStart(y, m) + r
    decreases 12 - m
  {
    MonthStartYear(y);
    if m == 12 || r < DaysInMonth(y, m) then Date(y, m, r + 1)
    else FindMonth(y, m + 1, r - DaysInMonth(y, m))
  }

  /** The date of day number `z` (`LocalDate.ofEpochDay`). */
  function FromDayNumber(z: int): (d: Date)
    ensures Valid(d) && DayNumber(d) == z
  {
    var q := z / DAYS_PER_CYCLE;
    YearStartCycles(1970, q);
    var yr := FindYear(1970 + 400 * q, z % DAYS_PER_CYCLE);
    FindMonth(yr.0, 1, yr.1)
  }

  /** A valid date lies inside its year and its month. */
  lemma DayNumberBounds(d: Date)
    requires Valid(d)
    ensures YearStart(d.year) <= DayNumber(d) < YearStart(d.year + 1)
    ensures MonthStart(d.year, d.month) <= DayNumber(d) - YearStart(d.year) < MonthStart(d.year, d.month + 1)
  {
    var offset := MonthStart(d.year, d.month) + d.day - 1;
    assert MonthStart(d.year, d.month + 1) == MonthStart(d.year, d.month) + DaysInMonth(d.year, d.month);
    MonthStartMonotone(d.year, d.month + 1, 13);
    MonthStartMonotone(d.year, 1, d.month);
    MonthStartYear(d.year);
    assert 0 <= offset < DaysInYear(d.year);
    YearStartNext(d.year);
  }

  /** Distinct valid dates have distinct day numbers. */
  lemma DayNumberInjective(d1: Date, d2: Date)
    requires Valid(d1) && Valid(d2) && DayNumber(d1) == DayNumber(d2)
    ensures d1 == d2
  {
    DayNumberBounds(d1);
    DayNumberBounds(d2);
    if d1.year < d2.year {
      YearStartMonotone(d1.year + 1, d2.year);
    } else if d2.year < d1.year {
      YearStartMonotone(d2.year + 1, d1.year);
    }
    assert d1.year == d2.year;
    if d1.month < d2.month {
      MonthStartMonotone(d1.year, d1.month + 1, d2.month);
    } else if d2.month < d1.month {
      MonthStartMonotone(d1.year, d2.month + 1, d1.month);
    }
  }

  /** Breaking a day number down gives back the date it came from. */
  lemma FromDayNumberOfDayNumber(d: Date)
    requires Valid(d)
    ensures FromDayNumber(DayNumber(d)) == d
  {
    DayNumberInjective(FromDayNumber(DayNumber(d)), d);
  }

  /** Day number of the local date of an instant: `epochSecond` shifted by the
      zone offset, floor-divided by the length of a day. */
  function LocalEpochDay(epochSecond: int, offsetSeconds: int): int {
    (epochSecond + offsetSeconds) / SECONDS_PER_DAY
  }
}
