/**
 * Dates and hourly timestamps.  A date is a day number counted from
 * 1970-01-01 (proleptic Gregorian calendar); a DATETIME is an hour number
 * counted from 1970-01-01T00:00, so that date d at hour h is `d * 24 + h`.
 */
module Calendar {

  const HoursPerDay: int := 24

  /** DAYS_TO_CHECK: how many days before the latest stored date are fetched again. */
  const DaysToCheck: int := 7

  /** Day number of the civil date y-m-d (m in 1..12, d in 1..31). */
  function DaysFromCivil(y: int, m: int, d: int): int
    requires 1 <= m <= 12 && 1 <= d <= 31
  {
    var y' := if m <= 2 then y - 1 else y;
    var era := y' / 400;
    var yoe := y' - era * 400;
    var doy := (153 * (if m > 2 then m - 3 else m + 9) + 2) / 5 + d - 1;
    var doe := yoe * 365 + yoe / 4 - yoe / 100 + doy;
    era * 146097 + doe - 719468
  }

  /** The earliest date ever downloaded: 2023-01-01. */
  const FloorDay: int := DaysFromCivil(2023, 1, 1)

  /** The DATETIME of date `day` plus `hour` hours (the HOUR column of the melted frame). */
  function Stamp(day: int, hour: int): (s: int)
    ensures 0 <= hour < HoursPerDay ==> DayOf(s) == day && HourOfDay(s) == hour
  {
    day * HoursPerDay + hour
  }

  /** `.date()` of a DATETIME: the day it falls on (floor division). */
  function DayOf(stamp: int): (d: int)
    ensures d * HoursPerDay <= stamp < (d + 1) * HoursPerDay
  {
    stamp / HoursPerDay
  }

  /** The hour of the day of a DATETIME, counted from midnight. */
  function HourOfDay(stamp: int): (h: int)
    ensures 0 <= h < HoursPerDay && stamp == DayOf(stamp) * HoursPerDay + h
  {
    stamp % HoursPerDay
  }

  /** Hours H1..H23 fall on their own date; H24 falls on hour 0 of the next date. */
  lemma DayOfStamp(day: int, hour: int)
    requires 1 <= hour <= HoursPerDay
    ensures DayOf(Stamp(day, hour)) == if hour == HoursPerDay then day + 1 else day
  {
  }

  /** Distinct (date, hour) pairs with hours in 1..24 give distinct timestamps. */
  lemma StampInjective(d1: int, h1: int, d2: int, h2: int)
    requires 1 <= h1 <= HoursPerDay && 1 <= h2 <= HoursPerDay
    requires Stamp(d1, h1) == Stamp(d2, h2)
    ensures d1 == d2 && h1 == h2
  {
  }

  lemma DayOfMonotonic(a: int, b: int)
    requires a <= b
    ensures DayOf(a) <= DayOf(b)
  {
  }

  lemma FloorDayValue()
    ensures FloorDay == 19358
  {
  }

  /** The cell of hour column H`h` lies at hour h of the day, H24 at midnight. */
  lemma StampHour(day: int, h: int)
    requires 1 <= h <= HoursPerDay
    ensures HourOfDay(Stamp(day, h)) == h % HoursPerDay
  {
  }
}
