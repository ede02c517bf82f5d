/**
 * Calendar fields of a timestamp, on whole epoch seconds (UTC, as pandas'
 * `to_datetime(..., unit='s')` produces them): the day index counted from
 * 1970-01-01, the hour of the day and the weekday with Monday = 0.
 */
module Calendar {

  const SecondsPerHour: int := 3600
  const SecondsPerDay: int := 86400

  /** 1970-01-01, day 0, was a Thursday. */
  const EpochWeekday: int := 3

  /**
   * Days since 1970-01-01 of a proleptic Gregorian date (the usual era-based
   * days-from-civil computation; months start in March so that the leap day is last).
   */
  function DaysFromCivil(year: int, month: int, day: int): int
    requires 1 <= month <= 12 && 1 <= day <= 31
  {
    var y := if month <= 2 then year - 1 else year;
    var era := y / 400;
    var yoe := y - era * 400;
    var mp := if month > 2 then month - 3 else month + 9;
    var doy := (153 * mp + 2) / 5 + day - 1;
    var doe := yoe * 365 + yoe / 4 - yoe / 100 + doy;
    era * 146097 + doe - 719468
  }

  /** `pd.Timestamp('2021-01-31')`, the day every trace is moved to start on. */
  const ReferenceDay: int := DaysFromCivil(2021, 1, 31)
  const ReferenceTimestamp: int := ReferenceDay * SecondsPerDay

  /** `.dt.date`, as a day index: the day containing t (floor division, also before 1970). */
  function Date(t: int): (d: int)
    ensures d * SecondsPerDay <= t < (d + 1) * SecondsPerDay
  {
    t / SecondsPerDay
  }

  /** `.dt.hour` */
  function Hour(t: int): (h: int)
    ensures 0 <= h < 24
    ensures Date(t) * SecondsPerDay + h * SecondsPerHour <= t < Date(t) * SecondsPerDay + (h + 1) * SecondsPerHour
  {
    (t % SecondsPerDay) / SecondsPerHour
  }

  /** Weekday of a day index, Monday = 0 .. Sunday = 6. */
  function WeekdayOfDay(d: int): (w: int)
    ensures 0 <= w < 7
  {
    (d + EpochWeekday) % 7
  }

  /** `.dt.dayofweek` */
  function DayOfWeek(t: int): (w: int)
    ensures 0 <= w < 7
  {
    WeekdayOfDay(Date(t))
  }

  /** 2021-01-31 is day 18658, a Sunday, and its first second falls in hour 0. */
  lemma ReferenceIsSundayMidnight()
    ensures ReferenceDay == 18658 && ReferenceTimestamp == 1612051200
    ensures Date(ReferenceTimestamp) == ReferenceDay
    ensures Hour(ReferenceTimestamp) == 0
    ensures DayOfWeek(ReferenceTimestamp) == 6
  {
  }

  /** Timestamps on the same day share a weekday; the weekday advances by one each day. */
  lemma WeekdayFollowsDate(t: int, u: int)
    ensures Date(t) == Date(u) ==> DayOfWeek(t) == DayOfWeek(u)
    ensures Date(u) == Date(t) + 1 ==> DayOfWeek(u) == (DayOfWeek(t) + 1) % 7
  {
  }
}
