/**
 * The time-value arithmetic of ECMA-262 section 21.4.1 ("Time Values and Time Range"),
 * which `Date.UTC`, `getTime`, `getHours` and `getMinutes` are defined by.
 * A time value is an integer number of milliseconds since 1 January 1970 00:00:00 UTC.
 * Dafny's `/` and `%` with a positive divisor are floor division and mathematical modulo,
 * which is what the standard's `floor` and `modulo` mean.
 */
module EcmaTime {
  import opened Wrappers

  const MsPerSecond: int := 1000
  const MsPerMinute: int := 60_000
  const MsPerHour: int := 3_600_000
  const MsPerDay: int := 86_400_000

  /** The largest magnitude TimeClip accepts (section 21.4.1.31). */
  const MaxTimeValue: int := 8_640_000_000_000_000

  /** Day(t): the day number of a time value. */
  function Day(t: int): int { t / MsPerDay }

  /** TimeWithinDay(t): milliseconds since the start of that day. */
  function TimeWithinDay(t: int): int { t % MsPerDay }

  /** Whether the year has 366 days (the rule of DaysInYear). */
  predicate InLeapYear(y: int) {
    y % 4 == 0 && (y % 100 != 0 || y % 400 == 0)
  }

  function DaysInYear(y: int): int {
    if InLeapYear(y) then 366 else 365
  }

  /** DayFromYear(y): the day number of 1 January of year y. */
  function DayFromYear(y: int): int {
    365 * (y - 1970) + (y - 1969) / 4 - (y - 1901) / 100 + (y - 1601) / 400
  }

  /** Length of month m (0 = January) in a year that is a leap year or not. */
  function DaysInMonth(m: int, leap: bool): int
    requires 0 <= m < 12
  {
    if m == 1 then (if leap then 29 else 28)
    else if m == 3 || m == 5 || m == 8 || m == 10 then 30
    else 31
  }

  /**
   * Day within the year on which month m starts: the thresholds of MonthFromTime
   * (section 21.4.1.11), 0, 31, 59+L, 90+L, ..., 334+L.
   */
  function MonthStart(m: int, leap: bool): int
    requires 0 <= m < 12
  {
    var l := if leap then 1 else 0;
    if m == 0 then 0
    else if m == 1 then 31
    else if m == 2 then 59 + l
    else if m == 3 then 90 + l
    else if m == 4 then 120 + l
    else if m == 5 then 151 + l
    else if m == 6 then 181 + l
    else if m == 7 then 212 + l
    else if m == 8 then 243 + l
    else if m == 9 then 273 + l
    else if m == 10 then 304 + l
    else 334 + l
  }

  /**
   * MakeDay(year, month, date) (section 21.4.1.28): the month is normalised into the year
   * (`ym = year + floor(month / 12)`, `mn = month modulo 12`), then the day number of the
   * first of that month is found and `date - 1` added, so an out-of-range date rolls over.
   */
  function MakeDay(year: int, month: int, date: int): int {
    var ym := year + month / 12;
    var mn := month % 12;
    DayFromYear(ym) + MonthStart(mn, InLeapYear(ym)) + date - 1
  }

  /** MakeTime(hour, min, sec, ms) (section 21.4.1.27); no field is range-checked. */
  function MakeTime(hour: int, min: int, sec: int, ms: int): int {
    hour * MsPerHour + min * MsPerMinute + sec * MsPerSecond + ms
  }

  /** MakeDate(day, time) (section 21.4.1.29). */
  function MakeDate(day: int, time: int): int {
    day * MsPerDay + time
  }

  /** TimeClip(time) (section 21.4.1.31): None stands for NaN, an invalid Date. */
  function TimeClip(time: int): (r: Option<int>)
    ensures r.Some? <==> -MaxTimeValue <= time <= MaxTimeValue
    ensures r.Some? ==> r.value == time
  {
    if time < -MaxTimeValue || MaxTimeValue < time then None else Some(time)
  }

  /** MakeFullYear (section 21.4.1.30 and Date.UTC): years 0 to 99 mean 1900 to 1999. */
  function MakeFullYear(y: int): (r: int)
    ensures 0 <= y <= 99 ==> r == 1900 + y
    ensures (y < 0 || 99 < y) ==> r == y
  {
    if 0 <= y <= 99 then 1900 + y else y
  }

  /**
   * Date.UTC(year, month, date, hours, minutes, seconds) with integer arguments
   * (section 21.4.3.4); None is NaN.
   */
  function DateUtc(year: int, month: int, date: int, hours: int, minutes: int, seconds: int): Option<int> {
    TimeClip(MakeDate(MakeDay(MakeFullYear(year), month, date), MakeTime(hours, minutes, seconds, 0)))
  }

  /** HourFromTime(t) (section 21.4.1.14). */
  function HourFromTime(t: int): (r: int)
    ensures 0 <= r < 24
  {
    (t / MsPerHour) % 24
  }

  /** MinFromTime(t) (section 21.4.1.15). */
  function MinFromTime(t: int): (r: int)
    ensures 0 <= r < 60
  {
    (t / MsPerMinute) % 60
  }

  /**
   * LocalTime(t) (section 21.4.1.25): the host's time-zone offset in milliseconds is
   * a parameter, since it comes from the environment.
   */
  function LocalTime(t: int, offsetMs: int -> int): int {
    t + offsetMs(t)
  }

  // ---------------------------------------------------------------------------
  // Properties of the calendar arithmetic
  // ---------------------------------------------------------------------------

  /** Consecutive years are DaysInYear apart: DayFromYear agrees with the leap-year rule. */
  lemma DayFromYearStep(y: int)
    ensures DayFromYear(y + 1) == DayFromYear(y) + DaysInYear(y)
  {
    // Each floor term of DayFromYear steps up exactly when y is a multiple of its divisor,
    // and the divisors nest: a multiple of 400 is one of 100, and a multiple of 100 one of 4.
    FloorStep4(y);
    FloorStep100(y);
    FloorStep400(y);
    MultiplesNest(y);
    var step := (if y % 4 == 0 then 1 else 0) - (if y % 100 == 0 then 1 else 0)
              + (if y % 400 == 0 then 1 else 0);
    assert DayFromYear(y + 1) == DayFromYear(y) + 365 + step;
    assert step == (if InLeapYear(y) then 1 else 0);
  }

  lemma MultiplesNest(y: int)
    ensures y % 400 == 0 ==> y % 100 == 0
    ensures y % 100 == 0 ==> y % 4 == 0
  {
    if y % 400 == 0 {
      var q := y / 400;
      assert y == 400 * q;
      assert y / 100 == 4 * q;
    }
    if y % 100 == 0 {
      var q := y / 100;
      assert y == 100 * q;
      assert y / 4 == 25 * q;
    }
  }

  lemma FloorStep4(y: int)
    ensures (y - 1968) / 4 == (y - 1969) / 4 + (if y % 4 == 0 then 1 else 0)
  {
    var q, r := (y - 1969) / 4, (y - 1969) % 4;
    assert y == 4 * (q + 492) + r + 1;
  }

  lemma FloorStep100(y: int)
    ensures (y - 1900) / 100 == (y - 1901) / 100 + (if y % 100 == 0 then 1 else 0)
  {
    var q, r := (y - 1901) / 100, (y - 1901) % 100;
    assert y == 100 * (q + 19) + r + 1;
  }

  lemma FloorStep400(y: int)
    ensures (y - 1600) / 400 == (y - 1601) / 400 + (if y % 400 == 0 then 1 else 0)
  {
    var q, r := (y - 1601) / 400, (y - 1601) % 400;
    assert y == 400 * (q + 4) + r + 1;
  }

  /** MonthStart plus the month's length is the next month's start; December ends the year. */
  lemma MonthStartStep(m: int, leap: bool)
    requires 0 <= m < 12
    ensures m < 11 ==> MonthStart(m + 1, leap) == MonthStart(m, leap) + DaysInMonth(m, leap)
    ensures m == 11 ==> MonthStart(m, leap) + DaysInMonth(m, leap) == (if leap then 366 else 365)
  {
  }

  /**
   * The first days of consecutive months are exactly one month length apart, for every
   * month index (an out-of-range month is normalised into the right year first).
   */
  lemma MakeDayNextMonth(year: int, month: int)
    ensures MakeDay(year, month + 1, 1)
         == MakeDay(year, month, 1) + DaysInMonth(month % 12, InLeapYear(year + month / 12))
  {
    var ym, mn := year + month / 12, month % 12;
    MonthStartStep(mn, InLeapYear(ym));
    NextMonthIndex(month);
    if mn == 11 {
      DayFromYearStep(ym);
    }
  }

  /** The year offset and month index of the month after `month`. */
  lemma NextMonthIndex(month: int)
    ensures month % 12 == 11 ==> (month + 1) / 12 == month / 12 + 1 && (month + 1) % 12 == 0
    ensures month % 12 != 11 ==> (month + 1) / 12 == month / 12 && (month + 1) % 12 == month % 12 + 1
  {
    var q, r := month / 12, month % 12;
    assert month + 1 == 12 * q + (r + 1);
    if r == 11 {
      assert month + 1 == 12 * (q + 1);
    }
  }

  /**
   * The day before the first of a month is the last day of the previous month
   * (this is how a negative UTC hour rolls back across a month boundary).
   */
  lemma DayBeforeFirstOfMonth(year: int, month: int)
    ensures MakeDay(year, month, 1) - 1
         == MakeDay(year, month - 1, DaysInMonth((month - 1) % 12, InLeapYear(year + (month - 1) / 12)))
  {
    MakeDayNextMonth(year, month - 1);
  }

  /** MakeDay over the dates of one month counts days consecutively. */
  lemma MakeDayDates(year: int, month: int, date: int)
    ensures MakeDay(year, month, date) == MakeDay(year, month, 1) + date - 1
  {
  }

  /** MakeDate is undone by Day and TimeWithinDay when the time lies within one day. */
  lemma DayOfMakeDate(day: int, time: int)
    requires 0 <= time < MsPerDay
    ensures Day(MakeDate(day, time)) == day
    ensures TimeWithinDay(MakeDate(day, time)) == time
  {
    var t := MakeDate(day, time);
    assert t == day * MsPerDay + time;
  }

  /**
   * A time of day shifted back by `shift` hours (0 <= shift <= 24): when the hour is at least
   * the shift the instant stays on the same day, otherwise it falls on the previous day at
   * hour + 24 - shift. This is how `Date.UTC` normalises a negative hour.
   */
  lemma ShiftedClock(day: int, hour: int, min: int, sec: int, shift: int)
    requires 0 <= hour < 24 && 0 <= min < 60 && 0 <= sec < 60 && 0 <= shift <= 24
    ensures var t := MakeDate(day, MakeTime(hour - shift, min, sec, 0));
      && (hour >= shift ==> Day(t) == day && TimeWithinDay(t) == MakeTime(hour - shift, min, sec, 0))
      && (hour < shift ==> Day(t) == day - 1 && TimeWithinDay(t) == MakeTime(hour + 24 - shift, min, sec, 0))
  {
    if hour >= shift {
      DayOfMakeDate(day, MakeTime(hour - shift, min, sec, 0));
    } else {
      assert MakeDate(day, MakeTime(hour - shift, min, sec, 0))
          == MakeDate(day - 1, MakeTime(hour + 24 - shift, min, sec, 0));
      DayOfMakeDate(day - 1, MakeTime(hour + 24 - shift, min, sec, 0));
    }
  }

  /** For four-digit years every day number of a date stays far inside the TimeClip range. */
  lemma MakeDayBounds(year: int, month: int, date: int)
    requires 0 <= year <= 9999 && 0 <= month < 12 && 0 <= date <= 99
    ensures -800_000 <= MakeDay(year, month, date) <= 3_000_000
  {
    assert month / 12 == 0 && month % 12 == month;
  }

  /** The epoch is day 0. */
  lemma EpochIsDayZero()
    ensures MakeDay(1970, 0, 1) == 0
  {
  }
}
