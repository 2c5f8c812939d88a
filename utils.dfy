/**
 * The schedule utilities of the medicine reminder: parsing a Singapore-time (UTC+8) wall-clock
 * string "DD/MM/YYYY, hh:mm:ss am|pm" into an instant, the next dose time and the time
 * remaining until it. Instants are milliseconds since the epoch, as `Date.getTime` gives them.
 */
module Utils {
  import opened Wrappers
  import opened EcmaTime
  import opened JsStrings
  import opened Types

  /** The Date a parse produces, or the exception it raises. */
  datatype Parsed =
    | At(ms: int)     // a valid Date with this time value
    | InvalidDate     // `new Date(NaN)`: some field was NaN, or the instant is out of range
    | Throws          // a TypeError: the time part or the meridiem is undefined

  /** Singapore time is UTC + 8 hours, with no daylight saving. */
  const SgtOffsetHours: int := 8

  /** The 12-hour to 24-hour conversion, applied to the lower-cased meridiem. */
  function To24Hour(hours: int, meridiem: string): (r: int)
    ensures 1 <= hours <= 12 && meridiem in {"am", "pm"} ==>
      && 0 <= r < 24
      && r % 12 == hours % 12
      && (r >= 12 <==> meridiem == "pm")
    ensures meridiem !in {"am", "pm"} ==> r == hours
  {
    if meridiem == "pm" && hours < 12 then hours + 12
    else if meridiem == "am" && hours == 12 then 0
    else hours
  }

  /**
   * `parseSGTStringToDate`: split on runs of commas and spaces, read day/month/year and
   * hours:minutes:seconds with `Number`, convert to 24-hour time and build the instant with
   * `Date.UTC(year, month - 1, day, hours - 8, minutes, seconds)`.
   */
  function ParseSgt(s: string): (r: Parsed)
    ensures r.Throws? <==> |Tokens(s)| < 3
    ensures r.At? ==> r.ms % MsPerSecond == 0 && -MaxTimeValue <= r.ms <= MaxTimeValue
  {
    ParseTokens(Tokens(s))
  }

  /** The parse after tokenising: destructuring `[datePart, timePart, meridiem]`. */
  function ParseTokens(tokens: seq<string>): (r: Parsed)
    ensures r.Throws? <==> |tokens| < 3
    ensures r.At? ==> r.ms % MsPerSecond == 0 && -MaxTimeValue <= r.ms <= MaxTimeValue
  {
    if |tokens| < 3 then Throws
    else ParseFields(SplitOn(tokens[0], '/'), SplitOn(tokens[1], ':'), ToLower(tokens[2]))
  }

  /** The parse of the date fields, the time fields and the lower-cased meridiem. */
  function ParseFields(date: seq<string>, time: seq<string>, meridiem: string): (r: Parsed)
    ensures !r.Throws?
    ensures r.At? ==> r.ms % MsPerSecond == 0 && -MaxTimeValue <= r.ms <= MaxTimeValue
  {
    var day, month, year := FieldNumber(date, 0), FieldNumber(date, 1), FieldNumber(date, 2);
    var hours, minutes, seconds := FieldNumber(time, 0), FieldNumber(time, 1), FieldNumber(time, 2);
    if day.None? || month.None? || year.None? || hours.None? || minutes.None? || seconds.None? then
      InvalidDate
    else
      SgtInstant(day.value, month.value, year.value, To24Hour(hours.value, meridiem),
                 minutes.value, seconds.value)
  }

  /** `Date.UTC(year, month - 1, day, hours - 8, minutes, seconds)` as a Date. */
  function SgtInstant(day: int, month: int, year: int, hours: int, minutes: int, seconds: int): (r: Parsed)
    ensures !r.Throws?
    ensures r.At? ==> r.ms % MsPerSecond == 0 && -MaxTimeValue <= r.ms <= MaxTimeValue
  {
    var t := DateUtc(year, month - 1, day, hours - SgtOffsetHours, minutes, seconds);
    if t.None? then InvalidDate
    else
      WholeSeconds(MakeDay(MakeFullYear(year), month - 1, day), hours - SgtOffsetHours, minutes, seconds);
      At(t.value)
  }

  /** An instant built from whole days, hours, minutes and seconds is a whole second. */
  lemma WholeSeconds(day: int, h: int, m: int, sec: int)
    ensures MakeDate(day, MakeTime(h, m, sec, 0)) % MsPerSecond == 0
  {
    assert MakeDate(day, MakeTime(h, m, sec, 0)) == 1000 * (day * 86400 + h * 3600 + m * 60 + sec);
  }

  // ---------------------------------------------------------------------------
  // Well-formed timestamps
  // ---------------------------------------------------------------------------

  /** The fields of a Singapore wall-clock timestamp as the dashboard's log rows carry them. */
  datatype SgtClock = SgtClock(day: nat, month: nat, year: nat,
                               hour: nat, minute: nat, second: nat, meridiem: string)

  /** In-range fields on a 12-hour clock; the meridiem may be written in any case. */
  predicate WellFormed(c: SgtClock) {
    && 1 <= c.day <= 31 && 1 <= c.month <= 12 && c.year <= 9999
    && 1 <= c.hour <= 12 && c.minute < 60 && c.second < 60
    && ToLower(c.meridiem) in {"am", "pm"}
  }

  /** The date token "DD/MM/YYYY". */
  function DateText(c: SgtClock): string {
    PadDigits(c.day, 2) + "/" + PadDigits(c.month, 2) + "/" + PadDigits(c.year, 4)
  }

  /** The time token "hh:mm:ss". */
  function TimeText(c: SgtClock): string {
    PadDigits(c.hour, 2) + ":" + PadDigits(c.minute, 2) + ":" + PadDigits(c.second, 2)
  }

  /** The timestamp text "DD/MM/YYYY, hh:mm:ss am" for a clock. */
  function Render(c: SgtClock): string {
    DateText(c) + ", " + TimeText(c) + " " + c.meridiem
  }

  /** The hour of the day (0 to 23) the clock shows. */
  function Hour24(c: SgtClock): (r: int)
    requires WellFormed(c)
    ensures 0 <= r < 24
  {
    To24Hour(c.hour, ToLower(c.meridiem))
  }

  /** The day number of the clock's calendar date (Date.UTC's reading of the year). */
  function CalendarDay(c: SgtClock): int {
    MakeDay(MakeFullYear(c.year), c.month - 1, c.day)
  }

  /** Milliseconds since midnight that the clock shows. */
  function ClockTimeOfDay(c: SgtClock): (r: int)
    requires WellFormed(c)
    ensures 0 <= r < MsPerDay
  {
    MakeTime(Hour24(c), c.minute, c.second, 0)
  }

  /** A well-formed timestamp splits into its date, its time and its meridiem. */
  lemma TokensOfRender(c: SgtClock)
    requires WellFormed(c)
    ensures Tokens(Render(c)) == [DateText(c), TimeText(c), c.meridiem]
  {
    assert NoDelimiter(DateText(c)) by {
      NoDelimiterJoin3(PadDigits(c.day, 2), '/', PadDigits(c.month, 2), PadDigits(c.year, 4));
    }
    assert NoDelimiter(TimeText(c)) && TimeText(c) != [] by {
      NoDelimiterJoin3(PadDigits(c.hour, 2), ':', PadDigits(c.minute, 2), PadDigits(c.second, 2));
    }
    MeridiemNoDelimiter(c.meridiem);
    ThreeTokens(DateText(c), TimeText(c), c.meridiem);
  }

  /** The numbers `Number` reads from the date and time tokens are the clock's fields. */
  lemma FieldsOfRender(c: SgtClock)
    requires WellFormed(c)
    ensures var date := SplitOn(DateText(c), '/');
      FieldNumber(date, 0) == Some(c.day) && FieldNumber(date, 1) == Some(c.month)
      && FieldNumber(date, 2) == Some(c.year)
    ensures var time := SplitOn(TimeText(c), ':');
      FieldNumber(time, 0) == Some(c.hour) && FieldNumber(time, 1) == Some(c.minute)
      && FieldNumber(time, 2) == Some(c.second)
  {
    SplitThree(PadDigits(c.day, 2), '/', PadDigits(c.month, 2), PadDigits(c.year, 4));
    SplitThree(PadDigits(c.hour, 2), ':', PadDigits(c.minute, 2), PadDigits(c.second, 2));
    PadDigitsValue(c.day, 2);
    PadDigitsValue(c.month, 2);
    PadDigitsValue(c.year, 4);
    PadDigitsValue(c.hour, 2);
    PadDigitsValue(c.minute, 2);
    PadDigitsValue(c.second, 2);
  }

  /** Parsing a well-formed timestamp computes Date.UTC of its fields with the hour moved back by 8. */
  lemma ParseRender(c: SgtClock)
    requires WellFormed(c)
    ensures ParseSgt(Render(c))
         == At(MakeDate(CalendarDay(c), MakeTime(Hour24(c) - SgtOffsetHours, c.minute, c.second, 0)))
  {
    RenderTokensParse(c);
    RenderFieldsParse(c);
    ClockInstant(c);
  }

  /** After tokenising, the parse of a well-formed timestamp reads its date and time fields. */
  lemma RenderTokensParse(c: SgtClock)
    requires WellFormed(c)
    ensures ParseSgt(Render(c))
         == ParseFields(SplitOn(DateText(c), '/'), SplitOn(TimeText(c), ':'), ToLower(c.meridiem))
  {
    TokensOfRender(c);
    assert ParseSgt(Render(c)) == ParseTokens([DateText(c), TimeText(c), c.meridiem]);
  }

  /** The fields of a well-formed timestamp are all numbers: the clock's own. */
  lemma RenderFieldsParse(c: SgtClock)
    requires WellFormed(c)
    ensures ParseFields(SplitOn(DateText(c), '/'), SplitOn(TimeText(c), ':'), ToLower(c.meridiem))
         == SgtInstant(c.day, c.month, c.year, Hour24(c), c.minute, c.second)
  {
    FieldsOfRender(c);
  }

  /** A well-formed clock denotes a valid Date. */
  lemma ClockInstant(c: SgtClock)
    requires WellFormed(c)
    ensures SgtInstant(c.day, c.month, c.year, Hour24(c), c.minute, c.second)
         == At(MakeDate(CalendarDay(c), MakeTime(Hour24(c) - SgtOffsetHours, c.minute, c.second, 0)))
  {
    MakeDayBounds(MakeFullYear(c.year), c.month - 1, c.day);
  }

  /**
   * Parsing a well-formed timestamp succeeds, and the instant it gives, read on a UTC+8 wall
   * clock, shows exactly the time of day written in the text, on `Date.UTC`'s day for the
   * written fields. That day is the written date for a real date from year 100 on
   * (ParseWrittenDate); otherwise `Date.UTC` rolls a day past the month's end into the next
   * month, and reads the years 0000 to 0099 as 1900 to 1999.
   */
  lemma ParseWellFormed(c: SgtClock)
    requires WellFormed(c)
    ensures ParseSgt(Render(c)).At?
    ensures var t := ParseSgt(Render(c)).ms;
      Day(t + SgtOffsetHours * MsPerHour) == CalendarDay(c)
      && TimeWithinDay(t + SgtOffsetHours * MsPerHour) == ClockTimeOfDay(c)
  {
    ParseRender(c);
    var day := CalendarDay(c);
    var t := ParseSgt(Render(c)).ms;
    assert t + SgtOffsetHours * MsPerHour == MakeDate(day, ClockTimeOfDay(c));
    DayOfMakeDate(day, ClockTimeOfDay(c));
  }

  /**
   * On the UTC calendar the parsed instant falls on `Date.UTC`'s day for the written fields
   * when the 24-hour time is 08:00 or later, and on the day before (at hour + 16) when it is
   * earlier.
   */
  lemma ParseUtcDay(c: SgtClock)
    requires WellFormed(c)
    ensures ParseSgt(Render(c)).At?
    ensures var t := ParseSgt(Render(c)).ms;
      && (Hour24(c) >= 8 ==> Day(t) == CalendarDay(c)
                             && TimeWithinDay(t) == MakeTime(Hour24(c) - 8, c.minute, c.second, 0))
      && (Hour24(c) < 8 ==> Day(t) == CalendarDay(c) - 1
                            && TimeWithinDay(t) == MakeTime(Hour24(c) + 16, c.minute, c.second, 0))
  {
    ParseWellFormed(c);
    var t := ParseSgt(Render(c)).ms;
    var day := CalendarDay(c);
    DayOfMakeDate(day, ClockTimeOfDay(c));
    assert t == MakeDate(day, ClockTimeOfDay(c)) - SgtOffsetHours * MsPerHour by {
      var u := t + SgtOffsetHours * MsPerHour;
      assert u == Day(u) * MsPerDay + TimeWithinDay(u);
    }
    assert t == MakeDate(day, MakeTime(Hour24(c) - 8, c.minute, c.second, 0));
    ShiftedClock(day, Hour24(c), c.minute, c.second, 8);
  }

  /** The written fields name a real calendar date, in a year `Date.UTC` keeps as written. */
  predicate ValidDate(c: SgtClock)
    requires WellFormed(c)
  {
    c.year >= 100 && c.day <= DaysInMonth(c.month - 1, InLeapYear(c.year))
  }

  /**
   * For a real date, the instant read on a UTC+8 wall clock falls in the written month of the
   * written year, on the written day of that month: `day - 1` days after the month's first
   * day and before the next month's first day.
   */
  lemma ParseWrittenDate(c: SgtClock)
    requires WellFormed(c) && ValidDate(c)
    ensures ParseSgt(Render(c)).At?
    ensures var d := Day(ParseSgt(Render(c)).ms + SgtOffsetHours * MsPerHour);
      var first, next := MakeDay(c.year, c.month - 1, 1), MakeDay(c.year, c.month, 1);
      first <= d < next && d == first + c.day - 1
  {
    ParseWellFormed(c);
    WrittenDateDay(c);
  }

  /** The calendar half of ParseWrittenDate: `Date.UTC`'s day of a real date is that date. */
  lemma WrittenDateDay(c: SgtClock)
    requires WellFormed(c) && ValidDate(c)
    ensures var first, next := MakeDay(c.year, c.month - 1, 1), MakeDay(c.year, c.month, 1);
      first <= CalendarDay(c) < next && CalendarDay(c) == first + c.day - 1
  {
    var y, m := c.year, c.month - 1;
    assert MakeFullYear(y) == y;
    assert m / 12 == 0 && m % 12 == m;
    var first := MakeDay(y, m, 1);
    assert CalendarDay(c) == first + c.day - 1 by { MakeDayDates(y, m, c.day); }
    assert MakeDay(y, m + 1, 1) == first + DaysInMonth(m, InLeapYear(y)) by {
      MakeDayNextMonth(y, m);
    }
  }

  /** A day past the end of the month rolls over: 31/02/2025 is read as 3 March 2025. */
  lemma ParseRollsOverMonthEnd(c: SgtClock)
    requires WellFormed(c) && c.day == 31 && c.month == 2 && c.year == 2025
    ensures !ValidDate(c)
    ensures ParseSgt(Render(c)).At?
    ensures Day(ParseSgt(Render(c)).ms + SgtOffsetHours * MsPerHour) == MakeDay(2025, 2, 3)
  {
    ParseWellFormed(c);
    FebruaryThirtyFirst(c);
  }

  /** The calendar half of ParseRollsOverMonthEnd. */
  lemma FebruaryThirtyFirst(c: SgtClock)
    requires c.day == 31 && c.month == 2 && c.year == 2025
    ensures CalendarDay(c) == MakeDay(2025, 2, 3)
    ensures c.day > DaysInMonth(c.month - 1, InLeapYear(c.year))
  {
    assert !InLeapYear(2025) by { assert 2025 % 4 == 1; }
    assert MakeFullYear(c.year) == 2025;
    assert 1 / 12 == 0 && 1 % 12 == 1 && 2 / 12 == 0 && 2 % 12 == 2;
    assert MakeDay(2025, 1, 31) == DayFromYear(2025) + 61;
    assert MakeDay(2025, 2, 3) == DayFromYear(2025) + 61;
  }

  /** Years 0000 to 0099 are read as 1900 to 1999: the parse lands in the twentieth century. */
  lemma ParseTwoDigitYearDay(c: SgtClock)
    requires WellFormed(c) && c.year < 100
    ensures !ValidDate(c)
    ensures ParseSgt(Render(c)).At?
    ensures Day(ParseSgt(Render(c)).ms + SgtOffsetHours * MsPerHour)
         == MakeDay(1900 + c.year, c.month - 1, c.day)
  {
    assert CalendarDay(c) == MakeDay(1900 + c.year, c.month - 1, c.day) by {
      assert MakeFullYear(c.year) == 1900 + c.year;
    }
    ParseWellFormed(c);
  }

  lemma NoDelimiterJoin3(a: string, sep: char, b: string, c: string)
    requires AllDigits(a) && AllDigits(b) && AllDigits(c) && !IsDelimiter(sep)
    ensures NoDelimiter(a + [sep] + b + [sep] + c)
  {
  }

  lemma MeridiemNoDelimiter(m: string)
    requires ToLower(m) in {"am", "pm"}
    ensures NoDelimiter(m) && m != []
  {
    assert |m| == 2;
    assert LowerChar(m[0]) in {'a', 'p'} && LowerChar(m[1]) == 'm';
  }

  /** Three digit groups joined by a separator split back into the three groups. */
  lemma SplitThree(a: string, sep: char, b: string, c: string)
    requires AllDigits(a) && AllDigits(b) && AllDigits(c) && !IsDigit(sep)
    ensures SplitOn(a + [sep] + b + [sep] + c, sep) == [a, b, c]
  {
    assert sep !in a && sep !in b && sep !in c;
    SplitOnAppend(a + [sep] + b, sep, c);
    SplitOnAppend(a, sep, b);
    SplitOnWithout(a, sep);
    SplitOnWithout(b, sep);
    SplitOnWithout(c, sep);
  }

  /** Two well-formed clocks showing the same day and 24-hour time parse to the same Date. */
  lemma ParseSameReading(c: SgtClock, d: SgtClock)
    requires WellFormed(c) && WellFormed(d)
    requires CalendarDay(c) == CalendarDay(d) && Hour24(c) == Hour24(d)
    requires c.minute == d.minute && c.second == d.second
    ensures ParseSgt(Render(c)) == ParseSgt(Render(d))
  {
    var t := MakeDate(CalendarDay(c), MakeTime(Hour24(c) - SgtOffsetHours, c.minute, c.second, 0));
    assert ParseSgt(Render(c)) == At(t) by { ParseRender(c); }
    assert ParseSgt(Render(d)) == At(t) by { ParseRender(d); }
  }

  /** Two-digit years are read by Date.UTC as 1900 to 1999. */
  lemma ParseTwoDigitYear(c: SgtClock)
    requires WellFormed(c) && c.year < 100
    ensures ParseSgt(Render(c)) == ParseSgt(Render(c.(year := c.year + 1900)))
  {
    var d := c.(year := c.year + 1900);
    assert WellFormed(d);
    assert CalendarDay(d) == CalendarDay(c);
    ParseSameReading(c, d);
  }

  /** The meridiem is compared case-insensitively: "PM", "Pm" and "pm" parse alike. */
  lemma ParseMeridiemCase(c: SgtClock, meridiem: string)
    requires WellFormed(c) && ToLower(meridiem) == ToLower(c.meridiem)
    ensures ParseSgt(Render(c.(meridiem := meridiem))) == ParseSgt(Render(c))
  {
    var d := c.(meridiem := meridiem);
    assert WellFormed(d);
    assert Hour24(d) == Hour24(c);
    ParseSameReading(d, c);
  }

  /** The day numbers of 16 and 17 August 2025. */
  lemma August17(c: SgtClock)
    requires 16 <= c.day <= 17 && c.month == 8 && c.year == 2025
    ensures CalendarDay(c) == 20300 + c.day
  {
    assert MakeFullYear(c.year) == 2025 && c.month - 1 == 7;
    assert 7 / 12 == 0 && 7 % 12 == 7;
    assert DayFromYear(2025) == 20089 by {
      assert (2025 - 1969) / 4 == 14 && (2025 - 1901) / 100 == 1 && (2025 - 1601) / 400 == 1;
    }
    assert !InLeapYear(2025) by { assert 2025 % 4 == 1; }
    assert MonthStart(7, false) == 212;
  }

  /** The example clocks are well-formed. */
  lemma ExampleClockWellFormed(hour: nat, meridiem: string)
    requires hour == 8 || hour == 3
    requires meridiem == "am" || meridiem == "pm"
    ensures WellFormed(SgtClock(17, 8, 2025, hour, 0, 0, meridiem))
  {
    LowerIsAm(meridiem);
    LowerIsPm(meridiem);
  }

  /** The text of an on-the-hour clock on 17 August 2025 before 10 o'clock. */
  lemma August17Text(c: SgtClock)
    requires c.day == 17 && c.month == 8 && c.year == 2025
    requires 0 <= c.hour < 10 && c.minute == 0 && c.second == 0
    ensures Render(c) == "17/08/2025, 0" + [DigitChar(c.hour)] + ":00:00 " + c.meridiem
  {
    August17Date(c);
    OnTheHourTime(c);
  }

  lemma August17Date(c: SgtClock)
    requires c.day == 17 && c.month == 8 && c.year == 2025
    ensures DateText(c) == "17/08/2025"
  {
    Pad2(c.day);
    Pad2(c.month);
    Pad4(c.year);
  }

  lemma OnTheHourTime(c: SgtClock)
    requires 0 <= c.hour < 10 && c.minute == 0 && c.second == 0
    ensures TimeText(c) == "0" + [DigitChar(c.hour)] + ":00:00"
  {
    Pad2(c.hour);
    Pad2(c.minute);
  }

  /** 17/08/2025 at 08:00:00 pm in Singapore is 17 August 2025 12:00:00 UTC. */
  lemma ParseEveningExample(c: SgtClock)
    requires c.day == 17 && c.month == 8 && c.year == 2025
    requires c.hour == 8 && c.minute == 0 && c.second == 0 && c.meridiem == "pm"
    ensures ParseSgt(Render(c)) == At(1_755_432_000_000)
  {
    ExampleClockWellFormed(c.hour, c.meridiem);
    August17(c);
    LowerIsPm(c.meridiem);
    assert Hour24(c) == 20;
    ParseRender(c);
  }

  /** 17/08/2025 at 03:00:00 am in Singapore is 16 August 2025 19:00:00 UTC: the day rolls back. */
  lemma ParseEarlyMorningExample(c: SgtClock)
    requires c.day == 17 && c.month == 8 && c.year == 2025
    requires c.hour == 3 && c.minute == 0 && c.second == 0 && c.meridiem == "am"
    ensures ParseSgt(Render(c)) == At(1_755_370_800_000)
    ensures Day(1_755_370_800_000) == MakeDay(2025, 7, 16)
    ensures TimeWithinDay(1_755_370_800_000) == MakeTime(19, 0, 0, 0)
  {
    assert ParseSgt(Render(c)) == At(1_755_370_800_000) by {
      ExampleClockWellFormed(c.hour, c.meridiem);
      August17(c);
      LowerIsAm(c.meridiem);
      assert Hour24(c) == 3;
      ParseRender(c);
    }
    August17(c.(day := 16));
  }

  /** Text without a time token, or without a meridiem after it, makes the parse throw. */
  lemma ParseMissingTokens(date: string, time: string)
    requires NoDelimiter(date) && NoDelimiter(time) && time != []
    ensures ParseSgt(date) == Throws
    ensures ParseSgt(date + ", " + time) == Throws
  {
    TokensOfWord(date);
    assert |Tokens(date + ", " + time)| == 2 by {
      SkipDelimitersRun(", ", time);
      TokensOfWord(time);
      TokensPrefix(date, ", " + time);
      assert date + ", " + time == date + (", " + time);
    }
  }

  /**
   * With three tokens, a date with fewer than three `/`-fields or a time with fewer than three
   * `:`-fields leaves a field `undefined`, and the Date is invalid.
   */
  lemma ParseMissingField(s: string)
    requires |Tokens(s)| >= 3
    requires |SplitOn(Tokens(s)[0], '/')| < 3 || |SplitOn(Tokens(s)[1], ':')| < 3
    ensures ParseSgt(s) == InvalidDate
  {
  }

  /** A character other than a digit in any field makes that field NaN, and the Date invalid. */
  lemma ParseNonDigitField(s: string, i: nat)
    requires |Tokens(s)| >= 3 && i < 3
    requires (i < |SplitOn(Tokens(s)[0], '/')| && !AllDigits(SplitOn(Tokens(s)[0], '/')[i]))
          || (i < |SplitOn(Tokens(s)[1], ':')| && !AllDigits(SplitOn(Tokens(s)[1], ':')[i]))
    ensures ParseSgt(s) == InvalidDate
  {
    var tokens := Tokens(s);
    var date, time := SplitOn(tokens[0], '/'), SplitOn(tokens[1], ':');
    var meridiem := ToLower(tokens[2]);
    assert ParseSgt(s) == ParseTokens(tokens);
    assert ParseTokens(tokens) == ParseFields(date, time, meridiem);
    assert FieldNumber(date, i).None? || FieldNumber(time, i).None?;
    assert ParseFields(date, time, meridiem) == InvalidDate by {
      assert i == 0 || i == 1 || i == 2;
    }
  }

  /** "a, b c" style text with three delimiter-free words has exactly those three tokens. */
  lemma ThreeTokens(a: string, b: string, m: string)
    requires NoDelimiter(a) && NoDelimiter(b) && NoDelimiter(m) && b != [] && m != []
    ensures Tokens(a + ", " + b + " " + m) == [a, b, m]
  {
    var tail := b + (" " + m);
    assert Tokens(tail) == [b, m] by {
      SkipDelimitersRun(" ", m);
      TokensPrefix(b, " " + m);
      TokensOfWord(m);
    }
    assert a + ", " + b + " " + m == a + (", " + tail);
    SkipDelimitersRun(", ", tail);
    TokensPrefix(a, ", " + tail);
  }

  // ---------------------------------------------------------------------------
  // Dose arithmetic
  // ---------------------------------------------------------------------------

  /**
   * Dose counts whose interval `24 / timesPerDay` hours is a whole number of milliseconds;
   * zero, which the default record carries, has no interval at all.
   */
  predicate ValidDoseCount(timesPerDay: int) {
    timesPerDay > 0 && MsPerDay % timesPerDay == 0
  }

  /** The interval between doses: `timesPerDay` intervals make up exactly one day. */
  function DoseIntervalMs(timesPerDay: int): (r: int)
    requires ValidDoseCount(timesPerDay)
    ensures r > 0 && r * timesPerDay == MsPerDay
  {
    MsPerDay / timesPerDay
  }

  /**
   * `calcNextDoseTime`: the Date one dose interval after the last dose, or the current moment
   * when there is no last dose. `new Date(t)` applies TimeClip, so a sum beyond the range of
   * valid instants gives an invalid Date (None).
   */
  function CalcNextDoseTime(timesPerDay: int, lastDoseTime: Option<int>, now: int): (r: Option<int>)
    requires ValidDoseCount(timesPerDay)
    ensures lastDoseTime.None? ==> r == Some(now)
    ensures lastDoseTime.Some? ==>
      (r.Some? <==> -MaxTimeValue <= lastDoseTime.value + MsPerDay / timesPerDay <= MaxTimeValue)
    ensures lastDoseTime.Some? && r.Some? ==>
      r.value > lastDoseTime.value && (r.value - lastDoseTime.value) * timesPerDay == MsPerDay
  {
    match lastDoseTime
    case Some(last) => TimeClip(last + DoseIntervalMs(timesPerDay))
    case None => Some(now)
  }

  /** One day after the last valid instant there is no valid Date: the next dose is invalid. */
  lemma NextDoseAfterLastInstant(now: int)
    ensures CalcNextDoseTime(1, Some(MaxTimeValue), now) == None
    ensures CalcNextDoseTime(1, Some(MaxTimeValue - MsPerDay), now) == Some(MaxTimeValue)
  {
  }

  /**
   * The dose time reached by taking every dose on time, k doses after `start`; an invalid
   * Date stays invalid.
   */
  function DoseAfter(timesPerDay: int, start: int, k: nat): Option<int>
    requires ValidDoseCount(timesPerDay)
  {
    if k == 0 then Some(start)
    else
      match DoseAfter(timesPerDay, start, k - 1)
      case None => None
      case Some(t) => CalcNextDoseTime(timesPerDay, Some(t), start)
  }

  /**
   * Doses taken on time from a valid Date are evenly spaced: the k-th is the Date k intervals
   * after the start, invalid once that leaves the range of valid instants.
   */
  lemma {:induction false} DoseAfterSpacing(timesPerDay: int, start: int, k: nat)
    requires ValidDoseCount(timesPerDay)
    requires -MaxTimeValue <= start <= MaxTimeValue
    ensures DoseAfter(timesPerDay, start, k) == TimeClip(start + k * DoseIntervalMs(timesPerDay))
  {
    if k > 0 {
      var i := DoseIntervalMs(timesPerDay);
      DoseAfterSpacing(timesPerDay, start, k - 1);
      assert (k - 1) * i + i == k * i;
      assert (k - 1) * i >= 0;
    }
  }

  /** `timesPerDay` consecutive doses taken on time span exactly one day. */
  lemma DosesFillOneDay(timesPerDay: int, start: int)
    requires ValidDoseCount(timesPerDay)
    requires -MaxTimeValue <= start <= MaxTimeValue
    ensures DoseAfter(timesPerDay, start, timesPerDay) == TimeClip(start + MsPerDay)
  {
    DoseAfterSpacing(timesPerDay, start, timesPerDay);
  }

  /** Twice a day, a dose at 8 am Singapore time is followed by one at 8 pm the same day. */
  lemma NextDoseExample(morning: SgtClock, evening: SgtClock, now: int)
    requires morning.day == 17 && morning.month == 8 && morning.year == 2025
    requires morning.hour == 8 && morning.minute == 0 && morning.second == 0 && morning.meridiem == "am"
    requires evening == morning.(meridiem := "pm")
    ensures ParseSgt(Render(morning)).At? && ParseSgt(Render(evening)).At?
    ensures CalcNextDoseTime(2, Some(ParseSgt(Render(morning)).ms), now) == Some(ParseSgt(Render(evening)).ms)
  {
    assert ParseSgt(Render(morning)) == At(1_755_388_800_000) by {
      ExampleClockWellFormed(morning.hour, morning.meridiem);
      August17(morning);
      LowerIsAm(morning.meridiem);
      assert Hour24(morning) == 8;
      ParseRender(morning);
    }
    ParseEveningExample(evening);
    assert DoseIntervalMs(2) == 43_200_000;
  }

  /**
   * `calcRemainingTimeForMedicine`: the milliseconds from `now` until the next dose, floored
   * at zero once it is due. None stands for the NaN that `Math.max` returns when the next
   * dose time is an invalid Date.
   */
  function CalcRemainingTime(m: Medicine, now: int): (r: Option<int>)
    ensures r.None? <==> m.nextDoseTime.None?
    ensures r.Some? ==> r.value >= 0
    ensures r.Some? ==> (r.value == 0 <==> now >= m.nextDoseTime.value)
    ensures r.Some? && r.value > 0 ==> now + r.value == m.nextDoseTime.value
  {
    match m.nextDoseTime
    case None => None
    case Some(next) => Some(if next - now > 0 then next - now else 0)
  }

  /**
   * As time passes the remaining time never grows, and it shrinks by no more than the time
   * that passed.
   */
  lemma RemainingNonIncreasing(m: Medicine, now: int, later: int)
    requires now <= later
    ensures m.nextDoseTime.Some? ==>
      CalcRemainingTime(m, later).value <= CalcRemainingTime(m, now).value
    ensures m.nextDoseTime.Some? ==>
      CalcRemainingTime(m, now).value - CalcRemainingTime(m, later).value <= later - now
  {
  }

  /** The default record is due the moment it is created, and its dose count has no interval. */
  lemma DefaultMedicineDue(now: int)
    ensures CalcRemainingTime(DefaultMedicine(now), now) == Some(0)
    ensures !ValidDoseCount(DefaultMedicine(now).timesPerDay)
  {
  }
}
