# PillPal schedule, dispenser and adherence-log model

A Dafny model of the decision logic in the PillPal medicine-reminder dashboard:

- **Timestamp parsing** (`src/lib/utils.ts`). `parseSGTStringToDate` reads a Singapore-time
  wall clock `"DD/MM/YYYY, hh:mm:ss am|pm"`. It tokenises the text on runs of commas and
  spaces, splits the date on `/` and the time on `:`, and reads each field with `Number`.
  It converts 12-hour time to 24-hour time. It then calls `Date.UTC` with the hour moved
  back by 8. Instants are integer milliseconds since the epoch. `Date.UTC` is modelled by
  the time-value operations of ECMA-262 section 21.4.1 (MakeDay, MakeTime, MakeDate,
  TimeClip, and the rule that years 0 to 99 mean 1900 to 1999). The parser returns an
  instant, an invalid Date (a NaN field or an out-of-range instant), or a thrown TypeError
  (a missing time part or meridiem). The parser has no time-zone input: its result depends
  on the text alone.
- **Dose arithmetic** (`src/lib/utils.ts`). The next dose is one interval
  (`24 / timesPerDay` hours) after the last one, or "now" when there is none. It is an
  invalid Date when that instant lies beyond the range of valid instants. The remaining
  time is `max(0, nextDoseTime - now)`, which is NaN for an invalid Date. "Now" is a
  parameter. Dates are `Option<int>` and NaN results are `None`.
- **Dispenser box** (`src/components/Medicine/MedicineDispenserBox.tsx`). A class holds the
  pill count, the animation lock, the number of `onDispense` calls made, and the number of
  pending completion callbacks (ghost). `Dispense` is the click handler. `FinishAnimation`
  is the `setTimeout` callback.
- **Dashboards** (`src/pages/DashboardPageOld.tsx`, `src/pages/DashboardPage.tsx`). These
  cover the unique medicine names, the default selection, the filtered rows, the graph
  points and the table rows. The host time zone read by `getHours`/`getMinutes` is a
  parameter: a function giving the offset at an instant. A graph derivation returns `None`
  when a parse throws, since the page's render then throws too.

Files: `wrappers.dfy` (Option), `ecma_time.dfy` (ECMA-262 time values), `js_strings.dfy`
(the JavaScript string operations used), `medicine.dfy`, `utils.dfy`, `dispenser_box.dfy`,
`logs.dfy` (the log row shared by both pages), `dashboard_old.dfy`, `dashboard.dfy`.

## Model

| member | source | states |
|---|---|---|
| `EcmaTime.TimeClip` | src/lib/utils.ts:37-39 | an instant is valid exactly when its magnitude is at most 8.64e15 ms, and it is then unchanged |
| `EcmaTime.MakeFullYear` | src/lib/utils.ts:38 | `Date.UTC` reads years 0 to 99 as 1900 to 1999 and keeps every other year |
| `EcmaTime.HourFromTime` | src/pages/DashboardPageOld.tsx:73 | the hour of an instant lies in [0, 23] |
| `EcmaTime.MinFromTime` | src/pages/DashboardPageOld.tsx:73 | the minute of an instant lies in [0, 59] |
| `EcmaTime.DayFromYearStep` | src/lib/utils.ts:38 | the first days of consecutive years are 366 days apart in a leap year (divisible by 4, and by 400 if by 100) and 365 otherwise |
| `EcmaTime.MonthStartStep` | src/lib/utils.ts:38 | each month starts one month length after the previous one, and December ends the year |
| `EcmaTime.MakeDayNextMonth` | src/lib/utils.ts:38 | the firsts of consecutive months are one month length apart, for any month index, including across a year boundary |
| `EcmaTime.MakeDayDates` | src/lib/utils.ts:38 | the day numbers of the dates of one month follow each other: date d is d - 1 days after the 1st, for any date, including ones past the month's end |
| `EcmaTime.DayBeforeFirstOfMonth` | src/lib/utils.ts:37-39 | the day before the 1st of a month is the last day of the previous month |
| `EcmaTime.DayOfMakeDate` | src/lib/utils.ts:37-39 | the UTC day and time of day of an instant built from a day and an in-range time are that day and that time |
| `EcmaTime.ShiftedClock` | src/lib/utils.ts:36-39 | moving a time of day back by `shift` hours keeps the day when the hour is at least the shift; otherwise the instant falls on the previous day at hour + 24 - shift |
| `EcmaTime.MakeDayBounds` | src/lib/utils.ts:37-39 | dates of four-digit years have day numbers far inside the valid range |
| `EcmaTime.EpochIsDayZero` | src/lib/utils.ts:37-39 | 1 January 1970 is day 0 |
| `JsStrings.SplitOn` | src/lib/utils.ts:28-30 | `split` on one character gives at least one piece, and no piece contains the separator |
| `JsStrings.JoinSplitOn` | src/lib/utils.ts:28-30 | joining the pieces of a split with the separator restores the string |
| `JsStrings.SplitOnAppend` | src/lib/utils.ts:28-30 | splitting at an occurrence of the separator splits the two sides independently |
| `JsStrings.SplitOnWithout` | src/lib/utils.ts:28-30 | a string without the separator splits into itself alone |
| `JsStrings.JoinSplitOnReplaces` | src/pages/DashboardPage.tsx:52 | `split("\n").join(" ")` replaces every newline by a space and changes nothing else |
| `JsStrings.ReplaceChar` | src/pages/DashboardPage.tsx:52 | the replacement keeps the length and changes exactly the occurrences of the character |
| `JsStrings.SlicePrefix` | src/pages/DashboardPage.tsx:52 | `slice(0, n)` gives a prefix of length min(n, length) |
| `JsStrings.Tokens` | src/lib/utils.ts:23 | `split(/[, ]+/)` gives at least one token |
| `JsStrings.SkipDelimiters` | src/lib/utils.ts:23 | skipping the leading run of commas and spaces shortens a string that starts with one |
| `JsStrings.TokensPrefix` | src/lib/utils.ts:23 | a word without commas or spaces before a delimiter run is a token on its own |
| `JsStrings.TokensOfWord` | src/lib/utils.ts:23 | a word without commas or spaces is a single token |
| `JsStrings.SkipDelimitersRun` | src/lib/utils.ts:23 | a delimiter run in front of a non-delimiter is skipped entirely |
| `JsStrings.ToNumber` | src/lib/utils.ts:28-30 | `Number` of a field is a value exactly when the field is all digits, and 0 for the empty field |
| `JsStrings.FieldNumber` | src/lib/utils.ts:28-30 | a destructured field beyond the end of the split is `undefined`, read as NaN |
| `JsStrings.PadDigits` | src/lib/utils.ts:22-26 | a zero-padded number has exactly the width and only digits |
| `JsStrings.PadDigitsValue` | src/lib/utils.ts:28-30 | `Number` reads a zero-padded number back as that number |
| `JsStrings.ToLower` | src/lib/utils.ts:33-34 | lower-casing keeps the length and lower-cases each letter |
| `JsStrings.LowerIsPm` | src/lib/utils.ts:33 | the meridiem equals "pm" after lower-casing exactly for "pm", "pM", "Pm" and "PM" |
| `JsStrings.LowerIsAm` | src/lib/utils.ts:34 | the meridiem equals "am" after lower-casing exactly for "am", "aM", "Am" and "AM" |
| `Utils.To24Hour` | src/lib/utils.ts:32-34 | for a 12-hour clock hour with a meridiem, the result is in [0, 23], agrees with the hour modulo 12, and is 12 or later exactly for "pm"; so PM before 12 adds 12, 12 PM stays 12, 12 AM is 0, other AM hours are unchanged; any other meridiem leaves the hour as it is |
| `Utils.ParseSgt` | src/lib/utils.ts:21-40 | the parse throws exactly when there are fewer than three tokens; a parsed instant is a whole second within the valid range |
| `Utils.ParseTokens` | src/lib/utils.ts:23-26 | destructuring the tokens throws exactly when there are fewer than three |
| `Utils.ParseFields` | src/lib/utils.ts:28-39 | reading the fields never throws; a Date it gives is a whole second within the valid range |
| `Utils.SgtInstant` | src/lib/utils.ts:36-39 | `Date.UTC` with the hour moved back by 8 is a whole second within range, or an invalid Date |
| `Utils.WholeSeconds` | src/lib/utils.ts:37-39 | an instant built from whole hours, minutes and seconds is a whole second |
| `Utils.Hour24` | src/lib/utils.ts:32-34 | a well-formed clock shows an hour in [0, 23] |
| `Utils.ClockTimeOfDay` | src/lib/utils.ts:37-39 | the time of day of a well-formed clock is within one day |
| `Utils.TokensOfRender` | src/lib/utils.ts:22-26 | a well-formed timestamp tokenises into its date, time and meridiem |
| `Utils.FieldsOfRender` | src/lib/utils.ts:28-30 | the date and time tokens of a well-formed timestamp read back as its day, month, year, hour, minute and second |
| `Utils.ParseRender` | src/lib/utils.ts:21-40 | a well-formed timestamp parses to `Date.UTC` of its fields with the 1-based month made 0-based and the 24-hour time moved back by 8 hours |
| `Utils.ParseWellFormed` | src/lib/utils.ts:21-40 | a well-formed timestamp parses; read on a UTC+8 clock, the instant shows exactly the written time of day, on `Date.UTC`'s day for the written fields |
| `Utils.ParseUtcDay` | src/lib/utils.ts:36-39 | on the UTC calendar the instant falls on `Date.UTC`'s day for the written fields at hour - 8 from 08:00 on, and on the day before at hour + 16 before 08:00 |
| `Utils.ParseWrittenDate` | src/lib/utils.ts:21-40 | for a real date from year 100 on, the UTC+8 reading falls in the written month of the written year, on the written day: day - 1 days after the month's first day, before the next month's |
| `Utils.WrittenDateDay` | src/lib/utils.ts:37-39 | `Date.UTC`'s day for a real date from year 100 on lies in the written month, at the written day of that month |
| `Utils.ParseRollsOverMonthEnd` | src/lib/utils.ts:36-39 | a day past the month's end is accepted and rolls over: 31/02/2025 reads as 3 March 2025 |
| `Utils.FebruaryThirtyFirst` | src/lib/utils.ts:37-39 | 31 February 2025 is not a real date, and `Date.UTC` makes it 3 March 2025 |
| `Utils.ParseTwoDigitYearDay` | src/lib/utils.ts:37-39 | a year written 0000 to 0099 reads as the same date in 1900 to 1999 |
| `Utils.RenderTokensParse` | src/lib/utils.ts:22-30 | parsing a well-formed timestamp reads the fields of its date token and its time token |
| `Utils.RenderFieldsParse` | src/lib/utils.ts:28-36 | those fields are the clock's own numbers, with the 24-hour hour |
| `Utils.ClockInstant` | src/lib/utils.ts:36-39 | a well-formed clock gives a valid Date: its day at the 24-hour time less 8 hours |
| `Utils.ParseSameReading` | src/lib/utils.ts:21-40 | two well-formed timestamps with the same calendar day and the same 24-hour time parse to the same Date |
| `Utils.ParseTwoDigitYear` | src/lib/utils.ts:37-39 | a year written 0000 to 0099 parses as 1900 to 1999 |
| `Utils.ParseMeridiemCase` | src/lib/utils.ts:33-34 | meridiems that lower-case alike parse alike |
| `Utils.August17` | src/lib/utils.ts:37-39 | 16 and 17 August 2025 are days 20316 and 20317 |
| `Utils.August17Text` | src/lib/utils.ts:22-26 | a clock on 17 August 2025 at h:00:00, h below 10, is written "17/08/2025, 0h:00:00" and its meridiem |
| `Utils.ParseEveningExample` | src/lib/utils.ts:21-40 | 17/08/2025 08:00:00 pm in Singapore parses to 17 Aug 2025 12:00:00 UTC |
| `Utils.ParseEarlyMorningExample` | src/lib/utils.ts:36-39 | 17/08/2025 03:00:00 am in Singapore parses to 16 Aug 2025 19:00:00 UTC, the day before |
| `Utils.ParseMissingTokens` | src/lib/utils.ts:23-30 | text without a time token, or without a meridiem after it, throws |
| `Utils.ParseMissingField` | src/lib/utils.ts:28-39 | a date or time with fewer than three fields gives an invalid Date |
| `Utils.ParseNonDigitField` | src/lib/utils.ts:28-39 | a field that is not a decimal digit string, which the model's `Number` reads as NaN, gives an invalid Date |
| `Utils.ThreeTokens` | src/lib/utils.ts:23 | "a, b c" with three words has exactly those three tokens |
| `Utils.SplitThree` | src/lib/utils.ts:28-30 | three digit groups joined by a separator split back into the three groups |
| `Utils.DoseIntervalMs` | src/lib/utils.ts:46 | the interval is positive and `timesPerDay` intervals make exactly one day |
| `Utils.CalcNextDoseTime` | src/lib/utils.ts:42-51 | with a last dose the next dose is a valid Date exactly when one interval after it lies within the range of valid instants, and is then strictly after it by exactly one interval; without one it is now |
| `Utils.NextDoseAfterLastInstant` | src/lib/utils.ts:46-48 | once a day, a last dose at the last valid instant gives an invalid next Date, and one a day earlier gives the last valid instant |
| `Utils.DoseAfterSpacing` | src/lib/utils.ts:46-48 | doses taken on time from a valid Date are evenly spaced: the k-th is the Date k intervals after the start, invalid once that leaves the valid range |
| `Utils.DosesFillOneDay` | src/lib/utils.ts:46-48 | `timesPerDay` consecutive doses from a valid Date span exactly one day |
| `Utils.NextDoseExample` | src/lib/utils.ts:42-51 | twice a day, after a dose at 8 am on 17/08/2025 in Singapore the next is at 8 pm that day |
| `Utils.CalcRemainingTime` | src/lib/utils.ts:53-57 | the remaining time is NaN exactly when the next dose is an invalid Date; otherwise it is never negative, is zero exactly when the dose is due, and otherwise reaches the dose time from now |
| `Utils.RemainingNonIncreasing` | src/lib/utils.ts:53-57 | for a valid next dose, as now advances the remaining time never grows and shrinks by at most the elapsed time |
| `Utils.DefaultMedicineDue` | src/types/medicine.ts:12-20 | the default record is due when created, and its `timesPerDay` of 0 gives no dose interval |
| `Types.DefaultMedicine` | src/types/medicine.ts:12-20 | the default record has no doses per day and its next dose is the valid Date of its creation time |
| `DispenserBox.Box.constructor` | src/components/Medicine/MedicineDispenserBox.tsx:13-14 | a box starts with 5 pills, idle, nothing pending, no callback made |
| `DispenserBox.Box.Dispense` | src/components/Medicine/MedicineDispenserBox.tsx:16-25 | the click is accepted exactly when the button is enabled; then it locks, schedules one completion, calls `onDispense` once and keeps the count; otherwise it changes nothing; the invariant (count in [0, 5], at most one pending completion) holds |
| `DispenserBox.Box.FinishAnimation` | src/components/Medicine/MedicineDispenserBox.tsx:20-23 | the completion removes exactly one pill and releases the lock |
| `DispenserBox.Box.PillBottoms` | src/components/Medicine/MedicineDispenserBox.tsx:27-45 | exactly `pills` pills are drawn, and every pill i except a falling one sits at (pills - i - 1) * 24 px; idle, the lowest rests on the floor; while animating, the lowest has dropped to -20 and is the only one below the floor, while the others keep their slots, the lowest resting one 24 px up |
| `DispenserBox.RunSession` | src/components/Medicine/MedicineDispenserBox.tsx:16-25 | over any sequence of clicks and timer firings, `onDispense` is called at most once per pill not already falling, and the invariant holds |
| `DispenserBox.EmptyBox` | src/components/Medicine/MedicineDispenserBox.tsx:13-25 | a new box dispenses exactly five times, then its button is disabled |
| `Logs.TimeValue` | src/pages/DashboardPage.tsx:53-54 | `getTime()` is a number exactly for a valid Date, and then it is its instant |
| `Logs.YesNo` | src/pages/DashboardPage.tsx:127 | a flag column shows "Yes" exactly when the flag is "1", and "No" otherwise |
| `DashboardOld.Names` | src/pages/DashboardPageOld.tsx:60 | one medicine name per row, in row order |
| `DashboardOld.Distinct` | src/pages/DashboardPageOld.tsx:60 | `[...new Set(s)]` has no repeats, holds exactly the elements of s, and starts with s's first element |
| `DashboardOld.FirstIndex` | src/pages/DashboardPageOld.tsx:60 | the first occurrence of a name is at that index, with none before it |
| `DashboardOld.DistinctInFirstOccurrenceOrder` | src/pages/DashboardPageOld.tsx:60 | the unique names are in order of first occurrence |
| `DashboardOld.UniqueMedicines` | src/pages/DashboardPageOld.tsx:60 | every row's medicine name appears exactly once, and nothing else appears |
| `DashboardOld.DefaultSelection` | src/pages/DashboardPageOld.tsx:41-46 | with fetched rows the selection is the first row's medicine; without rows it stays as it was |
| `DashboardOld.FilteredLogs` | src/pages/DashboardPageOld.tsx:63-65 | the filtered rows are exactly the rows of the selected medicine |
| `DashboardOld.FilteredLogsAppend` | src/pages/DashboardPageOld.tsx:63-65 | filtering keeps the original order |
| `DashboardOld.TabsAreNonEmpty` | src/pages/DashboardPageOld.tsx:60-65 | every medicine tab has at least one row |
| `DashboardOld.MinutesOfDay` | src/pages/DashboardPageOld.tsx:73-74 | minutes since local midnight are NaN only for an invalid Date and otherwise lie in [0, 1439] |
| `DashboardOld.TimeDiffSeconds` | src/pages/DashboardPageOld.tsx:77 | the time difference is a number exactly when both instants are, and is then non-negative: the absolute difference in seconds |
| `DashboardOld.GraphRow` | src/pages/DashboardPageOld.tsx:68-89 | a row's point exists exactly when neither needed parse throws; its day index is its position; the actual minutes, the time difference and a "Not Taken" label are null exactly when the row is a miss, and `isMissed` is set exactly then |
| `DashboardOld.GraphRowValues` | src/pages/DashboardPageOld.tsx:69-88 | the point keeps the supposed Date that its date and supposed-time labels are formatted from; the supposed minutes are the local minutes of day of the parsed supposed Date; for a row that is not a miss, the actual minutes are those of the parsed actual Date, the difference is `TimeDiffSeconds` of the two Dates and the label is the actual Date; each minutes value is NaN exactly for an invalid Date, and otherwise is hour * 60 + minute of the local wall clock at the parsed instant; for a row that is not a miss, the time difference is finite exactly when both Dates are valid, and is then the distance between the two instants in seconds |
| `DashboardOld.GraphDataDefined` | src/pages/DashboardPageOld.tsx:68-90 | the graph exists exactly when every row has a point, that is when no row's parse throws |
| `DashboardOld.GraphDataShape` | src/pages/DashboardPageOld.tsx:68-90 | a graph that exists has one point per row, point i belonging to row i with day index i |
| `DashboardOld.TableRows` | src/pages/DashboardPageOld.tsx:153-186 | one table row per filtered row, numbered from 1; a miss shows "Not Taken" as its actual time; Yes/No columns show "Yes" exactly for a "1" flag |
| `Dashboard.MedicineLabel` | src/pages/DashboardPage.tsx:52 | a label has no newline, is min(20, length of the name) long, and is a prefix of the name with every newline made a space |
| `Dashboard.GraphRow` | src/pages/DashboardPage.tsx:51-55 | a row's point exists exactly when neither timestamp's parse throws; it holds the label and the two parsed instants |
| `Dashboard.GraphDataDefined` | src/pages/DashboardPage.tsx:51-55 | the timeline exists exactly when every row has a point, that is when no timestamp's parse throws |
| `Dashboard.GraphDataShape` | src/pages/DashboardPage.tsx:51-55 | a timeline that exists has one point per row, in order |
| `Dashboard.MissWithoutActualTime` | src/pages/DashboardPage.tsx:54 | a missed row with an empty actual time throws on this page but not on the per-medicine page, which skips that parse for a miss |
| `Dashboard.TableRows` | src/pages/DashboardPage.tsx:109-149 | one table row per log; the number shown is the spreadsheet row number less one; Yes/No columns show "Yes" exactly for a "1" flag |

## Left out

- `getDateStringInSGT` (src/lib/utils.ts:9-19) depends on `Intl` locale formatting. There
  is therefore no formatter, and no format-then-parse round trip. The partner of the parser
  is instead `Utils.Render`, a plain writer of well-formed timestamps.
- `cn`, `scheduleSpeak`, the `fetchLogs` calls, the speech recorder, the voice and query
  buttons, theming, routing and every rendering-only component: these are class-name
  merging, network, audio or layout.
- Locale strings are not modelled: `toLocaleDateString`, `toLocaleTimeString` and the chart
  tick formatters. The graph keeps the Date each label would be formatted from. On the
  per-medicine page, `supposedDate` stands for `date`, `dateForAxis` and
  `supposedTimeString`, and `actualTimeString` keeps the actual Date.
- The `CustomGraphContent` pixel arithmetic and all chart configuration are left out.
- The `setTimeout` delay of 600 ms: only the order of click and completion is modelled.
  Timers that outlive an unmounted box are not modelled either.
- `Utils.ParseSgt`: reads its fields with `JsStrings.ToNumber`, so it inherits the limits
  of that member's line below.
- `JsStrings.ToNumber`: reads decimal digit strings only, with the empty string as 0. Other
  forms that JavaScript's `Number` accepts are read as NaN: surrounding whitespace, a sign, a
  decimal point, an exponent, a hexadecimal, octal or binary prefix, "Infinity". Digit
  strings too long for a double are read exactly, not rounded.
- `Utils.ParseNonDigitField`: holds only for the digit-only reading of `JsStrings.ToNumber`.
  In JavaScript a field such as "+08" or "8.5" is a number, and such a timestamp can give a
  valid Date.
- `Utils.ParseWellFormed`, `Utils.ParseUtcDay`: any day from 1 to 31 and any year up to 9999
  is well-formed, as the parser accepts them. The day they name is `Date.UTC`'s day, which
  rolls a day past the month's end into the next month (`Utils.ParseRollsOverMonthEnd`) and
  reads the years 0000 to 0099 as 1900 to 1999 (`Utils.ParseTwoDigitYearDay`). The written
  date itself is proved only for real dates from year 100 on (`Utils.ParseWrittenDate`).
- `JsStrings.ToLower`: only ASCII letters are lower-cased. JavaScript's full Unicode
  lower-casing is not modelled.
- `JsStrings.SlicePrefix`: strings are sequences of Unicode characters, not UTF-16 code
  units. A name containing characters outside the Basic Multilingual Plane is therefore
  cut at a different place than JavaScript would cut it.
- `Utils.DoseIntervalMs`: the interval `24 / timesPerDay * 60 * 60 * 1000` is a double in
  the source. It is modelled as the exact 86 400 000 / `timesPerDay` ms, only for
  `timesPerDay` values that divide 86 400 000. Every such value up to 24 gives an exact
  double. Some larger divisors do not: for 25 the double is 3 455 999.9999999995. Added to a
  last dose near the epoch, TimeClip's truncation then gives 1 ms less than the model. That
  rounding is not modelled, nor is rounding for values that do not divide a day. A
  `timesPerDay` of 0, the default record's value, gives an infinite interval and an invalid
  Date in the source. It is excluded by the precondition.
- `Utils.CalcNextDoseTime`: the last dose is an integer instant. A last dose that is an
  invalid Date (which JavaScript still treats as present, giving NaN and an invalid next
  Date) is not modelled. A sum beyond the range of valid instants is modelled: it gives an
  invalid Date.
- `Utils.CalcRemainingTime`: a remaining time is an integer or NaN (`None`). "Now" is an
  integer instant given as a parameter, not a read of the clock.
- `DashboardOld.GraphRow`, `Dashboard.GraphRow`: the fetched rows are taken to have the
  declared string fields. A spreadsheet returning the number `1` would compare unequal
  under `===` but equal under `==`; that case is not modelled.
- The host's time-zone offset is a parameter. Only integer instants are passed to it.
- The spreadsheet's contents are unknown, so it is not claimed that missed rows really
  carry an empty actual time. `Dashboard.MissWithoutActualTime` only states what would
  happen if they did.
