/**
 * The per-medicine adherence dashboard: the list of medicines in the logs, the rows of the
 * selected medicine, and the graph and table derived from them. The host time zone, which
 * `getHours` and `getMinutes` read, is a parameter: its offset in milliseconds at an instant.
 */
module DashboardOld {
  import opened Wrappers
  import opened EcmaTime
  import opened JsStrings
  import opened Logs
  import Utils

  // ---------------------------------------------------------------------------
  // Medicine tabs
  // ---------------------------------------------------------------------------

  function Names(logs: seq<LogEntry>): (r: seq<string>)
    ensures |r| == |logs|
    ensures forall i :: 0 <= i < |logs| ==> r[i] == logs[i].medicineName
  {
    seq(|logs|, i requires 0 <= i < |logs| => logs[i].medicineName)
  }

  /**
   * `[...new Set(s)]`: each element once, where it first occurs. The result has no repeats,
   * holds exactly the elements of s and starts with s's first element.
   */
  function Distinct(s: seq<string>): (r: seq<string>)
    ensures forall i, j :: 0 <= i < j < |r| ==> r[i] != r[j]
    ensures forall x :: x in r <==> x in s
    ensures |s| > 0 ==> |r| > 0 && r[0] == s[0]
  {
    if s == [] then []
    else
      var d := Distinct(s[..|s| - 1]);
      if s[|s| - 1] in d then d else d + [s[|s| - 1]]
  }

  /** The position of the first occurrence of x in s. */
  function FirstIndex(s: seq<string>, x: string): (i: nat)
    requires x in s
    ensures i < |s| && s[i] == x
    ensures forall k :: 0 <= k < i ==> s[k] != x
  {
    if s[0] == x then 0 else 1 + FirstIndex(s[1..], x)
  }

  /** The order of `Distinct` is the order of first occurrence. */
  lemma {:induction false} DistinctInFirstOccurrenceOrder(s: seq<string>, i: nat, j: nat)
    requires i < j < |Distinct(s)|
    ensures FirstIndex(s, Distinct(s)[i]) < FirstIndex(s, Distinct(s)[j])
    decreases |s|
  {
    var n := |s| - 1;
    var p := s[..n];
    var d := Distinct(p);
    var r := Distinct(s);
    assert r == d || (r == d + [s[n]] && s[n] !in d);
    var x, y := r[i], r[j];
    assert x == d[i] && x in p;
    FirstIndexPrefix(s, n, x);
    if j < |d| {
      assert y == d[j] && y in p;
      DistinctInFirstOccurrenceOrder(p, i, j);
      FirstIndexPrefix(s, n, y);
    } else {
      // y is the last element of s, which does not occur before it.
      assert y == s[n] && y !in p;
      FirstIndexPrefix(s, n, y);
    }
  }

  /** The first occurrence of an element of a prefix lies in that prefix. */
  lemma FirstIndexPrefix(s: seq<string>, n: nat, x: string)
    requires n <= |s|
    ensures x in s[..n] ==> FirstIndex(s, x) == FirstIndex(s[..n], x)
    ensures x in s && x !in s[..n] ==> FirstIndex(s, x) >= n
  {
    if x in s[..n] {
      var k := FirstIndex(s[..n], x);
      assert s[k] == x;
    }
  }

  /** `uniqueMedicines`: the medicine names of the logs, each once, in first-occurrence order. */
  function UniqueMedicines(logs: seq<LogEntry>): (r: seq<string>)
    ensures forall i, j :: 0 <= i < j < |r| ==> r[i] != r[j]
    ensures forall x :: x in r <==> exists k :: 0 <= k < |logs| && logs[k].medicineName == x
  {
    var names := Names(logs);
    assert forall x :: x in names <==> exists k :: 0 <= k < |logs| && logs[k].medicineName == x;
    Distinct(names)
  }

  /**
   * The selection after the logs are fetched: the first of the unique medicines, which is the
   * first row's medicine; with no rows the selection stays as it was.
   */
  function DefaultSelection(data: seq<LogEntry>, current: string): (r: string)
    ensures |data| > 0 ==> r == data[0].medicineName
    ensures |data| == 0 ==> r == current
  {
    if |data| > 0 then Distinct(Names(data))[0] else current
  }

  // ---------------------------------------------------------------------------
  // Rows of the selected medicine
  // ---------------------------------------------------------------------------

  /** `filteredLogs`: the rows of the selected medicine, in their original order. */
  function FilteredLogs(logs: seq<LogEntry>, selected: string): (r: seq<LogEntry>)
    ensures |r| <= |logs|
    ensures forall i :: 0 <= i < |r| ==> r[i].medicineName == selected
    ensures forall e :: e in r <==> e in logs && e.medicineName == selected
  {
    if logs == [] then []
    else
      var rest := FilteredLogs(logs[1..], selected);
      if logs[0].medicineName == selected then [logs[0]] + rest else rest
  }

  /** Filtering keeps order: the rows of a concatenation are the rows of each part in turn. */
  lemma {:induction false} FilteredLogsAppend(a: seq<LogEntry>, b: seq<LogEntry>, selected: string)
    ensures FilteredLogs(a + b, selected) == FilteredLogs(a, selected) + FilteredLogs(b, selected)
  {
    if a == [] {
      assert a + b == b;
    } else {
      assert (a + b)[0] == a[0] && (a + b)[1..] == a[1..] + b;
      FilteredLogsAppend(a[1..], b, selected);
    }
  }

  /** Every medicine tab has at least one row. */
  lemma TabsAreNonEmpty(logs: seq<LogEntry>, name: string)
    requires name in UniqueMedicines(logs)
    ensures |FilteredLogs(logs, name)| > 0
  {
    var k :| 0 <= k < |logs| && logs[k].medicineName == name;
    assert logs[k] in FilteredLogs(logs, name);
  }

  // ---------------------------------------------------------------------------
  // Graph points
  // ---------------------------------------------------------------------------

  /** The label of the actual time: "Not Taken", or the locale time string of a Date. */
  datatype TimeLabel = NotTaken | LocaleTime(time: Num)

  /**
   * One point of the graph. The locale strings are not modelled: `supposedDate` is the
   * `getTime()` of the Date that `date`, `dateForAxis` and `supposedTimeString` are formatted
   * from, and `actualTimeString` keeps the actual Date.
   */
  datatype GraphPoint = GraphPoint(
    supposedDate: Num,
    supposedTimeMinutes: Num,
    actualTimeMinutes: Option<Num>,
    isMissed: bool,
    timeDiffSeconds: Option<Num>,
    actualTimeString: TimeLabel,
    dayIndex: nat)

  /** `getHours() * 60 + getMinutes()` in the host time zone: minutes since local midnight. */
  function MinutesOfDay(d: Num, offsetMs: int -> int): (r: Num)
    ensures d.NaN? <==> r.NaN?
    ensures r.Finite? ==> 0.0 <= r.v <= 1439.0
  {
    match d
    case NaN => NaN
    case Finite(t) =>
      var local := LocalTime(t.Floor, offsetMs);
      Finite((HourFromTime(local) * 60 + MinFromTime(local)) as real)
  }

  /** `Math.abs((actual - supposed) / 1000)`. */
  function TimeDiffSeconds(actual: Num, supposed: Num): (r: Num)
    ensures r.Finite? <==> actual.Finite? && supposed.Finite?
    ensures r.Finite? ==> r.v >= 0.0 && r.v * 1000.0 == Abs(actual.v - supposed.v)
  {
    if actual.Finite? && supposed.Finite? then Finite(Abs(actual.v - supposed.v) / 1000.0) else NaN
  }

  function Abs(x: real): (r: real)
    ensures r >= 0.0 && (r == x || r == -x)
  {
    if x < 0.0 then -x else x
  }

  /**
   * The graph point of one row at position `index` (None: the parse threw, and the page with
   * it). The actual time is read only when the row is not a miss, so a missed row has a null
   * actual time, no time difference and the label "Not Taken".
   */
  function GraphRow(log: LogEntry, index: nat, offsetMs: int -> int): (r: Option<GraphPoint>)
    ensures r.Some? <==>
      |Tokens(log.supposedLastTakenTime)| >= 3
      && (log.isMiss == "1" || |Tokens(log.actualLastTakenTime)| >= 3)
    ensures r.Some? ==>
      && r.value.dayIndex == index
      && (r.value.isMissed <==> log.isMiss == "1")
      && (r.value.actualTimeMinutes.None? <==> log.isMiss == "1")
      && (r.value.timeDiffSeconds.None? <==> log.isMiss == "1")
      && (r.value.actualTimeString.NotTaken? <==> log.isMiss == "1")
  {
    var supposed := Utils.ParseSgt(log.supposedLastTakenTime);
    if supposed.Throws? then None
    else if log.isMiss == "1" then
      Some(GraphPoint(TimeValue(supposed), MinutesOfDay(TimeValue(supposed), offsetMs), None, true,
                      None, NotTaken, index))
    else
      var actual := Utils.ParseSgt(log.actualLastTakenTime);
      if actual.Throws? then None
      else
        var s, a := TimeValue(supposed), TimeValue(actual);
        Some(GraphPoint(s, MinutesOfDay(s, offsetMs), Some(MinutesOfDay(a, offsetMs)), false,
                        Some(TimeDiffSeconds(a, s)), LocaleTime(a), index))
  }

  /**
   * The values of a row's point in terms of the parses: the supposed Date itself, the
   * minutes of day of each parsed Date, the difference of the two Dates in seconds and the
   * actual Date as label. The minutes are those of the local wall clock at the parsed
   * instant, NaN exactly for an invalid Date; for a row that is not a miss, the time
   * difference is finite exactly when both timestamps give valid Dates, and is then the
   * distance between the two instants in seconds.
   */
  lemma GraphRowValues(log: LogEntry, index: nat, offsetMs: int -> int)
    requires GraphRow(log, index, offsetMs).Some?
    ensures GraphRow(log, index, offsetMs).value.supposedDate
            == TimeValue(Utils.ParseSgt(log.supposedLastTakenTime))
    ensures GraphRow(log, index, offsetMs).value.supposedTimeMinutes
            == MinutesOfDay(TimeValue(Utils.ParseSgt(log.supposedLastTakenTime)), offsetMs)
    ensures log.isMiss != "1" ==>
      var p := GraphRow(log, index, offsetMs).value;
      var s, a := TimeValue(Utils.ParseSgt(log.supposedLastTakenTime)),
                  TimeValue(Utils.ParseSgt(log.actualLastTakenTime));
      && p.actualTimeMinutes == Some(MinutesOfDay(a, offsetMs))
      && p.timeDiffSeconds == Some(TimeDiffSeconds(a, s))
      && p.actualTimeString == LocaleTime(a)
    ensures var p, sp := GraphRow(log, index, offsetMs).value, Utils.ParseSgt(log.supposedLastTakenTime);
      && (p.supposedTimeMinutes.NaN? <==> sp.InvalidDate?)
      && (sp.At? ==> p.supposedTimeMinutes.v
                     == (HourFromTime(LocalTime(sp.ms, offsetMs)) * 60
                         + MinFromTime(LocalTime(sp.ms, offsetMs))) as real)
    ensures log.isMiss != "1" ==>
      var p := GraphRow(log, index, offsetMs).value;
      var sp, ap := Utils.ParseSgt(log.supposedLastTakenTime), Utils.ParseSgt(log.actualLastTakenTime);
      && p.actualTimeMinutes.Some? && p.timeDiffSeconds.Some?
      && (p.actualTimeMinutes.value.NaN? <==> ap.InvalidDate?)
      && (ap.At? ==> p.actualTimeMinutes.value.v
                     == (HourFromTime(LocalTime(ap.ms, offsetMs)) * 60
                         + MinFromTime(LocalTime(ap.ms, offsetMs))) as real)
      && (p.timeDiffSeconds.value.Finite? <==> sp.At? && ap.At?)
      && (sp.At? && ap.At? ==> p.timeDiffSeconds.value.v * 1000.0 == Abs((ap.ms - sp.ms) as real))
  {
    var sp := Utils.ParseSgt(log.supposedLastTakenTime);
    assert sp.At? ==> (sp.ms as real).Floor == sp.ms;
    if log.isMiss != "1" {
      var ap := Utils.ParseSgt(log.actualLastTakenTime);
      assert ap.At? ==> (ap.ms as real).Floor == ap.ms;
    }
  }

  /** `graphData`: the points of the rows from position `start` on; None if any row throws. */
  function GraphData(logs: seq<LogEntry>, start: nat, offsetMs: int -> int): Option<seq<GraphPoint>>
    decreases |logs|
  {
    if logs == [] then Some([])
    else
      match GraphRow(logs[0], start, offsetMs)
      case None => None
      case Some(p) =>
        match GraphData(logs[1..], start + 1, offsetMs)
        case None => None
        case Some(ps) => Some([p] + ps)
  }

  /** The graph has a point for every row exactly when no row throws. */
  lemma {:induction false} GraphDataDefined(logs: seq<LogEntry>, start: nat, offsetMs: int -> int)
    ensures GraphData(logs, start, offsetMs).Some? <==>
      forall i :: 0 <= i < |logs| ==> GraphRow(logs[i], start + i, offsetMs).Some?
    decreases |logs|
  {
    if logs != [] {
      var rest := logs[1..];
      GraphDataDefined(rest, start + 1, offsetMs);
      assert forall i :: 1 <= i < |logs| ==> rest[i - 1] == logs[i];
    }
  }

  /** A graph that exists has one point per row, and point i is row i's point with day index i. */
  lemma {:induction false} GraphDataShape(logs: seq<LogEntry>, start: nat, offsetMs: int -> int)
    requires GraphData(logs, start, offsetMs).Some?
    ensures
      var ps := GraphData(logs, start, offsetMs).value;
      |ps| == |logs| &&
      forall i :: 0 <= i < |logs| ==> GraphRow(logs[i], start + i, offsetMs) == Some(ps[i])
    decreases |logs|
  {
    if logs != [] {
      var rest := logs[1..];
      GraphDataShape(rest, start + 1, offsetMs);
      assert forall i :: 1 <= i < |logs| ==> rest[i - 1] == logs[i];
    }
  }

  // ---------------------------------------------------------------------------
  // Table rows
  // ---------------------------------------------------------------------------

  datatype TableRow = TableRow(number: int, medicine: string, supposed: string, actual: string,
                               missed: string, earlyDispense: string)

  /**
   * The table of the selected medicine: rows numbered from 1, "Not Taken" in place of the
   * actual time of a miss, and Yes/No columns for the two flags.
   */
  function TableRows(filtered: seq<LogEntry>): (r: seq<TableRow>)
    ensures |r| == |filtered|
    ensures forall i :: 0 <= i < |r| ==>
      && r[i].number == i + 1
      && r[i].medicine == filtered[i].medicineName
      && r[i].supposed == filtered[i].supposedLastTakenTime
      && (FlagSet(filtered[i].isMiss) ==> r[i].actual == "Not Taken")
      && (!FlagSet(filtered[i].isMiss) ==> r[i].actual == filtered[i].actualLastTakenTime)
      && (r[i].missed == "Yes" <==> FlagSet(filtered[i].isMiss))
      && (r[i].earlyDispense == "Yes" <==> FlagSet(filtered[i].isEarlyDispense))
  {
    seq(|filtered|, i requires 0 <= i < |filtered| =>
      var log := filtered[i];
      TableRow(i + 1, log.medicineName, log.supposedLastTakenTime,
               if log.isMiss == "1" then "Not Taken" else log.actualLastTakenTime,
               YesNo(log.isMiss), YesNo(log.isEarlyDispense)))
  }
}
