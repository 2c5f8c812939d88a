/**
 * The all-medicines dashboard: a timeline of every log row (label, supposed and actual
 * instants) and a table with the spreadsheet row number and Yes/No flags.
 */
module Dashboard {
  import opened Wrappers
  import opened JsStrings
  import opened Logs
  import Utils
  import DashboardOld

  const LabelLength: nat := 20

  /**
   * `name.split("\n").join(" ").slice(0, 20)`: the name with every newline turned into a
   * space, cut to at most 20 characters.
   */
  function MedicineLabel(name: string): (r: string)
    ensures '\n' !in r
    ensures |r| == if |name| < LabelLength then |name| else LabelLength
    ensures r <= ReplaceChar(name, '\n', ' ')
  {
    JoinSplitOnReplaces(name, '\n', ' ');
    SlicePrefix(Join(SplitOn(name, '\n'), " "), LabelLength)
  }

  /** One point of the timeline. */
  datatype GraphPoint = GraphPoint(medicine: string, supposed: Num, actual: Num)

  /**
   * The point of one row (None: a parse threw, and the page with it). Both timestamps are
   * parsed, whether or not the row is a miss.
   */
  function GraphRow(log: LogEntry): (r: Option<GraphPoint>)
    ensures r.Some? <==>
      |Tokens(log.supposedLastTakenTime)| >= 3 && |Tokens(log.actualLastTakenTime)| >= 3
    ensures r.Some? ==>
      && r.value.medicine == MedicineLabel(log.medicineName)
      && r.value.supposed == TimeValue(Utils.ParseSgt(log.supposedLastTakenTime))
      && r.value.actual == TimeValue(Utils.ParseSgt(log.actualLastTakenTime))
  {
    var supposed := Utils.ParseSgt(log.supposedLastTakenTime);
    var actual := Utils.ParseSgt(log.actualLastTakenTime);
    if supposed.Throws? || actual.Throws? then None
    else Some(GraphPoint(MedicineLabel(log.medicineName), TimeValue(supposed), TimeValue(actual)))
  }

  /** `graphData`: one point per row, in order; None if any row throws. */
  function GraphData(logs: seq<LogEntry>): Option<seq<GraphPoint>>
    decreases |logs|
  {
    if logs == [] then Some([])
    else
      match GraphRow(logs[0])
      case None => None
      case Some(p) =>
        match GraphData(logs[1..])
        case None => None
        case Some(ps) => Some([p] + ps)
  }

  /** The timeline has a point for every row exactly when no row throws. */
  lemma {:induction false} GraphDataDefined(logs: seq<LogEntry>)
    ensures GraphData(logs).Some? <==> forall i :: 0 <= i < |logs| ==> GraphRow(logs[i]).Some?
    decreases |logs|
  {
    if logs != [] {
      var rest := logs[1..];
      GraphDataDefined(rest);
      assert forall i :: 1 <= i < |logs| ==> rest[i - 1] == logs[i];
    }
  }

  /** A timeline that exists has one point per row, in the order of the rows. */
  lemma {:induction false} GraphDataShape(logs: seq<LogEntry>)
    requires GraphData(logs).Some?
    ensures
      var ps := GraphData(logs).value;
      |ps| == |logs| && forall i :: 0 <= i < |logs| ==> GraphRow(logs[i]) == Some(ps[i])
    decreases |logs|
  {
    if logs != [] {
      var rest := logs[1..];
      GraphDataShape(rest);
      assert forall i :: 1 <= i < |logs| ==> rest[i - 1] == logs[i];
    }
  }

  /**
   * A missed dose logged without an actual time breaks this page's timeline (the actual time
   * is parsed regardless), while the per-medicine page skips that parse for a miss.
   */
  lemma MissWithoutActualTime(log: LogEntry, index: nat, offsetMs: int -> int)
    requires log.isMiss == "1" && log.actualLastTakenTime == []
    requires |Tokens(log.supposedLastTakenTime)| >= 3
    ensures GraphRow(log).None?
    ensures DashboardOld.GraphRow(log, index, offsetMs).Some?
  {
    assert Tokens(log.actualLastTakenTime) == [[]];
  }

  datatype TableRow = TableRow(number: int, medicine: string, supposed: string, actual: string,
                               missed: string, earlyDispense: string)

  /**
   * The table: each row shows its spreadsheet row number less one (the header occupies row 1),
   * both timestamps as logged, and Yes/No columns for the two flags.
   */
  function TableRows(logs: seq<LogEntry>): (r: seq<TableRow>)
    ensures |r| == |logs|
    ensures forall i :: 0 <= i < |r| ==>
      && r[i].number + 1 == logs[i].rowNumber
      && r[i].medicine == logs[i].medicineName
      && r[i].supposed == logs[i].supposedLastTakenTime
      && r[i].actual == logs[i].actualLastTakenTime
      && (r[i].missed == "Yes" <==> FlagSet(logs[i].isMiss))
      && (r[i].earlyDispense == "Yes" <==> FlagSet(logs[i].isEarlyDispense))
  {
    seq(|logs|, i requires 0 <= i < |logs| =>
      var log := logs[i];
      TableRow(log.rowNumber - 1, log.medicineName, log.supposedLastTakenTime,
               log.actualLastTakenTime, YesNo(log.isMiss), YesNo(log.isEarlyDispense)))
  }
}
