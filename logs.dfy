/** The log rows both dashboards fetch: one row per recorded dose, flags encoded as "0"/"1". */
module Logs {
  import Utils

  datatype LogEntry = LogEntry(
    rowNumber: int,
    medicineName: string,
    supposedLastTakenTime: string,
    actualLastTakenTime: string,
    isMiss: string,
    isEarlyDispense: string)

  /** A JavaScript number that may be NaN, as a Date accessor returns it. */
  datatype Num = Finite(v: real) | NaN

  /** `getTime()` of a parsed Date: NaN for an invalid Date. */
  function TimeValue(d: Utils.Parsed): (r: Num)
    requires !d.Throws?
    ensures r.Finite? <==> d.At?
    ensures d.At? ==> r.v == d.ms as real
  {
    if d.At? then Finite(d.ms as real) else NaN
  }

  /** A "0"/"1" flag column as the tables read it: set exactly when it is "1". */
  predicate FlagSet(flag: string) {
    flag == "1"
  }

  /** The text of a Yes/No column. */
  function YesNo(flag: string): (r: string)
    ensures r == "Yes" <==> FlagSet(flag)
    ensures r in {"Yes", "No"}
  {
    if flag == "1" then "Yes" else "No"
  }
}
