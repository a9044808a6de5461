/** Log entries and anomalies. Times are integers (nanoseconds). */
module Domain {

  datatype Option<+T> = None | Some(value: T)

  /** A 64-bit float as far as comparing it with an integer goes. */
  datatype Float64 = Finite(r: real) | PosInf | NegInf | NaN {
    predicate AtLeast(threshold: int) {
      PosInf? || (Finite? && r >= threshold as real)
    }
  }

  /** A value of an entry's field map, by its dynamic type. */
  datatype Field =
    | Number(x: Float64)
    | Text(s: string)
    | Integer(i: int)
    | Other

  datatype LogEntry = LogEntry(
    timestamp: int,
    level: string,
    service: string,
    message: string,
    fields: map<string, Field>)

  datatype Anomaly = Anomaly(
    ruleID: string,
    service: string,
    evidence: seq<LogEntry>,
    detectedAt: int)
}
