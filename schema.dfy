/** The records shared by the marker-log reader, the interval reconstruction and the segmenter. */
module Schema {
  import opened Wrappers

  /** One parsed marker-log line: its marker name, its whole-second timestamp and its optional repetition index. */
  datatype Event = Event(name: string, ts: int, rep: Option<int>)

  /**
   * One row of the reconstructed schedule. `start` and `end` are in milliseconds on the
   * sensor clock; a sample belongs to the interval when `start <= t < end`.
   */
  datatype Interval = Interval(condition: string, rep: nat, level: nat, start: int, end: int)

  /** The ways `parse_condition_intervals` and `process_subject` raise instead of returning. */
  datatype Failure =
    | NoFields          // a non-blank line made only of separators: `parts[0]` raises IndexError
    | NoTimestampField  // a matching line without a second field: `parts[1]` raises IndexError
    | BadTimestamp      // `int(parts[1])` raises ValueError
    | BadRep            // `int(...)` on a field containing `rep` raises ValueError
    | NoLevelPrefix(index: nat)  // a block member without `Level<digits>_`: `.group(1)` on None
    | Unterminated(leader: nat)  // a block that runs to the end of the log: `None * 1000`
    | NoSensorTables    // `pd.concat([])` raises ValueError
    | NoIntervals       // an empty interval table has no `start` column: KeyError
    | NoSyncColumn      // the sensor table has no sync timestamp column: KeyError

  /** The fixed clock correction between the marker log and the sensor clock. */
  const OffsetMs: int := 3_600_000

  /** Seconds on the marker clock to milliseconds on the sensor clock. */
  function ToMs(ts: int): (ms: int)
    ensures (ms + OffsetMs) % 1000 == 0 && (ms + OffsetMs) / 1000 == ts
  {
    ts * 1000 - OffsetMs
  }

  /** The conversion keeps the order of timestamps and tells different ones apart. */
  lemma ToMsOrder(a: int, b: int)
    ensures a <= b <==> ToMs(a) <= ToMs(b)
    ensures a == b <==> ToMs(a) == ToMs(b)
  {
  }
}
