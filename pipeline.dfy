/**
 * `parse_condition_intervals` as a whole (extract_data.py:10-72): the log's lines are read
 * into marker events, then the level schedule is rebuilt from them. A failure of the read
 * is the failure of the whole call.
 */
module Extract {
  import opened Wrappers
  import opened Schema
  import opened EventLog
  import opened Reconstruct

  /** The schedule a log describes, or the first failure met reading it. */
  function ConditionIntervals(lines: seq<string>): Result<seq<Interval>, Failure> {
    match ParseLines(lines)
    case Err(f) => Err(f)
    case Ok(events) => Intervals(events)
  }

  /** Read the events, then scan them for blocks. */
  method ParseConditionIntervals(lines: seq<string>) returns (r: Result<seq<Interval>, Failure>)
    ensures r == ConditionIntervals(lines)
  {
    var events := ReadEvents(lines);
    if events.Err? {
      return Err(events.error);
    }
    r := ReconstructIntervals(events.value);
  }

  /** A log written one line per event yields the schedule of those events. */
  lemma RenderedLogSchedule(events: seq<Event>, clock: string)
    requires ClockOk(clock)
    requires forall k :: 0 <= k < |events| ==> NameOk(events[k].name)
    ensures ConditionIntervals(RenderLog(events, clock)) == Intervals(events)
  {
    RenderedLogParses(events, clock);
  }
}
