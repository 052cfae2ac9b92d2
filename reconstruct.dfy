/**
 * Rebuilding the level schedule from the marker events (extract_data.py,
 * `parse_condition_intervals`, its block scan). A block begins at a `Level00_` event that
 * carries a repetition index and takes in the whole run of indexed events that follows;
 * the first event without an index ends it. Each block member becomes one row that lasts
 * until the next event, and the n-th block of a condition is numbered n.
 */
module Reconstruct {
  import opened Wrappers
  import opened Schema
  import opened Conditions

  /** `line['rep'] is not None and re.match(r'Level00_', line['name'])`: an event that opens a block. */
  predicate IsLeader(e: Event) {
    e.rep.Some? && "Level00_" <= e.name
  }

  /** The first index at or after `j` whose event has no repetition index, or the length of the log. */
  function RunEnd(events: seq<Event>, j: nat): (r: nat)
    requires j <= |events|
    ensures j <= r <= |events|
    ensures forall k :: j <= k < r ==> events[k].rep.Some?
    ensures r < |events| ==> events[r].rep.None?
    decreases |events| - j
  {
    if j == |events| || events[j].rep.None? then j else RunEnd(events, j + 1)
  }

  /** Members `first .. stop - 1`; `stop` is the terminator's index, or the log length when there is none. */
  datatype Block = Block(first: nat, stop: nat)

  /** `b` is a block of the log: a leader, then the maximal run of indexed events after it. */
  predicate BlockAt(events: seq<Event>, b: Block) {
    && b.first < b.stop <= |events|
    && IsLeader(events[b.first])
    && (forall k :: b.first < k < b.stop ==> events[k].rep.Some?)
    && (b.stop < |events| ==> events[b.stop].rep.None?)
  }

  /** The blocks the scan finds from index `i` on. */
  function BlocksFrom(events: seq<Event>, i: nat): (bs: seq<Block>)
    requires i <= |events|
    ensures forall m :: 0 <= m < |bs| ==> i <= bs[m].first < bs[m].stop <= |events|
    decreases |events| - i
  {
    if i == |events| then []
    else if IsLeader(events[i]) then
      var stop := RunEnd(events, i + 1);
      [Block(i, stop)] + BlocksFrom(events, stop)
    else BlocksFrom(events, i + 1)
  }

  /** The blocks of the whole log, in log order. */
  function Blocks(events: seq<Event>): (bs: seq<Block>)
    ensures forall m :: 0 <= m < |bs| ==> bs[m].first < bs[m].stop <= |events|
  {
    BlocksFrom(events, 0)
  }

  /** Each block found from `i` on is a leader and its maximal run, and the blocks come in log order without overlap. */
  lemma {:induction false} BlocksFromShape(events: seq<Event>, i: nat)
    requires i <= |events|
    ensures forall m :: 0 <= m < |BlocksFrom(events, i)| ==> BlockAt(events, BlocksFrom(events, i)[m])
    ensures forall m, m' :: 0 <= m < m' < |BlocksFrom(events, i)| ==> BlocksFrom(events, i)[m].stop < BlocksFrom(events, i)[m'].first
    decreases |events| - i
  {
    if i < |events| {
      if IsLeader(events[i]) {
        var stop := RunEnd(events, i + 1);
        BlocksFromShape(events, stop);
        var rest := BlocksFrom(events, stop);
        var bs := [Block(i, stop)] + rest;
        assert BlocksFrom(events, i) == bs;
        forall m' | 0 < m' < |bs| ensures stop < bs[m'].first {
          assert bs[m'] == rest[m' - 1];
          assert IsLeader(events[rest[m' - 1].first]);
        }
      } else {
        BlocksFromShape(events, i + 1);
        assert BlocksFrom(events, i) == BlocksFrom(events, i + 1);
      }
    }
  }

  /** The blocks of the log: each is a leader and the maximal run of indexed events after it, in log order. */
  lemma BlocksShape(events: seq<Event>)
    ensures forall m :: 0 <= m < |Blocks(events)| ==> BlockAt(events, Blocks(events)[m])
    ensures forall m, m' :: 0 <= m < m' < |Blocks(events)| ==> Blocks(events)[m].stop < Blocks(events)[m'].first
  {
    BlocksFromShape(events, 0);
    assert Blocks(events) == BlocksFrom(events, 0);
  }

  /** Every leader is a member of some block: of its own, or of the block whose run it falls in. */
  lemma {:induction false} LeaderInBlockFrom(events: seq<Event>, i: nat, k: nat) returns (m: nat)
    requires i <= k < |events| && IsLeader(events[k])
    ensures m < |BlocksFrom(events, i)|
    ensures BlocksFrom(events, i)[m].first <= k < BlocksFrom(events, i)[m].stop
    decreases |events| - i
  {
    var bs := BlocksFrom(events, i);
    if IsLeader(events[i]) {
      var stop := RunEnd(events, i + 1);
      if k < stop {
        m := 0;
      } else {
        var m' := LeaderInBlockFrom(events, stop, k);
        m := m' + 1;
        assert bs[m] == BlocksFrom(events, stop)[m'];
      }
    } else {
      m := LeaderInBlockFrom(events, i + 1, k);
    }
  }

  /** Every leader of the log is a member of some block. */
  lemma LeaderInBlock(events: seq<Event>, k: nat) returns (m: nat)
    requires k < |events| && IsLeader(events[k])
    ensures m < |Blocks(events)| && Blocks(events)[m].first <= k < Blocks(events)[m].stop
  {
    m := LeaderInBlockFrom(events, 0, k);
  }

  /** `int(re.match(r'Level(\d+)_', name).group(1))` for every event: its level, `None` where the match fails. */
  function Levels(events: seq<Event>): seq<Option<nat>> {
    seq(|events|, k requires 0 <= k < |events| => LevelNumber(events[k].name))
  }

  /** `get_condition` of each block's leader, block by block. */
  function BlockConditions(events: seq<Event>): seq<string> {
    var bs := Blocks(events);
    seq(|bs|, m requires 0 <= m < |bs| => GetCondition(events[bs[m].first].name))
  }

  /** How many of the first `m` conditions in `cs` are `c`. */
  function CountBefore(cs: seq<string>, m: nat, c: string): nat
    requires m <= |cs|
  {
    if m == 0 then 0 else CountBefore(cs, m - 1, c) + (if cs[m - 1] == c then 1 else 0)
  }

  /** The repetition number of the `m`-th block, whose condition is `cs[m]`: how many earlier blocks share it. */
  function RepNumber(cs: seq<string>, m: nat): nat
    requires m < |cs|
  {
    CountBefore(cs, m, cs[m])
  }

  /**
   * The rows of members `k ..` of block `b`, as the inner loop builds them: the level is read
   * first, and a member ends where the next member starts, or at the terminator.
   */
  function MemberRows(events: seq<Event>, levels: seq<Option<nat>>, b: Block, cond: string, repNo: nat, k: nat)
    : Result<seq<Interval>, Failure>
    requires |levels| == |events| && b.first <= k <= b.stop <= |events|
    decreases b.stop - k
  {
    if k == b.stop then Ok([])
    else
      match levels[k]
      case None => Err(NoLevelPrefix(k))
      case Some(level) =>
        var endTs := if k + 1 < b.stop then Some(events[k + 1].ts)
          else if b.stop < |events| then Some(events[b.stop].ts) else None;
        match endTs
        case None => Err(Unterminated(b.first))
        case Some(t) =>
          Prefixed([Interval(cond, repNo, level, ToMs(events[k].ts), ToMs(t))], MemberRows(events, levels, b, cond, repNo, k + 1))
  }

  /** The rows of block `m`. */
  function BlockRows(events: seq<Event>, m: nat): Result<seq<Interval>, Failure>
    requires m < |Blocks(events)|
  {
    var b := Blocks(events)[m];
    var cs := BlockConditions(events);
    MemberRows(events, Levels(events), b, cs[m], RepNumber(cs, m), b.first)
  }

  /** The rows of each block, or its failure, in log order. */
  function BlockResults(events: seq<Event>): seq<Result<seq<Interval>, Failure>> {
    var bs := Blocks(events);
    seq(|bs|, m requires 0 <= m < |bs| => BlockRows(events, m))
  }

  /** The schedule `parse_condition_intervals` returns for a log of events: block after block, the first failing block failing it. */
  function Intervals(events: seq<Event>): Result<seq<Interval>, Failure> {
    ThenAll(BlockResults(events))
  }

  /** `condition_counts.get(condition, 0)` */
  function Lookup(counts: map<string, nat>, c: string): nat {
    if c in counts then counts[c] else 0
  }

  /** At a leader the scan's next block starts here and runs to the end of the run; the scan resumes at its end. */
  lemma LeaderStep(events: seq<Event>, i: nat, n: nat)
    requires i < |events| && IsLeader(events[i]) && n <= |Blocks(events)|
    requires BlocksFrom(events, i) == Blocks(events)[n..]
    ensures n < |Blocks(events)| && Blocks(events)[n] == Block(i, RunEnd(events, i + 1))
    ensures BlocksFrom(events, RunEnd(events, i + 1)) == Blocks(events)[n + 1..]
    ensures BlockConditions(events)[n] == GetCondition(events[i].name)
  {
    var bs := Blocks(events);
    assert bs[n..] == [Block(i, RunEnd(events, i + 1))] + BlocksFrom(events, RunEnd(events, i + 1));
    assert bs[n + 1..] == bs[n..][1..];
  }

  /** The counters after `n` blocks: for every condition, how many of those blocks have it. */
  ghost predicate CountsAfter(cs: seq<string>, n: nat, counts: map<string, nat>)
    requires n <= |cs|
  {
    forall c :: Lookup(counts, c) == CountBefore(cs, n, c)
  }

  /** Bumping block `n`'s condition in the counters after `n` blocks gives the counters after `n + 1`. */
  lemma CountsBump(cs: seq<string>, n: nat, counts: map<string, nat>)
    requires n < |cs| && CountsAfter(cs, n, counts)
    ensures CountsAfter(cs, n + 1, counts[cs[n] := Lookup(counts, cs[n]) + 1])
  {
    var bumped := counts[cs[n] := Lookup(counts, cs[n]) + 1];
    forall c ensures Lookup(bumped, c) == CountBefore(cs, n + 1, c) {
      assert Lookup(counts, c) == CountBefore(cs, n, c);
    }
  }

  /** The inner `while` of the scan (extract_data.py:47-49): `j` moves past the run of indexed events. */
  method SkipRun(events: seq<Event>, from: nat) returns (j: nat)
    requires from <= |events|
    ensures j == RunEnd(events, from)
  {
    j := from;
    while j < |events| && events[j].rep.Some?
      invariant from <= j <= |events|
      invariant RunEnd(events, from) == RunEnd(events, j)
      decreases |events| - j
    {
      j := j + 1;
    }
  }

  /**
   * The rows of the block of members `i .. j - 1` appended to `rows` (extract_data.py:51,
   * 57-65): the terminator's timestamp is read first, then each member's level and end.
   */
  method EmitBlock(events: seq<Event>, i: nat, j: nat, cond: string, repCount: nat, rows: seq<Interval>)
    returns (r: Result<seq<Interval>, Failure>)
    requires i < j <= |events|
    ensures r == Prefixed(rows, MemberRows(events, Levels(events), Block(i, j), cond, repCount, i))
  {
    var endTs := if j < |events| then Some(events[j].ts) else None;
    var b := Block(i, j);
    ghost var levels := Levels(events);
    var out := rows;
    for k := i to j
      invariant Prefixed(rows, MemberRows(events, levels, b, cond, repCount, i)) == Prefixed(out, MemberRows(events, levels, b, cond, repCount, k))
    {
      var level := LevelNumber(events[k].name);
      assert level == levels[k];
      if level.None? {
        return Err(NoLevelPrefix(k));
      }
      var lvlEnd := if k + 1 < j then Some(events[k + 1].ts) else endTs;
      if lvlEnd.None? {
        return Err(Unterminated(i));
      }
      var row := Interval(cond, repCount, level.value, ToMs(events[k].ts), ToMs(lvlEnd.value));
      PrefixedTwice(out, [row], MemberRows(events, levels, b, cond, repCount, k + 1));
      out := out + [row];
    }
    assert out + [] == out;
    return Ok(out);
  }

  /** What the scan knows after `i` events: `n` blocks done, their rows built, their conditions counted. */
  ghost predicate ScanState(events: seq<Event>, i: nat, n: nat, rows: seq<Interval>, counts: map<string, nat>) {
    && i <= |events| && n <= |Blocks(events)|
    && BlocksFrom(events, i) == Blocks(events)[n..]
    && Intervals(events) == Prefixed(rows, ThenAll(BlockResults(events)[n..]))
    && CountsAfter(BlockConditions(events), n, counts)
  }

  lemma ScanStart(events: seq<Event>)
    ensures ScanState(events, 0, 0, [], map[])
  {
    assert BlockResults(events)[0..] == BlockResults(events);
    PrefixedNothing(Intervals(events));
  }

  /** An event that opens no block is passed over. */
  lemma ScanSkip(events: seq<Event>, i: nat, n: nat, rows: seq<Interval>, counts: map<string, nat>)
    requires ScanState(events, i, n, rows, counts) && i < |events| && !IsLeader(events[i])
    ensures ScanState(events, i + 1, n, rows, counts)
  {
  }

  /** At a leader, block `n` starts: its condition and its repetition number come from the leader and the counters. */
  lemma ScanLeader(events: seq<Event>, i: nat, n: nat, rows: seq<Interval>, counts: map<string, nat>)
    requires ScanState(events, i, n, rows, counts) && i < |events| && IsLeader(events[i])
    ensures n < |Blocks(events)| && Blocks(events)[n] == Block(i, RunEnd(events, i + 1))
    ensures BlockConditions(events)[n] == GetCondition(events[i].name)
    ensures Lookup(counts, GetCondition(events[i].name)) == RepNumber(BlockConditions(events), n)
  {
    LeaderStep(events, i, n);
  }

  /** Block `n`'s rows, built from the leader at `i` and the counters, are the `n`-th block result. */
  lemma ScanBlock(events: seq<Event>, i: nat, n: nat, rows: seq<Interval>, counts: map<string, nat>, j: nat)
    requires ScanState(events, i, n, rows, counts) && i < |events| && IsLeader(events[i])
    requires j == RunEnd(events, i + 1)
    ensures n < |Blocks(events)|
    ensures Intervals(events) == Prefixed(rows, Then(BlockResults(events)[n], ThenAll(BlockResults(events)[n + 1..])))
    ensures BlockResults(events)[n]
      == MemberRows(events, Levels(events), Block(i, j), GetCondition(events[i].name), Lookup(counts, GetCondition(events[i].name)), i)
  {
    ScanLeader(events, i, n, rows, counts);
    ThenAllFrom(BlockResults(events), n);
  }

  /** A block whose rows fail makes the whole schedule fail the same way. */
  lemma ScanBlockFailed(events: seq<Event>, i: nat, n: nat, rows: seq<Interval>, counts: map<string, nat>,
                        j: nat, block: Result<seq<Interval>, Failure>)
    requires ScanState(events, i, n, rows, counts) && i < |events| && IsLeader(events[i])
    requires j == RunEnd(events, i + 1)
    requires block == Prefixed(rows, MemberRows(events, Levels(events), Block(i, j), GetCondition(events[i].name), Lookup(counts, GetCondition(events[i].name)), i))
    requires block.Err?
    ensures block == Intervals(events)
  {
    ScanBlock(events, i, n, rows, counts, j);
  }

  /** After block `n`'s rows, the scan resumes at the terminator with one more block done. */
  lemma ScanBlockDone(events: seq<Event>, i: nat, n: nat, rows: seq<Interval>, counts: map<string, nat>,
                      j: nat, block: Result<seq<Interval>, Failure>)
    requires ScanState(events, i, n, rows, counts) && i < |events| && IsLeader(events[i])
    requires j == RunEnd(events, i + 1)
    requires block == Prefixed(rows, MemberRows(events, Levels(events), Block(i, j), GetCondition(events[i].name), Lookup(counts, GetCondition(events[i].name)), i))
    requires block.Ok?
    ensures ScanState(events, j, n + 1, block.value,
      counts[GetCondition(events[i].name) := Lookup(counts, GetCondition(events[i].name)) + 1])
  {
    ScanBlock(events, i, n, rows, counts, j);
    LeaderStep(events, i, n);
    var made := BlockResults(events)[n];
    PrefixedTwice(rows, made.value, ThenAll(BlockResults(events)[n + 1..]));
    CountsBump(BlockConditions(events), n, counts);
  }

  /** When the events run out, the rows built are the schedule. */
  lemma ScanEnd(events: seq<Event>, n: nat, rows: seq<Interval>, counts: map<string, nat>)
    requires ScanState(events, |events|, n, rows, counts)
    ensures Intervals(events) == Ok(rows)
  {
    assert BlockResults(events)[n..] == [];
    assert rows + [] == rows;
  }

  /**
   * The block scan (extract_data.py:36-72): `i` walks the events; at a leader, `j` runs to
   * the terminator, the condition's counter is read and bumped, and each member appends a row.
   */
  method ReconstructIntervals(events: seq<Event>) returns (r: Result<seq<Interval>, Failure>)
    ensures r == Intervals(events)
  {
    var rows: seq<Interval> := [];
    var counts: map<string, nat> := map[];
    var i := 0;
    ghost var n := 0;
    ScanStart(events);
    while i < |events|
      invariant ScanState(events, i, n, rows, counts)
      decreases |events| - i
    {
      var e := events[i];
      if IsLeader(e) {
        var cond := GetCondition(e.name);
        var j := SkipRun(events, i + 1);
        ScanLeader(events, i, n, rows, counts);
        var repCount := Lookup(counts, cond);
        var block := EmitBlock(events, i, j, cond, repCount, rows);
        if block.Err? {
          ScanBlockFailed(events, i, n, rows, counts, j, block);
          return block;
        }
        ScanBlockDone(events, i, n, rows, counts, j, block);
        rows := block.value;
        counts := counts[cond := repCount + 1];
        i := j;
        n := n + 1;
      } else {
        ScanSkip(events, i, n, rows, counts);
        i := i + 1;
      }
    }
    ScanEnd(events, n, rows, counts);
    return Ok(rows);
  }
}
