/**
 * What the schedule rebuilt by `parse_condition_intervals` holds (extract_data.py:36-72):
 * one row per block member, in log order; within a block each row ends where the next
 * begins and the last one ends at the terminator; the n-th block of a condition is
 * numbered n; and the whole reconstruction fails exactly when some block has a member
 * without a level prefix or runs to the end of the log.
 */
module ScheduleFacts {
  import opened Wrappers
  import opened Schema
  import opened Reconstruct

  /** Every event in `k .. stop - 1` has a level. */
  predicate Levelled(levels: seq<Option<nat>>, k: nat, stop: nat)
    requires k <= stop <= |levels|
  {
    forall j :: k <= j < stop ==> levels[j].Some?
  }

  /** The row of member `j`: its level, from its own timestamp to the next event's, both in sensor milliseconds. */
  function MemberRow(events: seq<Event>, levels: seq<Option<nat>>, cond: string, repNo: nat, j: nat): Interval
    requires |levels| == |events| && j + 1 < |events| && levels[j].Some?
  {
    Interval(cond, repNo, levels[j].value, ToMs(events[j].ts), ToMs(events[j + 1].ts))
  }

  /** A block that yields rows: a terminator follows it and each member has a level. */
  predicate BlockSound(events: seq<Event>, levels: seq<Option<nat>>, b: Block)
    requires |levels| == |events|
  {
    b.first <= b.stop < |events| && Levelled(levels, b.first, b.stop)
  }

  /** Members `k ..` of a block yield rows exactly when each has a level and a terminator follows the block. */
  lemma {:induction false} MemberRowsOk(events: seq<Event>, levels: seq<Option<nat>>, b: Block, cond: string, repNo: nat, k: nat)
    requires |levels| == |events| && b.first <= k <= b.stop <= |events|
    ensures MemberRows(events, levels, b, cond, repNo, k).Ok? <==> Levelled(levels, k, b.stop) && (k < b.stop ==> b.stop < |events|)
    decreases b.stop - k
  {
    if k < b.stop {
      MemberRowsOk(events, levels, b, cond, repNo, k + 1);
      assert Levelled(levels, k, b.stop) <==> levels[k].Some? && Levelled(levels, k + 1, b.stop);
    }
  }

  /**
   * The rows of members `k ..`: one per member, in member order, and member `j`'s row ends at
   * event `j + 1`, the next member or, for the last one, the terminator.
   */
  lemma {:induction false} MemberRowsValues(events: seq<Event>, levels: seq<Option<nat>>, b: Block, cond: string, repNo: nat, k: nat)
    requires |levels| == |events| && b.first <= k <= b.stop < |events| && Levelled(levels, k, b.stop)
    ensures MemberRows(events, levels, b, cond, repNo, k).Ok?
    ensures |MemberRows(events, levels, b, cond, repNo, k).value| == b.stop - k
    ensures forall j :: k <= j < b.stop ==>
      MemberRows(events, levels, b, cond, repNo, k).value[j - k] == MemberRow(events, levels, cond, repNo, j)
    decreases b.stop - k
  {
    if k < b.stop {
      MemberRowsValues(events, levels, b, cond, repNo, k + 1);
      var r := MemberRows(events, levels, b, cond, repNo, k);
      var rest := MemberRows(events, levels, b, cond, repNo, k + 1);
      assert r == Prefixed([MemberRow(events, levels, cond, repNo, k)], rest);
      forall j | k < j < b.stop ensures r.value[j - k] == MemberRow(events, levels, cond, repNo, j) {
        assert r.value[j - k] == rest.value[j - (k + 1)];
      }
    }
  }

  /**
   * When members `k ..` fail, the failure names the first member without a level, or, when
   * every member has one, the block's leader: the block has no terminator.
   */
  lemma {:induction false} MemberRowsFailure(events: seq<Event>, levels: seq<Option<nat>>, b: Block, cond: string, repNo: nat, k: nat)
    requires |levels| == |events| && b.first <= k <= b.stop <= |events|
    requires MemberRows(events, levels, b, cond, repNo, k).Err?
    ensures var e := MemberRows(events, levels, b, cond, repNo, k).error;
      || (e.NoLevelPrefix? && k <= e.index < b.stop && levels[e.index].None? && Levelled(levels, k, e.index))
      || (e == Unterminated(b.first) && b.stop == |events| && Levelled(levels, k, b.stop))
    decreases b.stop - k
  {
    var r := MemberRows(events, levels, b, cond, repNo, k);
    if levels[k].Some? && !(k + 1 == b.stop && b.stop == |events|) {
      MemberRowsFailure(events, levels, b, cond, repNo, k + 1);
      assert r.error == MemberRows(events, levels, b, cond, repNo, k + 1).error;
    }
  }

  /**
   * `rs` holds the rows of blocks `bs` of `events`, block by block, built as the scan builds
   * them from the members' levels `levels` and the blocks' conditions `cs`.
   */
  predicate Assembled(events: seq<Event>, levels: seq<Option<nat>>, bs: seq<Block>, cs: seq<string>,
                      rs: seq<Result<seq<Interval>, Failure>>) {
    && |levels| == |events| && |cs| == |bs| && |rs| == |bs|
    && (forall m :: 0 <= m < |bs| ==> bs[m].first < bs[m].stop <= |events|)
    && (forall m :: 0 <= m < |bs| ==> rs[m] == MemberRows(events, levels, bs[m], cs[m], RepNumber(cs, m), bs[m].first))
  }

  /** The schedule is assembled from the log's blocks, levels and conditions. */
  lemma IntervalsAssembled(events: seq<Event>)
    ensures Assembled(events, Levels(events), Blocks(events), BlockConditions(events), BlockResults(events))
    ensures Intervals(events) == ThenAll(BlockResults(events))
  {
  }

  lemma AssembledOk(events: seq<Event>, levels: seq<Option<nat>>, bs: seq<Block>, cs: seq<string>,
                    rs: seq<Result<seq<Interval>, Failure>>)
    requires Assembled(events, levels, bs, cs, rs)
    ensures forall m :: 0 <= m < |bs| ==> (rs[m].Ok? <==> BlockSound(events, levels, bs[m]))
    ensures ThenAll(rs).Ok? <==> forall m :: 0 <= m < |bs| ==> BlockSound(events, levels, bs[m])
  {
    forall m | 0 <= m < |bs| ensures rs[m].Ok? <==> BlockSound(events, levels, bs[m]) {
      MemberRowsOk(events, levels, bs[m], cs[m], RepNumber(cs, m), bs[m].first);
    }
    ThenAllOk(rs);
  }

  /**
   * The reconstruction succeeds exactly when every block is terminated and each of its members
   * has a `Level<digits>_` prefix.
   */
  lemma IntervalsOk(events: seq<Event>)
    ensures Intervals(events).Ok? <==> forall m :: 0 <= m < |Blocks(events)| ==> BlockSound(events, Levels(events), Blocks(events)[m])
  {
    IntervalsAssembled(events);
    AssembledOk(events, Levels(events), Blocks(events), BlockConditions(events), BlockResults(events));
  }

  lemma AssembledFailure(events: seq<Event>, levels: seq<Option<nat>>, bs: seq<Block>, cs: seq<string>,
                         rs: seq<Result<seq<Interval>, Failure>>) returns (m: nat)
    requires Assembled(events, levels, bs, cs, rs) && ThenAll(rs).Err?
    ensures m < |bs| && !BlockSound(events, levels, bs[m])
    ensures forall m' :: 0 <= m' < m ==> BlockSound(events, levels, bs[m'])
    ensures var b := bs[m]; var e := ThenAll(rs).error;
      || (e.NoLevelPrefix? && b.first <= e.index < b.stop && levels[e.index].None? && Levelled(levels, b.first, e.index))
      || (e == Unterminated(b.first) && b.stop == |events| && Levelled(levels, b.first, b.stop))
  {
    AssembledOk(events, levels, bs, cs, rs);
    m := ThenAllFailure(rs);
    MemberRowsFailure(events, levels, bs[m], cs[m], RepNumber(cs, m), bs[m].first);
  }

  /**
   * A failed reconstruction fails at the first unsound block `m`: with the first member of it
   * that lacks a level prefix, or, when all have one, with its leader, as it has no terminator.
   */
  lemma IntervalsFailure(events: seq<Event>) returns (m: nat)
    requires Intervals(events).Err?
    ensures m < |Blocks(events)| && !BlockSound(events, Levels(events), Blocks(events)[m])
    ensures forall m' :: 0 <= m' < m ==> BlockSound(events, Levels(events), Blocks(events)[m'])
    ensures var b := Blocks(events)[m]; var e := Intervals(events).error; var levels := Levels(events);
      || (e.NoLevelPrefix? && b.first <= e.index < b.stop && levels[e.index].None? && Levelled(levels, b.first, e.index))
      || (e == Unterminated(b.first) && b.stop == |events| && Levelled(levels, b.first, b.stop))
  {
    IntervalsAssembled(events);
    m := AssembledFailure(events, Levels(events), Blocks(events), BlockConditions(events), BlockResults(events));
  }

  /** The number of members in the first `m` blocks of `bs`. */
  function Span(bs: seq<Block>, m: nat): int
    requires m <= |bs|
    decreases m
  {
    if m == 0 then 0 else (bs[0].stop - bs[0].first) + Span(bs[1..], m - 1)
  }

  /** Results carrying one element per member of their blocks start where the members of the earlier blocks end. */
  lemma {:induction false} BeforeIsSpan<T, E>(rs: seq<Result<seq<T>, E>>, bs: seq<Block>, m: nat)
    requires |rs| == |bs| && m <= |rs|
    requires forall k :: 0 <= k < |rs| ==> Len(rs[k]) == bs[k].stop - bs[k].first
    ensures Before(rs, m) == Span(bs, m)
    decreases m
  {
    if m > 0 {
      BeforeIsSpan(rs[1..], bs[1..], m - 1);
    }
  }

  /** In a successful assembly each block carries one row per member, each as `MemberRow` gives it. */
  lemma AssembledValues(events: seq<Event>, levels: seq<Option<nat>>, bs: seq<Block>, cs: seq<string>,
                        rs: seq<Result<seq<Interval>, Failure>>)
    requires Assembled(events, levels, bs, cs, rs) && ThenAll(rs).Ok?
    ensures forall m :: 0 <= m < |bs| ==>
      BlockSound(events, levels, bs[m]) && rs[m].Ok? && Len(rs[m]) == |rs[m].value| == bs[m].stop - bs[m].first
    ensures forall m, j :: 0 <= m < |bs| && bs[m].first <= j < bs[m].stop ==>
      && BlockSound(events, levels, bs[m]) && rs[m].Ok? && j - bs[m].first < |rs[m].value|
      && j + 1 < |events| && levels[j].Some?
      && rs[m].value[j - bs[m].first] == MemberRow(events, levels, cs[m], RepNumber(cs, m), j)
  {
    AssembledOk(events, levels, bs, cs, rs);
    forall m | 0 <= m < |bs|
      ensures rs[m].Ok? && |rs[m].value| == bs[m].stop - bs[m].first
      ensures forall j :: bs[m].first <= j < bs[m].stop ==> rs[m].value[j - bs[m].first] == MemberRow(events, levels, cs[m], RepNumber(cs, m), j)
    {
      MemberRowsValues(events, levels, bs[m], cs[m], RepNumber(cs, m), bs[m].first);
    }
  }

  lemma AssembledLength(events: seq<Event>, levels: seq<Option<nat>>, bs: seq<Block>, cs: seq<string>,
                        rs: seq<Result<seq<Interval>, Failure>>)
    requires Assembled(events, levels, bs, cs, rs) && ThenAll(rs).Ok?
    ensures |ThenAll(rs).value| == Span(bs, |bs|)
  {
    AssembledValues(events, levels, bs, cs, rs);
    ThenAllLength(rs);
    BeforeIsSpan(rs, bs, |bs|);
  }

  /** A successful reconstruction has exactly one row per block member. */
  lemma IntervalsLength(events: seq<Event>)
    requires Intervals(events).Ok?
    ensures |Intervals(events).value| == Span(Blocks(events), |Blocks(events)|)
  {
    IntervalsAssembled(events);
    AssembledLength(events, Levels(events), Blocks(events), BlockConditions(events), BlockResults(events));
  }

  lemma AssembledRow(events: seq<Event>, levels: seq<Option<nat>>, bs: seq<Block>, cs: seq<string>,
                     rs: seq<Result<seq<Interval>, Failure>>, m: nat, j: nat)
    requires Assembled(events, levels, bs, cs, rs) && ThenAll(rs).Ok?
    requires m < |bs| && bs[m].first <= j < bs[m].stop
    ensures var rows := ThenAll(rs).value; var p := Span(bs, m) + j - bs[m].first;
      && j + 1 < |events| && levels[j].Some?
      && 0 <= p < |rows| && rows[p] == MemberRow(events, levels, cs[m], RepNumber(cs, m), j)
  {
    AssembledValues(events, levels, bs, cs, rs);
    ThenAllAt(rs, m, j - bs[m].first);
    BeforeIsSpan(rs, bs, m);
  }

  /**
   * In a successful reconstruction member `j` of block `m` is row `Span(m) + j - first`: the
   * block's condition and repetition number, the member's level, and the span from its
   * timestamp to the next event's.
   */
  lemma IntervalsRow(events: seq<Event>, m: nat, j: nat)
    requires Intervals(events).Ok? && m < |Blocks(events)|
    requires Blocks(events)[m].first <= j < Blocks(events)[m].stop
    ensures var rows := Intervals(events).value; var cs := BlockConditions(events);
      var p := Span(Blocks(events), m) + j - Blocks(events)[m].first;
      && j + 1 < |events| && Levels(events)[j].Some?
      && 0 <= p < |rows| && rows[p] == MemberRow(events, Levels(events), cs[m], RepNumber(cs, m), j)
  {
    IntervalsAssembled(events);
    AssembledRow(events, Levels(events), Blocks(events), BlockConditions(events), BlockResults(events), m, j);
  }

  lemma AssembledChain(events: seq<Event>, levels: seq<Option<nat>>, bs: seq<Block>, cs: seq<string>,
                       rs: seq<Result<seq<Interval>, Failure>>, m: nat, j: nat)
    requires Assembled(events, levels, bs, cs, rs) && ThenAll(rs).Ok?
    requires m < |bs| && bs[m].first <= j && j + 1 < bs[m].stop
    ensures var rows := ThenAll(rs).value; var p := Span(bs, m) + j - bs[m].first;
      0 <= p && p + 1 < |rows| && rows[p].end == rows[p + 1].start
  {
    AssembledRow(events, levels, bs, cs, rs, m, j);
    AssembledRow(events, levels, bs, cs, rs, m, j + 1);
  }

  /** Within a block each row ends where the next member's row starts. */
  lemma RowsChainInBlock(events: seq<Event>, m: nat, j: nat)
    requires Intervals(events).Ok? && m < |Blocks(events)|
    requires Blocks(events)[m].first <= j && j + 1 < Blocks(events)[m].stop
    ensures var rows := Intervals(events).value; var p := Span(Blocks(events), m) + j - Blocks(events)[m].first;
      0 <= p && p + 1 < |rows| && rows[p].end == rows[p + 1].start
  {
    IntervalsAssembled(events);
    AssembledChain(events, Levels(events), Blocks(events), BlockConditions(events), BlockResults(events), m, j);
  }

  lemma AssembledLast(events: seq<Event>, levels: seq<Option<nat>>, bs: seq<Block>, cs: seq<string>,
                      rs: seq<Result<seq<Interval>, Failure>>, m: nat)
    requires Assembled(events, levels, bs, cs, rs) && ThenAll(rs).Ok? && m < |bs|
    ensures var b := bs[m]; var rows := ThenAll(rs).value; var p := Span(bs, m) + b.stop - 1 - b.first;
      b.stop < |events| && 0 <= p < |rows| && rows[p].end == ToMs(events[b.stop].ts)
  {
    AssembledRow(events, levels, bs, cs, rs, m, bs[m].stop - 1);
  }

  /** A block's last row ends at its terminator's timestamp. */
  lemma LastRowEndsAtTerminator(events: seq<Event>, m: nat)
    requires Intervals(events).Ok? && m < |Blocks(events)|
    ensures var b := Blocks(events)[m]; var rows := Intervals(events).value; var p := Span(Blocks(events), m) + b.stop - 1 - b.first;
      b.stop < |events| && 0 <= p < |rows| && rows[p].end == ToMs(events[b.stop].ts)
  {
    IntervalsAssembled(events);
    AssembledLast(events, Levels(events), Blocks(events), BlockConditions(events), BlockResults(events), m);
  }

  /** The log's timestamps never decrease. */
  predicate Chronological(events: seq<Event>) {
    forall a, b :: 0 <= a < b < |events| ==> events[a].ts <= events[b].ts
  }

  /** No row ends before it starts, and each row ends no later than any later row starts. */
  predicate InOrder(rows: seq<Interval>) {
    && (forall p :: 0 <= p < |rows| ==> rows[p].start <= rows[p].end)
    && (forall p, q :: 0 <= p < q < |rows| ==> rows[p].end <= rows[q].start)
  }

  /** Every row starts at `lo` or later and ends at `hi` or earlier. */
  predicate Between(rows: seq<Interval>, lo: int, hi: int) {
    forall p :: 0 <= p < |rows| ==> lo <= rows[p].start && rows[p].end <= hi
  }

  lemma InOrderAppend(a: seq<Interval>, b: seq<Interval>, t: int)
    requires InOrder(a) && InOrder(b)
    requires forall p :: 0 <= p < |a| ==> a[p].end <= t
    requires forall q :: 0 <= q < |b| ==> t <= b[q].start
    ensures InOrder(a + b)
  {
    var ab := a + b;
    forall p | 0 <= p < |ab| ensures ab[p].start <= ab[p].end {
      if p < |a| {
        assert ab[p] == a[p];
      } else {
        assert ab[p] == b[p - |a|];
      }
    }
    forall p, q | 0 <= p < q < |ab| ensures ab[p].end <= ab[q].start {
      if q < |a| {
        assert ab[p] == a[p] && ab[q] == a[q];
      } else if p < |a| {
        assert ab[p] == a[p] && ab[q] == b[q - |a|];
      } else {
        assert ab[p] == b[p - |a|] && ab[q] == b[q - |a|];
      }
    }
  }

  /** Each block ends before the next one starts. */
  predicate Disjoint(bs: seq<Block>) {
    forall k :: 0 <= k < |bs| - 1 ==> bs[k].stop < bs[k + 1].first
  }

  /** With a chronological log, the rows of a sound block are in order and lie between its leader and its terminator. */
  lemma MemberRowsInOrder(events: seq<Event>, levels: seq<Option<nat>>, b: Block, cond: string, repNo: nat)
    requires |levels| == |events| && Chronological(events) && BlockSound(events, levels, b)
    ensures MemberRows(events, levels, b, cond, repNo, b.first).Ok?
    ensures var rows := MemberRows(events, levels, b, cond, repNo, b.first).value;
      InOrder(rows) && Between(rows, ToMs(events[b.first].ts), ToMs(events[b.stop].ts))
  {
    MemberRowsValues(events, levels, b, cond, repNo, b.first);
    var rows := MemberRows(events, levels, b, cond, repNo, b.first).value;
    forall p | 0 <= p < |rows|
      ensures rows[p].start == ToMs(events[b.first + p].ts) && rows[p].end == ToMs(events[b.first + p + 1].ts)
    {
      assert rows[p] == MemberRow(events, levels, cond, repNo, b.first + p);
    }
  }

  /** Blocks `k ..` of a chronological log, all sound and disjoint, chain into rows in order that start at block `k`'s leader or later. */
  lemma {:induction false} AssembledInOrderFrom(events: seq<Event>, levels: seq<Option<nat>>, bs: seq<Block>, cs: seq<string>,
                                                rs: seq<Result<seq<Interval>, Failure>>, k: nat)
    requires Assembled(events, levels, bs, cs, rs) && Chronological(events) && Disjoint(bs)
    requires k < |bs| && forall m :: k <= m < |bs| ==> BlockSound(events, levels, bs[m])
    ensures ThenAll(rs[k..]).Ok?
    ensures InOrder(ThenAll(rs[k..]).value)
    ensures forall p :: 0 <= p < |ThenAll(rs[k..]).value| ==> ToMs(events[bs[k].first].ts) <= ThenAll(rs[k..]).value[p].start
    decreases |bs| - k
  {
    ThenAllFrom(rs, k);
    MemberRowsInOrder(events, levels, bs[k], cs[k], RepNumber(cs, k));
    var here := rs[k].value;
    if k + 1 == |bs| {
      assert rs[k + 1..] == [];
      assert ThenAll(rs[k..]).value == here + [];
    } else {
      AssembledInOrderFrom(events, levels, bs, cs, rs, k + 1);
      var rest := ThenAll(rs[k + 1..]).value;
      assert ThenAll(rs[k..]).value == here + rest;
      InOrderAppend(here, rest, ToMs(events[bs[k].stop].ts));
    }
  }

  /**
   * With a chronological log, the schedule is in order: no row ends before it starts, and each
   * row ends no later than any later row starts.
   */
  lemma IntervalsInOrder(events: seq<Event>)
    requires Chronological(events) && Intervals(events).Ok?
    ensures InOrder(Intervals(events).value)
  {
    IntervalsAssembled(events);
    IntervalsOk(events);
    BlocksShape(events);
    if |Blocks(events)| > 0 {
      AssembledInOrderFrom(events, Levels(events), Blocks(events), BlockConditions(events), BlockResults(events), 0);
      assert BlockResults(events)[0..] == BlockResults(events);
    }
  }

  lemma {:induction false} CountBeforeGrows(cs: seq<string>, m: nat, m': nat, c: string)
    requires m <= m' <= |cs|
    ensures CountBefore(cs, m, c) <= CountBefore(cs, m', c)
    decreases m' - m
  {
    if m < m' {
      CountBeforeGrows(cs, m, m' - 1, c);
    }
  }

  /** A later block of the same condition has a larger repetition number. */
  lemma RepNumbersIncrease(cs: seq<string>, m: nat, m': nat)
    requires m < m' < |cs| && cs[m] == cs[m']
    ensures RepNumber(cs, m) < RepNumber(cs, m')
  {
    CountBeforeGrows(cs, m + 1, m', cs[m]);
  }

  lemma {:induction false} LastOfCondition(cs: seq<string>, m: nat, c: string) returns (m': nat)
    requires m <= |cs| && CountBefore(cs, m, c) > 0
    ensures m' < m && cs[m'] == c && CountBefore(cs, m', c) == CountBefore(cs, m, c) - 1
    decreases m
  {
    if cs[m - 1] == c {
      m' := m - 1;
    } else {
      m' := LastOfCondition(cs, m - 1, c);
    }
  }

  /** Repetition numbers have no gaps: a block numbered `r > 0` has an earlier block of its condition numbered `r - 1`. */
  lemma RepNumberPredecessor(cs: seq<string>, m: nat) returns (m': nat)
    requires m < |cs| && RepNumber(cs, m) > 0
    ensures m' < m && cs[m'] == cs[m] && RepNumber(cs, m') == RepNumber(cs, m) - 1
  {
    m' := LastOfCondition(cs, m, cs[m]);
  }

  lemma {:induction false} NoneBefore(cs: seq<string>, m: nat, c: string)
    requires m <= |cs|
    requires forall m' :: 0 <= m' < m ==> cs[m'] != c
    ensures CountBefore(cs, m, c) == 0
    decreases m
  {
    if m > 0 {
      NoneBefore(cs, m - 1, c);
    }
  }

  /** A block numbered 0 is the first of its condition, and the first of a condition is numbered 0. */
  lemma RepZeroIffFirst(cs: seq<string>, m: nat)
    requires m < |cs|
    ensures RepNumber(cs, m) == 0 <==> forall m' :: 0 <= m' < m ==> cs[m'] != cs[m]
  {
    forall m' | 0 <= m' < m ensures cs[m'] == cs[m] ==> RepNumber(cs, m) > 0 {
      CountBeforeGrows(cs, m' + 1, m, cs[m]);
    }
    if forall m' :: 0 <= m' < m ==> cs[m'] != cs[m] {
      NoneBefore(cs, m, cs[m]);
    }
  }
}
