/**
 * Cutting the sensor recordings along the reconstructed schedule (extract_data.py,
 * `process_subject`): the device tables are stacked, clipped to the experiment's span, and
 * for each schedule row, in schedule order, the samples whose sync timestamp lies in
 * `[start, end)` are copied out with that row's condition, repetition number and level.
 * Channel values are carried along untouched, as an opaque payload.
 */
module Segmenter {
  import opened Wrappers
  import opened Schema

  /** The sync timestamp column every device table is joined on. */
  const TsColumn: string := "Shimmer_A679_TimestampSync_Unix_CAL"

  /** The label columns, then the sync column: the columns the output leads with. */
  const TagColumns: seq<string> := ["condition", "rep", "level", TsColumn]

  /** One sensor sample: its sync timestamp in milliseconds (`None` where the cell is empty) and its channel values. */
  datatype Sample<P> = Sample(sync: Option<int>, payload: P)

  /** One device table: its column names and its samples, in file order. */
  datatype Table<P> = Table(columns: seq<string>, samples: seq<Sample<P>>)

  /** One output row: the labels of the schedule row that selected it, its sync timestamp and its channel values. */
  datatype LabeledRow<P> = LabeledRow(condition: string, rep: nat, level: nat, sync: int, payload: P)

  /** The labelled dataset: its column names, in output order, and its rows. */
  datatype Dataset<P> = Dataset(columns: seq<string>, rows: seq<LabeledRow<P>>)

  /** The sync timestamp lies in the half-open range `[lo, hi)`. */
  predicate InSpan<P>(s: Sample<P>, lo: int, hi: int) {
    s.sync.Some? && lo <= s.sync.value < hi
  }

  /** `df[(df[ts] >= lo) & (df[ts] < hi)]`: the samples in `[lo, hi)`, in their order. */
  function Keep<P>(samples: seq<Sample<P>>, lo: int, hi: int): (kept: seq<Sample<P>>)
    ensures |kept| <= |samples|
    ensures forall k :: 0 <= k < |kept| ==> InSpan(kept[k], lo, hi)
    decreases |samples|
  {
    if samples == [] then []
    else (if InSpan(samples[0], lo, hi) then [samples[0]] else []) + Keep(samples[1..], lo, hi)
  }

  /** Some device table has the sync column. */
  predicate HasSync<P>(tables: seq<Table<P>>) {
    exists k :: 0 <= k < |tables| && TsColumn in tables[k].columns
  }

  /** One table's samples as they appear in the stacked table: a table without the sync column has it empty there. */
  function Stacked<P>(t: Table<P>): seq<Sample<P>> {
    if TsColumn in t.columns then t.samples
    else Map((s: Sample<P>) => Sample(None, s.payload), t.samples)
  }

  /** `pd.concat(data_files, ignore_index=True)`: the samples of every table, table after table. */
  function Combine<P>(tables: seq<Table<P>>): seq<Sample<P>>
    decreases |tables|
  {
    if tables == [] then [] else Stacked(tables[0]) + Combine(tables[1..])
  }

  /**
   * A sample with a sync timestamp is in a table's stacked form exactly when the table has
   * the sync column and the sample is one of its own; a table without the column
   * contributes only empty sync values.
   */
  lemma StackedFromTable<P>(t: Table<P>, x: Sample<P>)
    ensures x.sync.Some? ==> (x in Stacked(t) <==> TsColumn in t.columns && x in t.samples)
    ensures TsColumn !in t.columns ==> forall k :: 0 <= k < |Stacked(t)| ==> Stacked(t)[k].sync.None?
  {
    if TsColumn !in t.columns && x in Stacked(t) {
      var k :| 0 <= k < |Stacked(t)| && Stacked(t)[k] == x;
      assert x.sync.None?;
    }
  }

  /** The stack of `a + b` is the stack of `a` followed by the stack of `b`. */
  lemma {:induction false} CombineAppend<P>(a: seq<Table<P>>, b: seq<Table<P>>)
    ensures Combine(a + b) == Combine(a) + Combine(b)
    decreases |a|
  {
    if a == [] {
      assert a + b == b;
    } else {
      assert (a + b)[0] == a[0] && (a + b)[1..] == a[1..] + b;
      CombineAppend(a[1..], b);
      AppendAssociates(Stacked(a[0]), Combine(a[1..]), Combine(b));
    }
  }

  /** A sample is in the stack exactly when it is in the stacked form of one of the tables. */
  lemma {:induction false} CombineMembers<P>(tables: seq<Table<P>>, x: Sample<P>)
    ensures x in Combine(tables) <==> exists t :: 0 <= t < |tables| && x in Stacked(tables[t])
    decreases |tables|
  {
    if tables != [] {
      CombineMembers(tables[1..], x);
      if x in Combine(tables[1..]) {
        var t :| 0 <= t < |tables[1..]| && x in Stacked(tables[1..][t]);
        assert x in Stacked(tables[t + 1]);
      }
      if t :| 1 <= t < |tables| && x in Stacked(tables[t]) {
        assert x in Stacked(tables[1..][t - 1]);
      }
    }
  }

  /** `level_intervals["start"].min()` */
  function MinStart(ivs: seq<Interval>): (lo: int)
    requires |ivs| > 0
    ensures forall k :: 0 <= k < |ivs| ==> lo <= ivs[k].start
    ensures exists k :: 0 <= k < |ivs| && ivs[k].start == lo
    decreases |ivs|
  {
    if |ivs| == 1 then ivs[0].start
    else
      var rest := MinStart(ivs[1..]);
      assert forall k :: 1 <= k < |ivs| ==> ivs[k] == ivs[1..][k - 1];
      if ivs[0].start <= rest then ivs[0].start else rest
  }

  /** `level_intervals["end"].max()` */
  function MaxEnd(ivs: seq<Interval>): (hi: int)
    requires |ivs| > 0
    ensures forall k :: 0 <= k < |ivs| ==> ivs[k].end <= hi
    ensures exists k :: 0 <= k < |ivs| && ivs[k].end == hi
    decreases |ivs|
  {
    if |ivs| == 1 then ivs[0].end
    else
      var rest := MaxEnd(ivs[1..]);
      assert forall k :: 1 <= k < |ivs| ==> ivs[k] == ivs[1..][k - 1];
      if ivs[0].end >= rest then ivs[0].end else rest
  }

  /** `row` carries schedule row `iv`'s labels and a sync timestamp in `iv`'s range. */
  predicate Carries<P>(iv: Interval, row: LabeledRow<P>) {
    row.condition == iv.condition && row.rep == iv.rep && row.level == iv.level && iv.start <= row.sync < iv.end
  }

  /** The samples of one segment with the schedule row's labels added (extract_data.py:90-92). */
  function Label<P>(samples: seq<Sample<P>>, iv: Interval): (rows: seq<LabeledRow<P>>)
    requires forall k :: 0 <= k < |samples| ==> samples[k].sync.Some?
    ensures |rows| == |samples|
    ensures forall k :: 0 <= k < |samples| ==>
      rows[k] == LabeledRow(iv.condition, iv.rep, iv.level, samples[k].sync.value, samples[k].payload)
    decreases |samples|
  {
    if samples == [] then []
    else
      [LabeledRow(iv.condition, iv.rep, iv.level, samples[0].sync.value, samples[0].payload)] + Label(samples[1..], iv)
  }

  /** The segment of schedule row `iv`: the samples it selects, labelled with it. */
  function Segment<P>(samples: seq<Sample<P>>, iv: Interval): (rows: seq<LabeledRow<P>>)
    ensures forall k :: 0 <= k < |rows| ==> Carries(iv, rows[k])
  {
    Label(Keep(samples, iv.start, iv.end), iv)
  }

  /** The segments of the schedule rows `ivs`, one after another in schedule order (extract_data.py:86-95). */
  function Segments<P>(samples: seq<Sample<P>>, ivs: seq<Interval>): (rows: seq<LabeledRow<P>>)
    ensures forall k :: 0 <= k < |rows| ==> exists m :: 0 <= m < |ivs| && Carries(ivs[m], rows[k])
    decreases |ivs|
  {
    if ivs == [] then []
    else
      var n := |ivs| - 1;
      var front, last := Segments(samples, ivs[..n]), Segment(samples, ivs[n]);
      assert forall m :: 0 <= m < n ==> ivs[..n][m] == ivs[m];
      assert forall k :: 0 <= k < |last| ==> (front + last)[|front| + k] == last[k];
      front + last
  }

  /** Column names in order of first appearance across the tables, as the stacked table has them. */
  function UnionColumns<P>(tables: seq<Table<P>>): seq<string>
    decreases |tables|
  {
    if tables == [] then [] else AddNew(UnionColumns(tables[..|tables| - 1]), tables[|tables| - 1].columns)
  }

  /** `seen` followed by the names of `cols` not already there, each once, in order. */
  function AddNew(seen: seq<string>, cols: seq<string>): (r: seq<string>)
    ensures forall c :: c in r <==> c in seen || c in cols
    ensures |seen| <= |r| && r[..|seen|] == seen
    decreases |cols|
  {
    if cols == [] then seen
    else if cols[0] in seen then AddNew(seen, cols[1..])
    else
      var r := AddNew(seen + [cols[0]], cols[1..]);
      assert r[..|seen|] == r[..|seen| + 1][..|seen|];
      r
  }

  /** The names added after `seen` are new, and each is added once. */
  lemma {:induction false} AddNewFresh(seen: seq<string>, cols: seq<string>)
    ensures forall i :: |seen| <= i < |AddNew(seen, cols)| ==> AddNew(seen, cols)[i] !in seen
    ensures forall i, j :: |seen| <= i < j < |AddNew(seen, cols)| ==> AddNew(seen, cols)[i] != AddNew(seen, cols)[j]
    decreases |cols|
  {
    if cols != [] {
      var c := cols[0];
      if c in seen {
        AddNewFresh(seen, cols[1..]);
      } else {
        AddNewFresh(seen + [c], cols[1..]);
        var r := AddNew(seen + [c], cols[1..]);
        assert r[|seen|] == r[..|seen| + 1][|seen|] == c;
        assert forall i :: |seen| < i < |r| ==> r[i] !in seen + [c];
      }
    }
  }

  /** Adding the names of `a`, then those of `b`, is adding the names of `a + b`: new names come in order of first appearance. */
  lemma {:induction false} AddNewAppend(seen: seq<string>, a: seq<string>, b: seq<string>)
    ensures AddNew(seen, a + b) == AddNew(AddNew(seen, a), b)
    decreases |a|
  {
    if a == [] {
      assert a + b == b;
    } else {
      assert (a + b)[0] == a[0] && (a + b)[1..] == a[1..] + b;
      if a[0] in seen {
        AddNewAppend(seen, a[1..], b);
      } else {
        AddNewAppend(seen + [a[0]], a[1..], b);
      }
    }
  }

  /** One name is added at the end exactly when it is new. */
  lemma AddNewOne(seen: seq<string>, c: string)
    ensures AddNew(seen, [c]) == if c in seen then seen else seen + [c]
  {
    assert [c][1..] == [];
  }

  /** No name occurs twice. */
  predicate Distinct(names: seq<string>) {
    forall i, j :: 0 <= i < j < |names| ==> names[i] != names[j]
  }

  /** `[c for c in cols if c not in tag_cols]` */
  function Others(cols: seq<string>): (r: seq<string>)
    ensures forall c :: c in r <==> c in cols && c !in TagColumns
    decreases |cols|
  {
    if cols == [] then []
    else (if cols[0] in TagColumns then [] else [cols[0]]) + Others(cols[1..])
  }

  /** `tag_cols + other_cols` (extract_data.py:98-100): the labels and the sync column, then the rest in stacked order. */
  function OutputColumns<P>(tables: seq<Table<P>>): seq<string> {
    TagColumns + Others(UnionColumns(tables))
  }

  /**
   * `process_subject` as a function: the error the first failing step raises, or the labelled
   * dataset. An empty table list fails `pd.concat`, an empty schedule has no `start` column,
   * and a stack without the sync column fails the clip.
   */
  function Process<P>(tables: seq<Table<P>>, ivs: seq<Interval>): (r: Result<Dataset<P>, Failure>)
    ensures r.Err? ==> r.error in [NoSensorTables, NoIntervals, NoSyncColumn]
    ensures r.Ok? ==> |TagColumns| <= |r.value.columns| && r.value.columns[..|TagColumns|] == TagColumns
  {
    if tables == [] then Err(NoSensorTables)
    else if ivs == [] then Err(NoIntervals)
    else if !HasSync(tables) then Err(NoSyncColumn)
    else
      var sensor := Keep(Combine(tables), MinStart(ivs), MaxEnd(ivs));
      Ok(Dataset(OutputColumns(tables), Segments(sensor, ivs)))
  }

  /** The loop of `process_subject` (extract_data.py:86-95): one segment per schedule row, appended in schedule order. */
  method SegmentAll<P>(sensor: seq<Sample<P>>, ivs: seq<Interval>) returns (segments: seq<LabeledRow<P>>)
    ensures segments == Segments(sensor, ivs)
  {
    segments := [];
    for k := 0 to |ivs|
      invariant segments == Segments(sensor, ivs[..k])
    {
      assert ivs[..k + 1][..k] == ivs[..k];
      segments := segments + Segment(sensor, ivs[k]);
    }
    assert ivs[..|ivs|] == ivs;
  }

  /** `process_subject` (extract_data.py:75-100): stack, clip to the experiment's span, then segment. */
  method ProcessSubject<P>(tables: seq<Table<P>>, ivs: seq<Interval>) returns (r: Result<Dataset<P>, Failure>)
    ensures r == Process(tables, ivs)
  {
    if tables == [] {
      return Err(NoSensorTables);
    }
    var combined := Combine(tables);
    if ivs == [] {
      return Err(NoIntervals);
    }
    var expStart := MinStart(ivs);
    var expEnd := MaxEnd(ivs);
    if !HasSync(tables) {
      return Err(NoSyncColumn);
    }
    var sensor := Keep(combined, expStart, expEnd);
    var segments := SegmentAll(sensor, ivs);
    return Ok(Dataset(OutputColumns(tables), segments));
  }

  // ---- The filter ----

  /** Filtering a concatenation filters each part: the kept samples stay in their original order. */
  lemma {:induction false} KeepAppend<P>(a: seq<Sample<P>>, b: seq<Sample<P>>, lo: int, hi: int)
    ensures Keep(a + b, lo, hi) == Keep(a, lo, hi) + Keep(b, lo, hi)
    decreases |a|
  {
    if a == [] {
      assert a + b == b;
    } else {
      assert (a + b)[0] == a[0] && (a + b)[1..] == a[1..] + b;
      KeepAppend(a[1..], b, lo, hi);
      var head := if InSpan(a[0], lo, hi) then [a[0]] else [];
      assert head + (Keep(a[1..], lo, hi) + Keep(b, lo, hi)) == (head + Keep(a[1..], lo, hi)) + Keep(b, lo, hi);
    }
  }

  /** A sample is kept exactly when it is one of the input samples and its sync timestamp is in `[lo, hi)`. */
  lemma {:induction false} KeepExactly<P>(samples: seq<Sample<P>>, lo: int, hi: int, x: Sample<P>)
    ensures x in Keep(samples, lo, hi) <==> x in samples && InSpan(x, lo, hi)
    decreases |samples|
  {
    if samples != [] {
      KeepExactly(samples[1..], lo, hi, x);
      assert x in samples <==> x == samples[0] || x in samples[1..];
    }
  }

  /** In a non-empty range, a sample at exactly `lo` is kept. */
  lemma {:induction false} StartIncluded<P>(samples: seq<Sample<P>>, lo: int, hi: int, payload: P)
    requires lo < hi
    ensures Sample(Some(lo), payload) in samples ==> Sample(Some(lo), payload) in Keep(samples, lo, hi)
  {
    KeepExactly(samples, lo, hi, Sample(Some(lo), payload));
  }

  /** A sample at exactly `hi`, or without a sync timestamp, is never kept. */
  lemma {:induction false} EndExcluded<P>(samples: seq<Sample<P>>, lo: int, hi: int, payload: P)
    ensures Sample(Some(hi), payload) !in Keep(samples, lo, hi)
    ensures Sample(None, payload) !in Keep(samples, lo, hi)
  {
    KeepExactly(samples, lo, hi, Sample(Some(hi), payload));
    KeepExactly(samples, lo, hi, Sample(None, payload));
  }

  /** Filtering to a range inside `[lo, hi)` after filtering to `[lo, hi)` is filtering to the inner range alone. */
  lemma {:induction false} KeepNested<P>(samples: seq<Sample<P>>, lo: int, hi: int, a: int, b: int)
    requires lo <= a && b <= hi
    ensures Keep(Keep(samples, lo, hi), a, b) == Keep(samples, a, b)
    decreases |samples|
  {
    if samples != [] {
      KeepNested(samples[1..], lo, hi, a, b);
      var head := if InSpan(samples[0], lo, hi) then [samples[0]] else [];
      KeepAppend(head, Keep(samples[1..], lo, hi), a, b);
      if head != [] {
        assert head[1..] == [];
      }
    }
  }

  /** Two adjacent ranges split the samples of their union between them: none is lost and none is taken twice. */
  lemma {:induction false} KeepSplit<P>(samples: seq<Sample<P>>, a: int, b: int, c: int)
    requires a <= b <= c
    ensures multiset(Keep(samples, a, b)) + multiset(Keep(samples, b, c)) == multiset(Keep(samples, a, c))
    decreases |samples|
  {
    if samples != [] {
      KeepSplit(samples[1..], a, b, c);
    }
  }

  // ---- Segments ----


  /**
   * Every row of a segment is a sample the segment's schedule row selects, carrying that
   * schedule row's condition, repetition number and level; and every selected sample is there.
   */
  lemma SegmentExactly<P>(samples: seq<Sample<P>>, iv: Interval, row: LabeledRow<P>)
    ensures row in Segment(samples, iv) <==> Carries(iv, row) && Sample(Some(row.sync), row.payload) in samples
  {
    var kept := Keep(samples, iv.start, iv.end);
    var seg := Segment(samples, iv);
    var x := Sample(Some(row.sync), row.payload);
    KeepExactly(samples, iv.start, iv.end, x);
    if row in seg {
      var k :| 0 <= k < |seg| && seg[k] == row;
      KeepExactly(samples, iv.start, iv.end, kept[k]);
      assert kept[k] == x;
    }
    if row.condition == iv.condition && row.rep == iv.rep && row.level == iv.level && x in kept {
      var k :| 0 <= k < |kept| && kept[k] == x;
      assert seg[k] == row;
    }
  }

  /** One more schedule row adds its segment at the end. */
  lemma SegmentsSnoc<P>(samples: seq<Sample<P>>, ivs: seq<Interval>, iv: Interval)
    ensures Segments(samples, ivs + [iv]) == Segments(samples, ivs) + Segment(samples, iv)
  {
    assert (ivs + [iv])[..|ivs|] == ivs;
  }

  /** The segments of two schedules one after the other are the segments of the first, then those of the second. */
  lemma {:induction false} SegmentsAppend<P>(samples: seq<Sample<P>>, a: seq<Interval>, b: seq<Interval>)
    ensures Segments(samples, a + b) == Segments(samples, a) + Segments(samples, b)
    decreases |b|
  {
    if b == [] {
      assert a + b == a;
    } else {
      var front, last := b[..|b| - 1], b[|b| - 1];
      assert b == front + [last];
      SegmentsAppend(samples, a, front);
      SegmentsAppendStep(samples, a, front, last);
    }
  }

  lemma SegmentsAppendStep<P>(samples: seq<Sample<P>>, a: seq<Interval>, front: seq<Interval>, last: Interval)
    requires Segments(samples, a + front) == Segments(samples, a) + Segments(samples, front)
    ensures Segments(samples, a + (front + [last])) == Segments(samples, a) + Segments(samples, front + [last])
  {
    AppendAssociates(a, front, [last]);
    SegmentsSnoc(samples, a + front, last);
    SegmentsSnoc(samples, front, last);
    AppendAssociates(Segments(samples, a), Segments(samples, front), Segment(samples, last));
  }

  /** Every output row comes from one schedule row and one sample that schedule row selects. */
  lemma {:induction false} SegmentsSound<P>(samples: seq<Sample<P>>, ivs: seq<Interval>, row: LabeledRow<P>)
    requires row in Segments(samples, ivs)
    ensures exists m :: 0 <= m < |ivs| && Carries(ivs[m], row)
    ensures Sample(Some(row.sync), row.payload) in samples
    decreases |ivs|
  {
    var n := |ivs| - 1;
    var front := ivs[..n];
    if row in Segments(samples, front) {
      SegmentsSound(samples, front, row);
      var m :| 0 <= m < |front| && Carries(front[m], row);
      assert front[m] == ivs[m];
    } else {
      SegmentExactly(samples, ivs[n], row);
    }
  }

  /** No sample is lost: every sample in a schedule row's range appears in the output with that row's labels. */
  lemma SegmentsComplete<P>(samples: seq<Sample<P>>, ivs: seq<Interval>, m: nat, x: Sample<P>)
    requires m < |ivs| && x in samples && InSpan(x, ivs[m].start, ivs[m].end)
    ensures LabeledRow(ivs[m].condition, ivs[m].rep, ivs[m].level, x.sync.value, x.payload) in Segments(samples, ivs)
  {
    var row := LabeledRow(ivs[m].condition, ivs[m].rep, ivs[m].level, x.sync.value, x.payload);
    var front, back := ivs[..m], ivs[m + 1..];
    assert ivs == (front + [ivs[m]]) + back;
    SegmentsAppend(samples, front + [ivs[m]], back);
    SegmentsSnoc(samples, front, ivs[m]);
    SegmentExactly(samples, ivs[m], row);
    var whole := Segments(samples, front) + Segment(samples, ivs[m]);
    assert row in whole;
    assert Segments(samples, ivs) == whole + Segments(samples, back);
  }

  /** Clipping to a range that covers every schedule row removes nothing any schedule row selects. */
  lemma {:induction false} ClipKeepsSelected<P>(samples: seq<Sample<P>>, lo: int, hi: int, ivs: seq<Interval>)
    requires forall m :: 0 <= m < |ivs| ==> lo <= ivs[m].start && ivs[m].end <= hi
    ensures Segments(Keep(samples, lo, hi), ivs) == Segments(samples, ivs)
    decreases |ivs|
  {
    if ivs != [] {
      var n := |ivs| - 1;
      ClipKeepsSelected(samples, lo, hi, ivs[..n]);
      KeepNested(samples, lo, hi, ivs[n].start, ivs[n].end);
    }
  }

  // ---- The whole of `process_subject` ----

  /**
   * `process_subject` fails exactly on no sensor tables, an empty schedule or no sync column,
   * in that order; otherwise its rows are the segments of the unclipped stack.
   */
  lemma ProcessOutcome<P>(tables: seq<Table<P>>, ivs: seq<Interval>)
    ensures Process(tables, ivs).Ok? <==> tables != [] && ivs != [] && HasSync(tables)
    ensures tables == [] ==> Process(tables, ivs) == Err(NoSensorTables)
    ensures tables != [] && ivs == [] ==> Process(tables, ivs) == Err(NoIntervals)
    ensures tables != [] && ivs != [] && !HasSync(tables) ==> Process(tables, ivs) == Err(NoSyncColumn)
    ensures Process(tables, ivs).Ok? ==> Process(tables, ivs).value.rows == Segments(Combine(tables), ivs)
  {
    if tables != [] && ivs != [] && HasSync(tables) {
      ClipKeepsSelected(Combine(tables), MinStart(ivs), MaxEnd(ivs), ivs);
    }
  }

  /** Every output row is a stacked sample inside the range of a schedule row whose labels it carries. */
  lemma ProcessSound<P>(tables: seq<Table<P>>, ivs: seq<Interval>, row: LabeledRow<P>)
    requires Process(tables, ivs).Ok? && row in Process(tables, ivs).value.rows
    ensures exists m :: 0 <= m < |ivs| && Carries(ivs[m], row)
    ensures Sample(Some(row.sync), row.payload) in Combine(tables)
    ensures exists t :: 0 <= t < |tables| && TsColumn in tables[t].columns && Sample(Some(row.sync), row.payload) in tables[t].samples
  {
    var x := Sample(Some(row.sync), row.payload);
    ProcessOutcome(tables, ivs);
    SegmentsSound(Combine(tables), ivs, row);
    CombineMembers(tables, x);
    var t :| 0 <= t < |tables| && x in Stacked(tables[t]);
    StackedFromTable(tables[t], x);
  }

  /** Every sample of a device table in a schedule row's range is in the output, labelled with that row. */
  lemma ProcessComplete<P>(tables: seq<Table<P>>, ivs: seq<Interval>, m: nat, t: nat, x: Sample<P>)
    requires Process(tables, ivs).Ok? && m < |ivs|
    requires t < |tables| && TsColumn in tables[t].columns && x in tables[t].samples
    requires InSpan(x, ivs[m].start, ivs[m].end)
    ensures LabeledRow(ivs[m].condition, ivs[m].rep, ivs[m].level, x.sync.value, x.payload) in Process(tables, ivs).value.rows
  {
    ProcessOutcome(tables, ivs);
    StackedFromTable(tables[t], x);
    CombineMembers(tables, x);
    SegmentsComplete(Combine(tables), ivs, m, x);
  }

  // ---- Columns ----

  /** The stacked table has every column of every device table, and no others. */
  lemma {:induction false} UnionColumnsExactly<P>(tables: seq<Table<P>>, c: string)
    ensures c in UnionColumns(tables) <==> exists t :: 0 <= t < |tables| && c in tables[t].columns
    decreases |tables|
  {
    if tables != [] {
      var n := |tables| - 1;
      UnionColumnsExactly(tables[..n], c);
      if c in tables[n].columns {
        assert c in tables[n].columns;
      }
      assert forall t :: 0 <= t < n ==> tables[..n][t] == tables[t];
    }
  }

  /** The output leads with the label and sync columns, then has every other column of the stack. */
  lemma OutputColumnsCover<P>(tables: seq<Table<P>>, t: nat, c: string)
    requires t < |tables| && c in tables[t].columns
    ensures OutputColumns(tables)[..|TagColumns|] == TagColumns
    ensures c in OutputColumns(tables)
  {
    UnionColumnsExactly(tables, c);
  }

  /** The stacked table names each column once. */
  lemma {:induction false} UnionColumnsDistinct<P>(tables: seq<Table<P>>)
    ensures Distinct(UnionColumns(tables))
    decreases |tables|
  {
    if tables != [] {
      var n := |tables| - 1;
      UnionColumnsDistinct(tables[..n]);
      var seen := UnionColumns(tables[..n]);
      var r := AddNew(seen, tables[n].columns);
      AddNewFresh(seen, tables[n].columns);
      forall i, j | 0 <= i < j < |r| ensures r[i] != r[j] {
        if i < |seen| {
          assert r[i] == r[..|seen|][i] == seen[i];
          if j < |seen| {
            assert r[j] == r[..|seen|][j] == seen[j];
          }
        }
      }
    }
  }

  /** Filtering a concatenation filters each part, so the other columns keep their stacked order. */
  lemma {:induction false} OthersAppend(a: seq<string>, b: seq<string>)
    ensures Others(a + b) == Others(a) + Others(b)
    decreases |a|
  {
    if a == [] {
      assert a + b == b;
    } else {
      assert (a + b)[0] == a[0] && (a + b)[1..] == a[1..] + b;
      OthersAppend(a[1..], b);
      var head := if a[0] in TagColumns then [] else [a[0]];
      AppendAssociates(head, Others(a[1..]), Others(b));
    }
  }

  /** Filtering names that occur once leaves names that occur once. */
  lemma {:induction false} OthersDistinct(cols: seq<string>)
    requires Distinct(cols)
    ensures Distinct(Others(cols))
    decreases |cols|
  {
    if cols != [] {
      assert Distinct(cols[1..]) by {
        forall i, j | 0 <= i < j < |cols[1..]| ensures cols[1..][i] != cols[1..][j] {
          assert cols[1..][i] == cols[i + 1] && cols[1..][j] == cols[j + 1];
        }
      }
      OthersDistinct(cols[1..]);
      assert cols[0] !in cols[1..];
    }
  }

  /** The output names each column once: the label and sync columns, then the others. */
  lemma OutputColumnsDistinct<P>(tables: seq<Table<P>>)
    ensures Distinct(OutputColumns(tables))
  {
    UnionColumnsDistinct(tables);
    var others := Others(UnionColumns(tables));
    OthersDistinct(UnionColumns(tables));
    var out := OutputColumns(tables);
    forall i, j | 0 <= i < j < |out| ensures out[i] != out[j] {
      if j >= |TagColumns| {
        assert out[j] == others[j - |TagColumns|] && out[j] in others;
        if i >= |TagColumns| {
          assert out[i] == others[i - |TagColumns|];
        } else {
          assert out[i] == TagColumns[i];
        }
      } else {
        assert out[i] == TagColumns[i] && out[j] == TagColumns[j];
        assert |TagColumns[0]| == 9 && |TagColumns[1]| == 3 && |TagColumns[2]| == 5 && |TagColumns[3]| == 35;
      }
    }
  }
}
