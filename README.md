# Level-schedule extraction and sensor segmentation, modelled in Dafny

This project models the two steps of `extract_data.py` that turn one subject's recordings
into a labelled dataset.

- **`parse_condition_intervals`** reads the experiment software's marker log. Each useful
  line reads `start - <name> - <seconds>;<timestamp>[;...;rep=<n>]`. From these lines it
  rebuilds the level schedule:
  - A block opens at a `Level00_…` event that carries a repetition index.
  - The block takes in the whole run of indexed events that follows.
  - The first event without an index ends the block.
  - Each block member becomes one schedule row. The row runs from the member's timestamp to
    the next event's, converted from seconds to sensor milliseconds minus a fixed 3 600 000 ms.
  - The n-th block of a condition gets repetition number n.
- **`process_subject`** stacks the sensor tables and clips them to the schedule's overall
  span. Then, for each schedule row in order, it copies out the samples whose sync timestamp
  lies in `[start, end)`, labelled with that row's condition, repetition number and level.

Modules, one per file:

- `wrappers.dfy` (`Wrappers`): `Option`, `Result`, and the chaining of results that carry
  sequences.
- `text.dfy` (`Text`): the Python string operations the reader uses. These are
  `str.isspace`/`\s` (the full Unicode set), `strip`, `split`, `in`, and `int()` with sign and
  underscores.
- `schema.dfy` (`Schema`): `Event`, `Interval`, the `Failure` cases (each one an exception the
  Python raises), and the millisecond conversion.
- `event_log.dfy` (`EventLog`): the line reader. `ReadEvents` is the loop; `ParseLines` is its
  specification. The module also holds the round trip from a written log back to its events.
- `conditions.dfy` (`Conditions`): `get_condition` and the `Level<digits>_` prefix.
- `reconstruct.dfy` (`Reconstruct`): the two-index block scan. `ReconstructIntervals` is the
  loop. `Intervals`, defined through `Blocks`, is its specification.
- `schedule_facts.dfy` (`ScheduleFacts`): what the schedule promises, proved about `Intervals`.
- `pipeline.dfy` (`Extract`): reading and scanning joined, as `parse_condition_intervals`
  does.
- `segmenter.dfy` (`Segmenter`): `process_subject`. `ProcessSubject` and `SegmentAll` are the
  method and its loop. `Process` and `Segments` are their specification.

Each Python exception the core can raise becomes an `Err` of `Failure`, except `int()`'s
limit on very long digit strings (see "Left out"). The model stops at the same point the
Python would.

Where the program's documented intent and its code differ, the model follows the code:

- Two consecutive events with equal timestamps give a row with `start == end`. The code does
  not reject such a row.
- A schedule row that selects no sample gives an empty segment. This is not an error.
- A block that runs to the end of the log fails the whole call (`None * 1000`). It is not
  skipped.
- A `Level00_` event inside a block's run joins that block. It does not open a new one.

## Model

| member | source | states |
|---|---|---|
| Text.Strip | extract_data.py:13 | the result is the input with its leading and trailing white space removed: a contiguous slice of it, everything before and after the slice is white space in Python's sense, and neither end of the slice is |
| Text.JoinSplit | extract_data.py:16 | joining the pieces of `split(';')` with `;` gives back the line |
| Text.SplitJoin | extract_data.py:16 | splitting a join of `;`-free pieces gives back the pieces |
| Text.ParseIntToString | extract_data.py:23 | `int()` reads back every rendered integer, negative ones included |
| Text.ParseIntShape | extract_data.py:23 | text `int()` accepts ends, once stripped, in a digit, and a negative value starts with `-` |
| Schema.ToMs | extract_data.py:64 | adding the 3 600 000 ms offset back to a row bound gives a whole number of seconds, and that number is the log's timestamp |
| Schema.ToMsOrder | extract_data.py:64 | the conversion keeps both the order and the equality of timestamps, in both directions |
| EventLog.MatchName | extract_data.py:19 | the header pattern matches only a field that starts with `start`, and its group holds no newline and is shorter than the field |
| EventLog.MatchNameShape | extract_data.py:19 | a match has `start`, optional white space and a `-`; the group is the slice after the white space that follows, and the pattern's tail `\s*-\s*[\d.]+` matches right after it |
| EventLog.MatchNameComplete | extract_data.py:19 | conversely, a field with `start`, white space, `-`, white space, then a newline-free stretch after which the tail matches, gets a match |
| EventLog.NonBlankEmpty | extract_data.py:16 | the field list is empty exactly when every `;` piece strips to blank |
| EventLog.FieldsEmpty | extract_data.py:16 | a line has no fields exactly when every piece of its `split(';')` is blank |
| EventLog.NoFieldsOnlyEmpty | extract_data.py:16-19 | a line fails with `NoFields` (the `parts[0]` error) exactly when it has no fields |
| EventLog.ParseLineMeaning | extract_data.py:13-19 | a blank line is skipped, and a non-blank line fails with `NoFields` exactly when every `;` piece of it is blank |
| EventLog.ParseFieldsMeaning | extract_data.py:16-28 | a line is skipped exactly when its first field does not match; an event takes its timestamp from field 2 and its name from the stripped group; a line fails only with no fields, no field 2, a bad timestamp or a bad `rep` |
| EventLog.RepScanFailure | extract_data.py:25-27 | the `rep` loop fails only on a `rep` field that does not convert |
| EventLog.MatchHeader | extract_data.py:19-22 | the lazy name group of the header pattern, on a `start - <name> - <clock>` field, is exactly the name, for every name the writer can emit |
| EventLog.LazyEnd | extract_data.py:19 | the lazy group ends at the least position where the pattern's tail matches without crossing a newline, and is `None` when no such position exists |
| EventLog.ReadEvents | extract_data.py:12-28 | the reader loop returns what `ParseLines` specifies: the events of the lines in order, or the first failing line's failure |
| EventLog.ParseLinesSingle | extract_data.py:13-28 | a skipped line (blank, or a first field the pattern does not match) gives no event, a parsed line exactly its one event, and a failing line its failure |
| EventLog.ParseLinesAppend | extract_data.py:12-28 | lines are read independently and in order: the events of `a + b` are those of `a` then those of `b`, and the first failure wins |
| EventLog.RepScanNone | extract_data.py:24-27 | with no field containing `rep`, the event has no repetition index |
| EventLog.RepScanLast | extract_data.py:24-27 | when every `rep` field converts, the last of them gives the index |
| EventLog.RepScanBadField | extract_data.py:25-27 | a `rep` field that does not convert fails the line, even when a later `rep` field would win |
| EventLog.RenderedLineParses | extract_data.py:13-28 | a line written from an event reads back as that event. The timestamp comes from field 2, whatever the first field's seconds say |
| EventLog.RenderedLogParses | extract_data.py:12-28 | a log written one line per event reads back as exactly those events, in order |
| Conditions.GetCondition | extract_data.py:30-34 | the condition is never longer than the name, and a stripped `Level<digits>_` prefix makes it at least 7 characters shorter |
| Conditions.LevelNumber | extract_data.py:59 | a name has a level number exactly when it starts with `Level<digits>_` |
| Conditions.LevelPrefix | extract_data.py:32 | a prefix match is `Level`, a non-empty run of digits, then `_` |
| Conditions.LevelPrefixOf | extract_data.py:59 | `Level<digits>_<rest>` has that prefix; its level number is the digits' value and its condition is `<rest>` without `_point` |
| Conditions.NoPrefixCondition | extract_data.py:32-33 | a name of no `Level<digits>_…` shape only loses its `_point`s |
| Conditions.RemovePointNone | extract_data.py:33 | text without `_point` is left unchanged |
| Conditions.RemovePointFirst | extract_data.py:33 | the text before the first `_point` is kept verbatim; the `_point` goes and the rest is rewritten |
| Conditions.LeaderName | extract_data.py:42-43 | a `Level00_` name has level 0, and its condition is the rest of the name without `_point` |
| Conditions.PointNameCondition | extract_data.py:30-34 | `Level<d>_<word>_point<tail>` has condition `<word><tail>` and level `<d>` (`Level03_NE_point_empty` gives `NE_empty`) |
| Reconstruct.RunEnd | extract_data.py:47-49 | the inner scan stops at the first event without a repetition index, or at the end of the log |
| Reconstruct.SkipRun | extract_data.py:47-49 | the inner `while` computes `RunEnd` |
| Reconstruct.BlocksShape | extract_data.py:39-49 | every block is a leader plus the maximal indexed run after it, with the terminator excluded; blocks come in log order, and a terminator separates each from the next |
| Reconstruct.LeaderInBlock | extract_data.py:42-49 | every `Level00_` event with an index lies in some block, its own or the one whose run it falls in |
| Reconstruct.CountsBump | extract_data.py:53-54 | after the counter update, every condition's count equals the number of earlier blocks with that condition |
| Reconstruct.EmitBlock | extract_data.py:56-65 | the nested loop appends the block's rows, or fails at the member without a level or at an unterminated last member |
| Reconstruct.ReconstructIntervals | extract_data.py:36-72 | the two-index scan returns what `Intervals` specifies |
| ScheduleFacts.MemberRowsOk | extract_data.py:57-64 | a block's rows can be built exactly when every member has a level and a terminator follows |
| ScheduleFacts.MemberRowsValues | extract_data.py:58-65 | one row per member, in member order. Each row holds the member's level and runs from the member's timestamp to the next event's, in milliseconds |
| ScheduleFacts.MemberRowsFailure | extract_data.py:59-64 | a failing block fails at its first member without a level, or, with all levels present, as unterminated |
| ScheduleFacts.IntervalsOk | extract_data.py:39-72 | the scan succeeds exactly when every block has a terminator and levels on all its members |
| ScheduleFacts.IntervalsFailure | extract_data.py:51-64 | a failed scan fails at the first unsound block, at its first unlevelled member or as unterminated |
| ScheduleFacts.IntervalsLength | extract_data.py:57-65 | the schedule has exactly one row per block member; events outside blocks give none |
| ScheduleFacts.IntervalsRow | extract_data.py:53-65 | member `j` of block `m` gives the row at its place: block m's condition and repetition number, j's level, and j's and j+1's timestamps in milliseconds |
| ScheduleFacts.RowsChainInBlock | extract_data.py:61 | within a block, each row's `end` is the next row's `start` |
| ScheduleFacts.LastRowEndsAtTerminator | extract_data.py:51-64 | a block's last row ends at its terminator's timestamp |
| ScheduleFacts.IntervalsInOrder | extract_data.py:60-64 | for a log with non-decreasing timestamps, every row has `start <= end`, and rows never overlap, in schedule order |
| ScheduleFacts.RepNumbersIncrease | extract_data.py:53-54 | later blocks of a condition get strictly larger repetition numbers |
| ScheduleFacts.RepNumberPredecessor | extract_data.py:53-54 | a block numbered n > 0 has an earlier block of its condition numbered n - 1 |
| ScheduleFacts.RepZeroIffFirst | extract_data.py:37-54 | a block is numbered 0 exactly when no earlier block has its condition (the counter starts empty on each call) |
| Extract.ParseConditionIntervals | extract_data.py:8-72 | reading then scanning returns the schedule `ConditionIntervals` specifies, and a read failure fails the call |
| Extract.RenderedLogSchedule | extract_data.py:12-72 | the schedule of a written log is the schedule of the events it was written from |
| Segmenter.Keep | extract_data.py:82-84 | every surviving sample has a sync timestamp in `[lo, hi)`, and the clip never adds samples |
| Segmenter.KeepExactly | extract_data.py:82-84 | a sample survives the clip exactly when it is an input sample with a sync timestamp in `[lo, hi)`; a sample without one never survives |
| Segmenter.KeepAppend | extract_data.py:88-89 | filtering keeps the samples' original order |
| Segmenter.StartIncluded | extract_data.py:88 | in a non-empty range, a sample at exactly `start` is selected |
| Segmenter.EndExcluded | extract_data.py:88 | a sample at exactly `end`, or without a sync timestamp, is never selected, whatever the range |
| Segmenter.KeepSplit | extract_data.py:88 | two adjacent ranges split their union's samples: none is lost at the shared boundary and none is taken twice |
| Segmenter.KeepNested | extract_data.py:82-89 | selecting a range inside the clip, after clipping, selects what it would without the clip |
| Segmenter.ClipKeepsSelected | extract_data.py:80-89 | the clip to `[min start, max end)` removes no sample any schedule row selects |
| Segmenter.StackedFromTable | extract_data.py:77 | a sample with a sync timestamp is in a table's stacked form exactly when the table has the sync column and the sample is one of its own; a table without the column contributes only empty sync values |
| Segmenter.CombineAppend | extract_data.py:77 | the stack of `a + b` is the stack of `a` followed by the stack of `b`, so tables keep their order |
| Segmenter.CombineMembers | extract_data.py:77 | a sample is in the stack exactly when it is in the stacked form of one of the tables |
| Segmenter.MinStart | extract_data.py:80 | the experiment's start is the least `start`, and some row has it |
| Segmenter.MaxEnd | extract_data.py:81 | the experiment's end is the greatest `end`, and some row has it |
| Segmenter.Label | extract_data.py:90-92 | each selected sample becomes one row with the schedule row's condition, repetition number and level, and its own sync timestamp and channels |
| Segmenter.Segment | extract_data.py:88-92 | every row of a schedule row's segment carries that schedule row's condition, repetition number and level |
| Segmenter.SegmentExactly | extract_data.py:88-92 | a row is in a schedule row's segment exactly when it carries that schedule row's labels and is a sample with a sync timestamp in `[start, end)` |
| Segmenter.SegmentsAppend | extract_data.py:86-95 | the output is grouped by schedule row, in schedule order |
| Segmenter.Segments | extract_data.py:86-95 | every output row carries the labels of some schedule row |
| Segmenter.SegmentsComplete | extract_data.py:86-95 | no sample is lost: a sample in a schedule row's range appears in the output with that row's labels |
| Segmenter.SegmentsSound | extract_data.py:86-95 | every output row is a sample selected by some schedule row whose labels it carries |
| Segmenter.SegmentAll | extract_data.py:86-95 | the loop over the schedule builds what `Segments` specifies |
| Segmenter.ProcessSubject | extract_data.py:75-100 | the method returns what `Process` specifies |
| Segmenter.Process | extract_data.py:75-100 | the call fails only for no sensor tables, an empty schedule or no sync column; a result's columns start with `condition`, `rep`, `level` and the sync column |
| Segmenter.ProcessOutcome | extract_data.py:77-95 | the call fails exactly on no sensor tables, an empty schedule or no sync column, in that order. Otherwise its rows are the segments of the unclipped stack |
| Segmenter.ProcessSound | extract_data.py:75-95 | every output row is a sample of an input table that has the sync column, in the range of a schedule row whose labels it carries |
| Segmenter.ProcessComplete | extract_data.py:75-95 | every sample of an input table with the sync column that lies in a schedule row's range is in the output, with that row's labels |
| Segmenter.AddNew | extract_data.py:77 | stacking keeps earlier columns in place and adds each new column name once |
| Segmenter.AddNewFresh | extract_data.py:77 | the names stacking adds are not among the earlier columns and are pairwise distinct |
| Segmenter.AddNewAppend | extract_data.py:77 | stacking the columns of `a + b` is stacking those of `a`, then those of `b` |
| Segmenter.UnionColumnsDistinct | extract_data.py:77 | the stack has no duplicate column name |
| Segmenter.Others | extract_data.py:99 | the other columns are exactly the stack's columns that are not label or sync columns |
| Segmenter.OthersAppend | extract_data.py:99 | the other columns keep the stack's column order |
| Segmenter.OthersDistinct | extract_data.py:99 | the other columns of a duplicate-free list are duplicate-free |
| Segmenter.UnionColumnsExactly | extract_data.py:77 | the stack has exactly the columns of the device tables |
| Segmenter.OutputColumnsCover | extract_data.py:97-100 | the output leads with `condition`, `rep`, `level` and the sync column, and keeps every column of every table |
| Segmenter.OutputColumnsDistinct | extract_data.py:97-100 | the output has no duplicate column name |

## Left out

- File and directory I/O is not modelled: the log is a `seq<string>` of lines and the sensor
  tables are given as values. This leaves out `open`, `load_shimmer` with `pd.read_csv`, and
  its header-skip and `Unnamed` column drop.
- `extract_data_from_folder` is not modelled: directory listing, `glob`, the `!` folder
  filter, printing, and the per-subject `try/except`.
- pandas mechanics: DataFrames are sequences of records, and an empty cell is `None`.
  `pd.concat` is list concatenation with the union of the column names.
- Sensor channel values are an opaque payload. Sync timestamps are integers of milliseconds,
  not floats.
- Text.ParseInt: it accepts digit strings of any length. Python's `int()` (3.11 and later,
  and patched 3.7–3.10 releases) raises `ValueError` on more than 4300 digits, so a log line
  with such a timestamp or `rep` value reads as an event here where the program raises.
- `\d` and `int()` accept ASCII digits only; Python also accepts other Unicode decimal digits.
- Only the specific regular expressions the core uses are modelled, each as an explicit
  check. Python's general `re` engine is not.
- The header pattern's `([\d.]+)` group is matched but its value is not kept; the Python
  never uses it either.
- The `rep`, `level` and `condition` columns of an empty segment, and pandas dtypes, are not
  modelled.
- Conditions.GetCondition: its own contract only bounds the length of the condition. What it
  removes is stated by `LevelPrefixOf`, `NoPrefixCondition`, `RemovePointNone`,
  `RemovePointFirst` and `PointNameCondition`.
- Within a table, duplicate column names are not modelled; pandas renames them on read.
