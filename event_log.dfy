/**
 * Reading the marker log (extract_data.py, `parse_condition_intervals`, its first loop).
 * Each non-blank `;`-separated line whose first field reads `start - <name> - <seconds>`
 * becomes one event; the integer in the second field is its timestamp, and the last later
 * field containing `rep` gives its repetition index.
 */
module EventLog {
  import opened Wrappers
  import opened Text
  import opened Schema

  predicate IsDigitOrDot(c: char) {
    IsDigit(c) || c == '.'
  }

  /** No newline in `s[i..j]`: the `.` of a Python pattern cannot cross one. */
  predicate NewlineFree(s: string, i: nat, j: nat)
    requires i <= j <= |s|
  {
    forall k :: i <= k < j ==> s[k] != '\n'
  }

  /**
   * `\s*-\s*[\d.]+` matches at position `e`. Backtracking the greedy `\s*` never helps,
   * since a shorter run leaves white space where `-` or a digit is needed, and one digit
   * or dot is all `[\d.]+` needs.
   */
  predicate TailAt(s: string, e: nat)
    requires e <= |s|
  {
    var a := SkipSpace(s, e);
    a < |s| && s[a] == '-' && var b := SkipSpace(s, a + 1); b < |s| && IsDigitOrDot(s[b])
  }

  /** The end of the lazy group `(.*?)` begun at `e`: the least end where the tail matches. */
  function LazyEnd(s: string, e: nat): (r: Option<nat>)
    requires e <= |s|
    ensures r.Some? ==> e <= r.value <= |s| && TailAt(s, r.value) && NewlineFree(s, e, r.value)
    ensures r.Some? ==> forall k :: e <= k < r.value ==> !TailAt(s, k)
    ensures r.None? ==> forall k :: e <= k <= |s| && NewlineFree(s, e, k) ==> !TailAt(s, k)
    decreases |s| - e
  {
    if TailAt(s, e) then Some(e)
    else if e < |s| && s[e] != '\n' then LazyEnd(s, e + 1)
    else None
  }

  /** The least end where the tail matches, with no newline before it, is where the lazy group ends. */
  lemma {:induction false} LazyEndIs(s: string, i: nat, e: nat)
    requires i <= e <= |s| && TailAt(s, e) && NewlineFree(s, i, e)
    requires forall k :: i <= k < e ==> !TailAt(s, k)
    ensures LazyEnd(s, i) == Some(e)
    decreases e - i
  {
    if i < e {
      LazyEndIs(s, i + 1, e);
    }
  }

  /**
   * `re.match(r'start\s*-\s*(.*?)\s*-\s*([\d.]+)', s)`: group 1 when the pattern matches at
   * the start of `s`, `None` otherwise.
   */
  function MatchName(s: string): (r: Option<string>)
    ensures r.Some? ==> "start" <= s && '\n' !in r.value && |r.value| < |s|
  {
    if !("start" <= s) then None
    else
      var a := SkipSpace(s, 5);
      if a == |s| || s[a] != '-' then None
      else
        var p := SkipSpace(s, a + 1);
        match LazyEnd(s, p)
        case None => None
        case Some(e) =>
          assert forall i :: 0 <= i < e - p ==> s[p..e][i] == s[p + i];
          Some(s[p..e])
  }

  /** `[p.strip() for p in pieces if p.strip()]` */
  function NonBlank(pieces: seq<string>): seq<string>
    decreases |pieces|
  {
    if pieces == [] then []
    else (if Strip(pieces[0]) == [] then [] else [Strip(pieces[0])]) + NonBlank(pieces[1..])
  }

  /** The non-blank, stripped `;`-separated fields of a line. */
  function Fields(line: string): seq<string> {
    NonBlank(Split(line, ';'))
  }

  /** `int(field.split('=')[-1].strip())`: the integer after a field's last `=`. */
  function RepValue(field: string): Option<int> {
    var pieces := Split(field, '=');
    ParseInt(Strip(pieces[|pieces| - 1]))
  }

  /** What one field after the second contributes to `rep`. */
  datatype RepField = Plain | RepOk(value: int) | RepBad

  /** A field containing `rep` is converted; any other field is passed over. */
  function Classify(field: string): RepField {
    if !Contains(field, "rep") then Plain
    else
      match RepValue(field)
      case None => RepBad
      case Some(v) => RepOk(v)
  }

  function Kinds(fields: seq<string>): (kinds: seq<RepField>)
    ensures |kinds| == |fields|
  {
    seq(|fields|, k requires 0 <= k < |fields| => Classify(fields[k]))
  }

  /**
   * The `rep` loop over `kinds[i..]` with `cur` as the value so far: each converted
   * field replaces the value, and a field that does not convert fails the line.
   */
  function RepScan(kinds: seq<RepField>, i: nat, cur: Option<int>): Result<Option<int>, Failure>
    requires i <= |kinds|
    decreases |kinds| - i
  {
    if i == |kinds| then Ok(cur)
    else
      match kinds[i]
      case Plain => RepScan(kinds, i + 1, cur)
      case RepOk(v) => RepScan(kinds, i + 1, Some(v))
      case RepBad => Err(BadRep)
  }

  datatype LineOutcome = Skip | Parsed(event: Event) | Fail(failure: Failure)

  /** What the reader does with one line. */
  function ParseLine(line: string): LineOutcome {
    var s := Strip(line);
    if s == [] then Skip else ParseFields(Fields(s))
  }

  /** What the reader does with the fields of a non-blank line. */
  function ParseFields(parts: seq<string>): LineOutcome {
    if parts == [] then Fail(NoFields)
    else
      match MatchName(parts[0])
      case None => Skip
      case Some(group) =>
        if |parts| < 2 then Fail(NoTimestampField)
        else
          match ParseInt(parts[1])
          case None => Fail(BadTimestamp)
          case Some(ts) =>
            match RepScan(Kinds(parts[2..]), 0, None)
            case Err(f) => Fail(f)
            case Ok(rep) => Parsed(Event(Strip(group), ts, rep))
  }

  /**
   * What a header match says about the field: `start`, optional white space and a `-`; the
   * group is the slice after the white space that follows, and the pattern's tail matches
   * right after it.
   */
  lemma MatchNameShape(s: string)
    ensures MatchName(s).Some? ==>
      && "start" <= s
      && (var a := SkipSpace(s, 5);
          && a < |s| && s[a] == '-'
          && (var p, g := SkipSpace(s, a + 1), MatchName(s).value;
              p + |g| <= |s| && s[p..p + |g|] == g && TailAt(s, p + |g|)))
  {
  }

  /**
   * The converse: a field with `start`, optional white space and a `-`, followed after
   * further white space by a newline-free stretch that the tail matches at its end, gets a
   * match.
   */
  lemma MatchNameComplete(s: string, e: nat)
    requires "start" <= s
    requires SkipSpace(s, 5) < |s| && s[SkipSpace(s, 5)] == '-'
    requires var p := SkipSpace(s, SkipSpace(s, 5) + 1); p <= e <= |s| && NewlineFree(s, p, e) && TailAt(s, e)
    ensures MatchName(s).Some?
  {
  }

  /** The `rep` loop fails only on a `rep` field that does not convert. */
  lemma {:induction false} RepScanFailure(kinds: seq<RepField>, i: nat, cur: Option<int>)
    requires i <= |kinds|
    ensures RepScan(kinds, i, cur).Err? ==> RepScan(kinds, i, cur).error == BadRep
    decreases |kinds| - i
  {
    if i < |kinds| && !kinds[i].RepBad? {
      RepScanFailure(kinds, i + 1, if kinds[i].RepOk? then Some(kinds[i].value) else cur);
    }
  }

  /**
   * A line is skipped exactly when its first field does not name a `start` record; an event
   * takes its timestamp from the second field and its name from the stripped group; and a
   * line fails only for one of the four reasons the reader raises.
   */
  lemma ParseFieldsMeaning(parts: seq<string>)
    ensures ParseFields(parts).Skip? <==> parts != [] && MatchName(parts[0]).None?
    ensures ParseFields(parts).Parsed? ==>
      |parts| >= 2 && ParseInt(parts[1]) == Some(ParseFields(parts).event.ts)
      && ParseFields(parts).event.name == Strip(MatchName(parts[0]).value)
    ensures ParseFields(parts).Fail? ==>
      ParseFields(parts).failure in [NoFields, NoTimestampField, BadTimestamp, BadRep]
  {
    if |parts| >= 2 {
      RepScanFailure(Kinds(parts[2..]), 0, None);
    }
  }

  /** The list comprehension keeps nothing exactly when every piece strips to blank. */
  lemma {:induction false} NonBlankEmpty(pieces: seq<string>)
    ensures NonBlank(pieces) == [] <==> forall k :: 0 <= k < |pieces| ==> Strip(pieces[k]) == []
    decreases |pieces|
  {
    if pieces != [] {
      NonBlankEmpty(pieces[1..]);
      assert forall k :: 1 <= k < |pieces| ==> pieces[k] == pieces[1..][k - 1];
    }
  }

  /** A line has no fields exactly when every `;` piece of it is blank. */
  lemma FieldsEmpty(line: string, pieces: seq<string>)
    requires pieces == Split(line, ';')
    ensures Fields(line) == [] <==> forall k :: 0 <= k < |pieces| ==> Strip(pieces[k]) == []
  {
    NonBlankEmpty(pieces);
  }

  /** `parts[0]` raises exactly when there are no fields; no other path gives that failure. */
  lemma NoFieldsOnlyEmpty(parts: seq<string>)
    ensures ParseFields(parts) == Fail(NoFields) <==> parts == []
  {
    if |parts| >= 2 {
      RepScanFailure(Kinds(parts[2..]), 0, None);
    }
  }

  /**
   * A blank line is skipped, and a non-blank line fails with `NoFields` exactly when every
   * `;` piece of it is blank (the line is only separators and white space).
   */
  lemma ParseLineMeaning(line: string)
    ensures Strip(line) == [] ==> ParseLine(line) == Skip
    ensures ParseLine(line) == Fail(NoFields) <==>
      Strip(line) != [] && forall k :: 0 <= k < |Split(Strip(line), ';')| ==> Strip(Split(Strip(line), ';')[k]) == []
  {
    var t := Strip(line);
    if t != [] {
      FieldsEmpty(t, Split(t, ';'));
      NoFieldsOnlyEmpty(Fields(t));
    }
  }

  /** What each line of a log does, in line order. */
  function Outcomes(lines: seq<string>): seq<LineOutcome> {
    Map(ParseLine, lines)
  }

  /** The events of a run of line outcomes; the first failure fails them all. */
  function Collect(outs: seq<LineOutcome>): Result<seq<Event>, Failure>
    decreases |outs|
  {
    if outs == [] then Ok([])
    else
      match outs[0]
      case Skip => Collect(outs[1..])
      case Parsed(e) => Prefixed([e], Collect(outs[1..]))
      case Fail(f) => Err(f)
  }

  /** The events of a whole log, in line order; the first failing line fails the log. */
  function ParseLines(lines: seq<string>): Result<seq<Event>, Failure> {
    Collect(Outcomes(lines))
  }

  /**
   * The reader's loop: lines are read one at a time, skipped lines leave nothing, and
   * each other line appends one event or ends the read with its failure.
   */
  method ReadEvents(lines: seq<string>) returns (r: Result<seq<Event>, Failure>)
    ensures r == ParseLines(lines)
  {
    ghost var outs := Outcomes(lines);
    var events: seq<Event> := [];
    assert outs[0..] == outs;
    PrefixedNothing(Collect(outs));
    for n := 0 to |lines|
      invariant ParseLines(lines) == Prefixed(events, Collect(outs[n..]))
    {
      assert outs[n..][0] == ParseLine(lines[n]) && outs[n..][1..] == outs[n + 1..];
      var line := Strip(lines[n]);
      if line == [] {
        continue;
      }
      var parts := Fields(line);
      if |parts| == 0 {
        return Err(NoFields);
      }
      var m := MatchName(parts[0]);
      if m.None? {
        continue;
      }
      var name := Strip(m.value);
      if |parts| < 2 {
        return Err(NoTimestampField);
      }
      var ts := ParseInt(parts[1]);
      if ts.None? {
        return Err(BadTimestamp);
      }
      var rest := parts[2..];
      var rep: Option<int> := None;
      ghost var kinds := Kinds(rest);
      for q := 0 to |rest|
        invariant RepScan(kinds, 0, None) == RepScan(kinds, q, rep)
      {
        assert kinds[q] == Classify(rest[q]);
        if Contains(rest[q], "rep") {
          var v := RepValue(rest[q]);
          if v.None? {
            assert ParseLine(lines[n]) == Fail(BadRep);
            return Err(BadRep);
          }
          rep := Some(v.value);
        }
      }
      assert ParseLine(lines[n]) == Parsed(Event(name, ts.value, rep));
      PrefixedTwice(events, [Event(name, ts.value, rep)], Collect(outs[n + 1..]));
      events := events + [Event(name, ts.value, rep)];
    }
    assert outs[|lines|..] == [];
    assert events + [] == events;
    return Ok(events);
  }

  lemma {:induction false} CollectAppend(a: seq<LineOutcome>, b: seq<LineOutcome>)
    ensures Collect(a + b) == Then(Collect(a), Collect(b))
    decreases |a|
  {
    if a == [] {
      assert a + b == b;
      PrefixedNothing(Collect(b));
    } else {
      assert (a + b)[0] == a[0] && (a + b)[1..] == a[1..] + b;
      CollectAppend(a[1..], b);
      match a[0]
      case Skip =>
      case Fail(f) =>
      case Parsed(e) =>
        if Collect(a[1..]).Ok? {
          PrefixedTwice([e], Collect(a[1..]).value, Collect(b));
        }
    }
  }

  /** Lines are read independently and in order: the events of `a + b` are those of `a` followed by those of `b`. */
  lemma ParseLinesAppend(a: seq<string>, b: seq<string>)
    ensures ParseLines(a + b) == Then(ParseLines(a), ParseLines(b))
  {
    MapAppend(ParseLine, a, b);
    CollectAppend(Outcomes(a), Outcomes(b));
  }

  /** The events of a single outcome: none for a skip, its event for a parse, its failure for a failure. */
  lemma CollectOne(o: LineOutcome)
    ensures o.Skip? ==> Collect([o]) == Ok([])
    ensures o.Parsed? ==> Collect([o]) == Ok([o.event])
    ensures o.Fail? ==> Collect([o]) == Err(o.failure)
  {
    assert [o][1..] == [];
    if o.Parsed? {
      assert [o.event] + [] == [o.event];
    }
  }

  /**
   * One line on its own: a skipped line (blank, or a first field the pattern does not match)
   * gives no event, a parsed line exactly one, and a failing line fails the read.
   */
  lemma ParseLinesSingle(line: string)
    ensures ParseLine(line).Skip? ==> ParseLines([line]) == Ok([])
    ensures ParseLine(line).Parsed? ==> ParseLines([line]) == Ok([ParseLine(line).event])
    ensures ParseLine(line).Fail? ==> ParseLines([line]) == Err(ParseLine(line).failure)
  {
    assert Outcomes([line]) == [ParseLine(line)];
    CollectOne(ParseLine(line));
  }

  /** A field containing `rep` whose value is not an integer fails the line, whatever the other fields hold. */
  lemma {:induction false} RepScanBadField(kinds: seq<RepField>, i: nat, cur: Option<int>, k: nat)
    requires i <= k < |kinds| && kinds[k] == RepBad
    ensures RepScan(kinds, i, cur) == Err(BadRep)
    decreases k - i
  {
    if i < k {
      match kinds[i]
      case Plain => RepScanBadField(kinds, i + 1, cur, k);
      case RepOk(v) => RepScanBadField(kinds, i + 1, Some(v), k);
      case RepBad =>
    }
  }

  /** With no field containing `rep`, the value so far is kept: the event has no repetition index. */
  lemma {:induction false} RepScanNone(kinds: seq<RepField>, i: nat, cur: Option<int>)
    requires i <= |kinds|
    requires forall k :: i <= k < |kinds| ==> kinds[k] == Plain
    ensures RepScan(kinds, i, cur) == Ok(cur)
    decreases |kinds| - i
  {
    if i < |kinds| {
      RepScanNone(kinds, i + 1, cur);
    }
  }

  /** When every field containing `rep` converts, the last of them gives the value. */
  lemma {:induction false} RepScanLast(kinds: seq<RepField>, i: nat, cur: Option<int>, last: nat)
    requires i <= last < |kinds| && kinds[last].RepOk?
    requires forall k :: last < k < |kinds| ==> kinds[k] == Plain
    requires forall k :: i <= k < last ==> kinds[k] != RepBad
    ensures RepScan(kinds, i, cur) == Ok(Some(kinds[last].value))
    decreases |kinds| - i
  {
    if i == last {
      RepScanNone(kinds, i + 1, Some(kinds[last].value));
    } else {
      match kinds[i]
      case Plain => RepScanLast(kinds, i + 1, cur, last);
      case RepOk(v) => RepScanLast(kinds, i + 1, Some(v), last);
    }
  }

  /** A `-` in a name is last or followed by a character that is neither white space, a digit nor a dot. */
  predicate DashOk(name: string, i: nat)
    requires i < |name|
  {
    name[i] == '-' ==> i + 1 == |name| || (!IsSpace(name[i + 1]) && !IsDigitOrDot(name[i + 1]))
  }

  /** A marker name the log writer can emit so that the pattern reads it back whole. */
  predicate NameOk(name: string) {
    && |name| > 0 && !IsSpace(name[0]) && !IsSpace(name[|name| - 1])
    && ';' !in name && '\n' !in name
    && forall i :: 0 <= i < |name| ==> DashOk(name, i)
  }

  /** The fractional-seconds text of the first field: digits and dots. */
  predicate ClockOk(clock: string) {
    |clock| > 0 && forall k :: 0 <= k < |clock| ==> IsDigitOrDot(clock[k])
  }

  /** The first field of a log line: `start - <name> - <clock>`. */
  function Header(name: string, clock: string): string {
    "start - " + name + " - " + clock
  }

  lemma HeaderChars(name: string, clock: string)
    ensures var s := Header(name, clock);
      && |s| == 11 + |name| + |clock|
      && s[..5] == "start" && s[5] == ' ' && s[6] == '-' && s[7] == ' '
      && s[8 + |name|] == ' ' && s[9 + |name|] == '-' && s[10 + |name|] == ' '
      && (forall m :: 0 <= m < |name| ==> s[8 + m] == name[m])
  {
  }

  lemma HeaderClock(name: string, clock: string)
    ensures var s := Header(name, clock);
      && |s| == 11 + |name| + |clock|
      && forall m :: 0 <= m < |clock| ==> s[11 + |name| + m] == clock[m]
  {
  }

  /** The fields of a written line: header, timestamp and, when there is one, the `rep` field. */
  function RenderedFields(e: Event, clock: string): seq<string> {
    [Header(e.name, clock), IntToString(e.ts)]
    + (match e.rep case None => [] case Some(r) => ["rep=" + IntToString(r)])
  }

  /** A log line as the experiment software writes it: `start - <name> - <clock>;<ts>[;rep=<rep>]`. */
  function RenderLine(e: Event, clock: string): string {
    Join(RenderedFields(e, clock), ';')
  }

  /** After a `-` inside the name, the first non-space character is neither a digit nor a dot. */
  lemma AfterDashInName(name: string, clock: string, a: nat)
    requires NameOk(name) && a < |name| && name[a] == '-'
    ensures var s := Header(name, clock); var b := SkipSpace(s, a + 9);
      b < |s| ==> !IsDigitOrDot(s[b])
  {
    var s := Header(name, clock);
    var n := |name|;
    HeaderChars(name, clock);
    assert DashOk(name, a);
    if a + 1 == n {
      SkipSpaceIs(s, a + 9, 9 + n);
    } else {
      assert s[a + 9] == name[a + 1];
      SkipSpaceIs(s, a + 9, a + 9);
    }
  }

  /** Skipping white space inside the name of a header stops where it stops in the name. */
  lemma SkipInHeader(name: string, clock: string, i: nat, j: nat)
    requires i <= j < |name| && j == SkipSpace(name, i)
    ensures SkipSpace(Header(name, clock), i + 8) == j + 8 && Header(name, clock)[j + 8] == name[j]
  {
    HeaderChars(name, clock);
    SkipSpaceIs(Header(name, clock), i + 8, j + 8);
  }

  /** Inside the name no position starts a match of the pattern's tail. */
  lemma NoTailInName(name: string, clock: string, k: nat)
    requires NameOk(name)
    requires 8 <= k < 8 + |name|
    ensures !TailAt(Header(name, clock), k)
  {
    var a := SkipSpace(name, k - 8);
    assert a < |name|;
    SkipInHeader(name, clock, k - 8, a);
    if name[a] == '-' {
      AfterDashInName(name, clock, a);
    }
  }

  /** The pattern reads the name back from a header line. */
  lemma MatchHeader(name: string, clock: string)
    requires NameOk(name) && ClockOk(clock)
    ensures MatchName(Header(name, clock)) == Some(name)
  {
    var s := Header(name, clock);
    var n := |name|;
    HeaderChars(name, clock);
    HeaderClock(name, clock);
    assert "start" <= s;
    assert s[11 + n] == clock[0];
    SkipSpaceIs(s, 5, 6);
    SkipSpaceIs(s, 7, 8);
    SkipSpaceIs(s, 8 + n, 9 + n);
    SkipSpaceIs(s, 10 + n, 11 + n);
    assert TailAt(s, 8 + n);
    assert NewlineFree(s, 8, 8 + n);
    forall k | 8 <= k < 8 + n ensures !TailAt(s, k) {
      NoTailInName(name, clock, k);
    }
    LazyEndIs(s, 8, 8 + n);
    assert s[8..8 + n] == name;
  }

  /** Pieces that are already stripped, non-empty and free of `;` are the fields of their join. */
  lemma {:induction false} FieldsOfJoin(pieces: seq<string>)
    requires |pieces| >= 1
    requires forall k :: 0 <= k < |pieces| ==> ';' !in pieces[k] && pieces[k] != [] && Strip(pieces[k]) == pieces[k]
    ensures Fields(Join(pieces, ';')) == pieces
  {
    SplitJoin(pieces, ';');
    NonBlankUnchanged(pieces);
  }

  lemma {:induction false} NonBlankUnchanged(pieces: seq<string>)
    requires forall k :: 0 <= k < |pieces| ==> pieces[k] != [] && Strip(pieces[k]) == pieces[k]
    ensures NonBlank(pieces) == pieces
    decreases |pieces|
  {
    if pieces != [] {
      NonBlankUnchanged(pieces[1..]);
      assert [pieces[0]] + pieces[1..] == pieces;
    }
  }

  /** A field of a written line: non-empty, already stripped, free of `;`, and ending in a digit or dot. */
  predicate CleanField(f: string) {
    f != [] && ';' !in f && Strip(f) == f && IsDigitOrDot(f[|f| - 1])
  }

  lemma HeaderClean(name: string, clock: string)
    requires NameOk(name) && ClockOk(clock)
    ensures CleanField(Header(name, clock))
  {
    var h := Header(name, clock);
    HeaderChars(name, clock);
    HeaderClock(name, clock);
    assert h[0] == 's' && h[|h| - 1] == clock[|clock| - 1];
    StripUnchanged(h);
  }

  lemma NumberClean(pre: string, n: int)
    requires pre == [] || pre == "rep="
    ensures CleanField(pre + IntToString(n))
  {
    var f := pre + IntToString(n);
    assert f[0] == 'r' || f[0] == '-' || IsDigit(f[0]);
    StripUnchanged(f);
  }

  /** Every field of a written line is clean. */
  lemma RenderedFieldsClean(e: Event, clock: string)
    requires NameOk(e.name) && ClockOk(clock)
    ensures forall k :: 0 <= k < |RenderedFields(e, clock)| ==> CleanField(RenderedFields(e, clock)[k])
  {
    HeaderClean(e.name, clock);
    NumberClean([], e.ts);
    assert [] + IntToString(e.ts) == IntToString(e.ts);
    if e.rep.Some? {
      NumberClean("rep=", e.rep.value);
    }
  }

  lemma RenderedLineFields(e: Event, clock: string)
    requires NameOk(e.name) && ClockOk(clock)
    ensures Strip(RenderLine(e, clock)) == RenderLine(e, clock)
    ensures Fields(RenderLine(e, clock)) == RenderedFields(e, clock)
  {
    var pieces := RenderedFields(e, clock);
    RenderedFieldsClean(e, clock);
    JoinEnds(pieces, ';');
    StripUnchanged(RenderLine(e, clock));
    FieldsOfJoin(pieces);
  }

  lemma RepFieldReads(r: int)
    ensures Classify("rep=" + IntToString(r)) == RepOk(r)
  {
    var v := IntToString(r);
    var f := "rep=" + v;
    assert "rep" <= f;
    assert '=' !in v;
    assert f == Join(["rep", v], '=');
    SplitJoin(["rep", v], '=');
    StripUnchanged(v);
    ParseIntToString(r);
  }

  /** Fields whose parts read as an event's name, timestamp and repetition index parse as that event. */
  lemma ParsedFromFields(parts: seq<string>, e: Event)
    requires |parts| >= 2 && MatchName(parts[0]) == Some(e.name) && Strip(e.name) == e.name
    requires ParseInt(parts[1]) == Some(e.ts) && RepScan(Kinds(parts[2..]), 0, None) == Ok(e.rep)
    ensures ParseFields(parts) == Parsed(e)
  {
  }

  lemma RenderedFieldsParse(e: Event, clock: string)
    requires NameOk(e.name) && ClockOk(clock)
    ensures ParseFields(RenderedFields(e, clock)) == Parsed(e)
  {
    var parts := RenderedFields(e, clock);
    MatchHeader(e.name, clock);
    StripUnchanged(e.name);
    ParseIntToString(e.ts);
    if e.rep.Some? {
      RepFieldReads(e.rep.value);
      assert Kinds(parts[2..]) == [RepOk(e.rep.value)];
    } else {
      assert Kinds(parts[2..]) == [];
    }
    ParsedFromFields(parts, e);
  }

  /**
   * Reading back a written line gives the event it was written from: the name from the
   * first field, the timestamp from the second (whatever the first field's seconds read),
   * and the repetition index from the `rep` field, if any.
   */
  lemma RenderedLineParses(e: Event, clock: string)
    requires NameOk(e.name) && ClockOk(clock)
    ensures ParseLine(RenderLine(e, clock)) == Parsed(e)
  {
    RenderedLineFields(e, clock);
    RenderedFieldsParse(e, clock);
  }

  /** A log written one line per event. */
  function RenderLog(events: seq<Event>, clock: string): (lines: seq<string>)
    ensures |lines| == |events|
  {
    seq(|events|, k requires 0 <= k < |events| => RenderLine(events[k], clock))
  }

  /** Outcomes that all parse collect to the events they carry, in order. */
  lemma {:induction false} CollectParsed(outs: seq<LineOutcome>, events: seq<Event>)
    requires |outs| == |events|
    requires forall k :: 0 <= k < |outs| ==> outs[k] == Parsed(events[k])
    ensures Collect(outs) == Ok(events)
    decreases |outs|
  {
    if outs != [] {
      CollectParsed(outs[1..], events[1..]);
      assert [events[0]] + events[1..] == events;
    }
  }

  /** A whole written log reads back as the events it was written from, in order. */
  lemma RenderedLogParses(events: seq<Event>, clock: string)
    requires ClockOk(clock)
    requires forall k :: 0 <= k < |events| ==> NameOk(events[k].name)
    ensures ParseLines(RenderLog(events, clock)) == Ok(events)
  {
    var lines := RenderLog(events, clock);
    var outs := Outcomes(lines);
    forall k | 0 <= k < |events| ensures outs[k] == Parsed(events[k]) {
      RenderedLineParses(events[k], clock);
    }
    CollectParsed(outs, events);
  }
}
