/** The offline evaluation tool's log handling: the expected field count of a log (the most
    frequent count, the first one on ties), the `CheckLog` filter, and the
    `DogICME16` grading, which keeps one representative line per image key. */
module Offline {
  import opened Wrappers
  import opened Strings
  import opened Seqs
  import opened Grading

  const Tab: char := '\t'

  /** `line.Split('\t')` */
  function Fields(line: string): seq<string> {
    Split(line, Tab)
  }

  // ------------------------------------------------------------ expected field count

  /** `m` occurs in `xs` as often as any value, and among the values that occur as
      often, `m` occurs first. */
  predicate IsMode(xs: seq<int>, m: int) {
    && m in xs
    && (forall i :: 0 <= i < |xs| ==> Occurrences(xs, xs[i]) <= Occurrences(xs, m))
    && (forall i :: 0 <= i < |xs| && Occurrences(xs, xs[i]) == Occurrences(xs, m) ==> IndexOf(xs, m) <= i)
  }

  /** The number of occurrences of each element, position by position. */
  function Counts(xs: seq<int>): (c: seq<nat>)
    ensures |c| == |xs|
  {
    seq(|xs|, j requires 0 <= j < |xs| => Occurrences(xs, xs[j]))
  }

  /** Position `best` has the highest count among the first `i`, ties going to the
      earliest. */
  predicate Leads(c: seq<nat>, i: nat, best: nat)
    requires best < i <= |c|
  {
    && (forall j :: 0 <= j < i ==> c[j] <= c[best])
    && (forall j :: 0 <= j < i && c[j] == c[best] ==> best <= j)
  }

  /** One more position: it takes the lead only with a strictly higher count. */
  lemma LeadsStep(c: seq<nat>, i: nat, best: nat)
    requires best < i < |c| && Leads(c, i, best)
    ensures c[i] > c[best] ==> Leads(c, i + 1, i)
    ensures c[i] <= c[best] ==> Leads(c, i + 1, best)
  {
  }

  /** A value counted more often than every earlier one occurs first where it is met. */
  lemma NewLeaderFirst(xs: seq<int>, i: nat, best: nat)
    requires best < i < |xs| && Leads(Counts(xs), i, best) && Counts(xs)[i] > Counts(xs)[best]
    ensures IndexOf(xs, xs[i]) == i
  {
    var c := Counts(xs);
    forall j | 0 <= j < i ensures xs[j] != xs[i] {
      assert c[j] <= c[best];
      assert c[j] == Occurrences(xs, xs[j]) && c[i] == Occurrences(xs, xs[i]);
    }
    IndexOfAt(xs, xs[i], i);
  }

  /** A leader over the whole sequence, at the first occurrence of its value, is the mode. */
  lemma LeaderIsMode(xs: seq<int>, best: nat)
    requires best < |xs| && IndexOf(xs, xs[best]) == best && Leads(Counts(xs), |xs|, best)
    ensures IsMode(xs, xs[best])
  {
    var c := Counts(xs);
    forall i | 0 <= i < |xs| ensures Occurrences(xs, xs[i]) <= Occurrences(xs, xs[best]) {
      assert c[i] == Occurrences(xs, xs[i]) && c[best] == Occurrences(xs, xs[best]);
    }
    forall i | 0 <= i < |xs| && Occurrences(xs, xs[i]) == Occurrences(xs, xs[best])
      ensures IndexOf(xs, xs[best]) <= i
    {
      assert c[i] == Occurrences(xs, xs[i]) && c[best] == Occurrences(xs, xs[best]);
    }
  }

  /** Scans `xs` from `i` on, keeping the index of the best value seen so far; a value
      replaces it only when it occurs strictly more often. */
  function ModeFrom(xs: seq<int>, i: nat, best: nat): (b: nat)
    requires best < i <= |xs| && IndexOf(xs, xs[best]) == best && Leads(Counts(xs), i, best)
    ensures b < |xs| && IsMode(xs, xs[b])
    decreases |xs| - i
  {
    if i == |xs| then
      LeaderIsMode(xs, best);
      best
    else if Counts(xs)[i] > Counts(xs)[best] then
      LeadsStep(Counts(xs), i, best);
      NewLeaderFirst(xs, i, best);
      ModeFrom(xs, i + 1, i)
    else
      LeadsStep(Counts(xs), i, best);
      ModeFrom(xs, i + 1, best)
  }

  /** `xs.GroupBy(x => x).Select(g => (g.Key, g.Count())).OrderByDescending(c => c.Item2)
      .First().Item1`: groups come in order of first occurrence and the ordering is
      stable, so ties go to the value seen first; `First` raises on an empty input. */
  function Mode(xs: seq<int>): (m: Option<int>)
    ensures m.None? <==> |xs| == 0
    ensures m.Some? ==> IsMode(xs, m.value)
  {
    if |xs| == 0 then None else Some(xs[ModeFrom(xs, 1, 0)])
  }

  /** At most one value is the mode. */
  lemma ModeUnique(xs: seq<int>, a: int, b: int)
    requires IsMode(xs, a) && IsMode(xs, b)
    ensures a == b
  {
    var ia, ib := IndexOf(xs, a), IndexOf(xs, b);
    assert Occurrences(xs, xs[ib]) <= Occurrences(xs, a);
    assert Occurrences(xs, xs[ia]) <= Occurrences(xs, b);
    assert ia <= ib && ib <= ia;
  }

  function FieldCounts(lines: seq<string>): (counts: seq<int>)
    ensures |counts| == |lines|
    ensures forall i :: 0 <= i < |lines| ==> counts[i] == |Fields(lines[i])|
  {
    seq(|lines|, i requires 0 <= i < |lines| => |Fields(lines[i])|)
  }

  /** The field count of intact log lines; an interrupted and resumed run leaves
      lines with other counts. */
  function ExpectedFieldCount(lines: seq<string>): Option<int> {
    Mode(FieldCounts(lines))
  }

  // ------------------------------------------------------------ CheckLog

  datatype LogFault =
    | EmptyLog                   // `First()` on an empty log
    | ColumnOutOfRange(index: int)

  predicate UsableResult(result: string) {
    !IsSystemError(result) && !IsSaturated(result)
  }

  /** The field count matches and the result field holds a usable result. */
  predicate Intact(cols: seq<string>, expected: int, resultCol: int) {
    |cols| == expected && 0 <= resultCol < |cols| && UsableResult(cols[resultCol])
  }

  /** An intact line whose label is present, or any intact line when distractors count. */
  predicate Kept(cols: seq<string>, expected: int, resultCol: int, labelCol: int, distractor: bool) {
    && Intact(cols, expected, resultCol)
    && 0 <= labelCol < |cols|
    && (distractor || cols[labelCol] != "")
  }

  /** `cols[label] + "\t" + cols[result]` */
  function Project(cols: seq<string>, resultCol: nat, labelCol: nat): string
    requires resultCol < |cols| && labelCol < |cols|
  {
    cols[labelCol] + [Tab] + cols[resultCol]
  }

  /** The kept lines of `lines`, projected, in log order. */
  function ValidLines(lines: seq<string>, expected: int, resultCol: int, labelCol: int, distractor: bool): (v: seq<string>)
    ensures |v| <= |lines|
  {
    if |lines| == 0 then []
    else
      var cols := Fields(lines[|lines| - 1]);
      ValidLines(lines[..|lines| - 1], expected, resultCol, labelCol, distractor)
      + if Kept(cols, expected, resultCol, labelCol, distractor) then [Project(cols, resultCol, labelCol)] else []
  }

  /** `text` is the projection of some kept line of `lines`. */
  predicate ProjectedFrom(lines: seq<string>, text: string, expected: int, resultCol: int, labelCol: int, distractor: bool) {
    exists i :: 0 <= i < |lines| && Kept(Fields(lines[i]), expected, resultCol, labelCol, distractor)
                && text == Project(Fields(lines[i]), resultCol, labelCol)
  }

  /** A projection of a kept line of a prefix is one of the whole. */
  lemma ProjectedFromPrefix(lines: seq<string>, init: seq<string>, text: string, expected: int, resultCol: int,
                            labelCol: int, distractor: bool)
    requires init <= lines
    requires ProjectedFrom(init, text, expected, resultCol, labelCol, distractor)
    ensures ProjectedFrom(lines, text, expected, resultCol, labelCol, distractor)
  {
    var i :| 0 <= i < |init| && Kept(Fields(init[i]), expected, resultCol, labelCol, distractor)
             && text == Project(Fields(init[i]), resultCol, labelCol);
    assert lines[i] == init[i];
  }

  /** The valid lines are exactly the projections of the kept lines. */
  lemma {:induction false} ValidLinesSpec(lines: seq<string>, expected: int, resultCol: int, labelCol: int, distractor: bool)
    ensures forall i :: 0 <= i < |lines| && Kept(Fields(lines[i]), expected, resultCol, labelCol, distractor) ==>
              Project(Fields(lines[i]), resultCol, labelCol) in ValidLines(lines, expected, resultCol, labelCol, distractor)
    ensures forall k :: 0 <= k < |ValidLines(lines, expected, resultCol, labelCol, distractor)| ==>
              ProjectedFrom(lines, ValidLines(lines, expected, resultCol, labelCol, distractor)[k],
                            expected, resultCol, labelCol, distractor)
  {
    ValidLinesComplete(lines, expected, resultCol, labelCol, distractor);
    ValidLinesSound(lines, expected, resultCol, labelCol, distractor);
  }

  /** Every kept line is projected into the valid lines. */
  lemma {:induction false} ValidLinesComplete(lines: seq<string>, expected: int, resultCol: int, labelCol: int,
                                              distractor: bool)
    ensures forall i :: 0 <= i < |lines| && Kept(Fields(lines[i]), expected, resultCol, labelCol, distractor) ==>
              Project(Fields(lines[i]), resultCol, labelCol) in ValidLines(lines, expected, resultCol, labelCol, distractor)
  {
    if |lines| > 0 {
      var init := lines[..|lines| - 1];
      ValidLinesComplete(init, expected, resultCol, labelCol, distractor);
      var v0 := ValidLines(init, expected, resultCol, labelCol, distractor);
      var v := ValidLines(lines, expected, resultCol, labelCol, distractor);
      forall i | 0 <= i < |lines| && Kept(Fields(lines[i]), expected, resultCol, labelCol, distractor)
        ensures Project(Fields(lines[i]), resultCol, labelCol) in v
      {
        if i < |init| {
          assert init[i] == lines[i];
          var t := Project(Fields(lines[i]), resultCol, labelCol);
          assert t in v0;
          assert v == v0 + v[|v0|..];
        }
      }
    }
  }

  /** Every valid line is the projection of a kept line. */
  lemma {:induction false} ValidLinesSound(lines: seq<string>, expected: int, resultCol: int, labelCol: int,
                                           distractor: bool)
    ensures forall k :: 0 <= k < |ValidLines(lines, expected, resultCol, labelCol, distractor)| ==>
              ProjectedFrom(lines, ValidLines(lines, expected, resultCol, labelCol, distractor)[k],
                            expected, resultCol, labelCol, distractor)
  {
    if |lines| > 0 {
      var init := lines[..|lines| - 1];
      ValidLinesSound(init, expected, resultCol, labelCol, distractor);
      var v0 := ValidLines(init, expected, resultCol, labelCol, distractor);
      var v := ValidLines(lines, expected, resultCol, labelCol, distractor);
      var last := |lines| - 1;
      forall k | 0 <= k < |v| ensures ProjectedFrom(lines, v[k], expected, resultCol, labelCol, distractor) {
        if k < |v0| {
          assert v[k] == v0[k];
          ProjectedFromPrefix(lines, init, v0[k], expected, resultCol, labelCol, distractor);
        } else {
          assert v[k] == Project(Fields(lines[last]), resultCol, labelCol);
        }
      }
    }
  }

  /** The line filter of `CheckLog`. */
  function KeepLine(expected: int, resultCol: int, labelCol: int, distractor: bool): string -> bool {
    line => Kept(Fields(line), expected, resultCol, labelCol, distractor)
  }

  /** The final `Select` of `CheckLog`: label field, tab, result field. */
  function ProjectLine(resultCol: int, labelCol: int): string -> string {
    line =>
      var cols := Fields(line);
      if 0 <= resultCol < |cols| && 0 <= labelCol < |cols| then Project(cols, resultCol, labelCol) else ""
  }

  /** The valid lines are the kept lines, in log order and with repetitions, each
      projected (`Where(…).Select(…)`). */
  lemma {:induction false} ValidLinesInOrder(lines: seq<string>, expected: int, resultCol: int, labelCol: int,
                                             distractor: bool)
    ensures ValidLines(lines, expected, resultCol, labelCol, distractor)
            == Map(Filter(lines, KeepLine(expected, resultCol, labelCol, distractor)), ProjectLine(resultCol, labelCol))
  {
    if |lines| > 0 {
      var init := lines[..|lines| - 1];
      var last := lines[|lines| - 1];
      var keep := KeepLine(expected, resultCol, labelCol, distractor);
      ValidLinesInOrder(init, expected, resultCol, labelCol, distractor);
      var tail := if keep(last) then [last] else [];
      MapAppend(Filter(init, keep), tail, ProjectLine(resultCol, labelCol));
    }
  }

  /** Without the distractor option, no valid line has an empty label. */
  lemma {:induction false} LabelPresentWithoutDistractor(lines: seq<string>, expected: int, resultCol: int, labelCol: int)
    ensures var v := ValidLines(lines, expected, resultCol, labelCol, false);
            forall k :: 0 <= k < |v| ==> Fields(v[k])[0] != ""
  {
    ValidLinesSpec(lines, expected, resultCol, labelCol, false);
    var v := ValidLines(lines, expected, resultCol, labelCol, false);
    forall k | 0 <= k < |v| ensures Fields(v[k])[0] != "" {
      assert ProjectedFrom(lines, v[k], expected, resultCol, labelCol, false);
      var i :| 0 <= i < |lines| && Kept(Fields(lines[i]), expected, resultCol, labelCol, false)
                && v[k] == Project(Fields(lines[i]), resultCol, labelCol);
      var cols := Fields(lines[i]);
      assert Tab !in cols[labelCol];
      SplitFirst(cols[labelCol], Tab, cols[resultCol]);
    }
  }

  datatype CheckLogReport = CheckLogReport(rawLines: nat, valid: seq<string>, validCols: int)

  /** Some line has the expected count and a usable result: it reaches the label lookup. */
  predicate ReachesLabel(lines: seq<string>, expected: int, resultCol: int) {
    exists i :: 0 <= i < |lines| && Intact(Fields(lines[i]), expected, resultCol)
  }

  /** `CheckLog`: the result field is read on every line with the expected count, so a
      result index outside the fields raises; the label field is read on every line
      that also holds a usable result. */
  function CheckLog(lines: seq<string>, resultCol: int, labelCol: int, distractor: bool): (r: Result<CheckLogReport, LogFault>)
    ensures r.Err? <==> || |lines| == 0
                        || !(0 <= resultCol < ExpectedFieldCount(lines).value)
                        || (!(0 <= labelCol < ExpectedFieldCount(lines).value)
                            && ReachesLabel(lines, ExpectedFieldCount(lines).value, resultCol))
    ensures r.Ok? ==> r.value.rawLines == |lines| && IsMode(FieldCounts(lines), r.value.validCols)
    ensures r.Ok? ==> r.value.valid == Map(Filter(lines, KeepLine(r.value.validCols, resultCol, labelCol, distractor)),
                                           ProjectLine(resultCol, labelCol))
  {
    match ExpectedFieldCount(lines)
    case None => Err(EmptyLog)
    case Some(n) =>
      if !(0 <= resultCol < n) then Err(ColumnOutOfRange(resultCol))
      else if !(0 <= labelCol < n) && ReachesLabel(lines, n, resultCol) then Err(ColumnOutOfRange(labelCol))
      else
        ValidLinesInOrder(lines, n, resultCol, labelCol, distractor);
        Ok(CheckLogReport(|lines|, ValidLines(lines, n, resultCol, labelCol, distractor), n))
  }

  // ------------------------------------------------------------ DogICME16

  /** The three leading fields of a log line: image key, ground-truth label and result. */
  datatype LogRow = LogRow(key: string, truth: string, result: string)

  /** Empty lines and lines with fewer than three fields are dropped. */
  function ParseLogLine(line: string): Option<LogRow> {
    var cols := Fields(line);
    if line == "" || |cols| < 3 then None else Some(LogRow(cols[0], cols[1], cols[2]))
  }

  function LogRows(lines: seq<string>): (rows: seq<LogRow>)
    ensures |rows| <= |lines|
    ensures forall i :: 0 <= i < |lines| && ParseLogLine(lines[i]).Some? ==> ParseLogLine(lines[i]).value in rows
    ensures forall k :: 0 <= k < |rows| ==> exists i :: 0 <= i < |lines| && ParseLogLine(lines[i]) == Some(rows[k])
  {
    if |lines| == 0 then []
    else
      var init := lines[..|lines| - 1];
      var prev := LogRows(init);
      assert forall i :: 0 <= i < |init| ==> init[i] == lines[i];
      match ParseLogLine(lines[|lines| - 1])
      case None => prev
      case Some(row) =>
        assert forall k :: 0 <= k < |prev| ==> (prev + [row])[k] == prev[k];
        prev + [row]
  }

  predicate Parses(line: string) {
    ParseLogLine(line).Some?
  }

  /** The row of a line that parses. */
  function ParsedRow(line: string): LogRow {
    match ParseLogLine(line)
    case Some(row) => row
    case None => LogRow("", "", "")
  }

  /** The rows are those of the parsing lines, in order and with repetitions. */
  lemma {:induction false} LogRowsInOrder(lines: seq<string>)
    ensures LogRows(lines) == Map(Filter(lines, Parses), ParsedRow)
  {
    if |lines| > 0 {
      var init := lines[..|lines| - 1];
      var last := lines[|lines| - 1];
      LogRowsInOrder(init);
      var tail := if Parses(last) then [last] else [];
      MapAppend(Filter(init, Parses), tail, ParsedRow);
    }
  }

  /** The row belongs to the group `key`, and holds a non-error result if `validOnly`. */
  predicate Matches(row: LogRow, key: string, validOnly: bool) {
    row.key == key && (!validOnly || !IsSystemError(row.result))
  }

  /** Index of the first matching row. */
  function FirstRow(rows: seq<LogRow>, key: string, validOnly: bool): (i: Option<nat>)
    ensures i.None? <==> forall j :: 0 <= j < |rows| ==> !Matches(rows[j], key, validOnly)
    ensures i.Some? ==> i.value < |rows| && Matches(rows[i.value], key, validOnly)
    ensures i.Some? ==> forall j :: 0 <= j < i.value ==> !Matches(rows[j], key, validOnly)
  {
    if |rows| == 0 then None
    else if Matches(rows[0], key, validOnly) then Some(0)
    else match FirstRow(rows[1..], key, validOnly)
      case None => None
      case Some(i) => Some(i + 1)
  }

  function KeyOf(row: LogRow): string { row.key }

  /** The group keys in order of first occurrence (`GroupBy(cols => cols[0])`). */
  function Keys(rows: seq<LogRow>): seq<string> {
    Distinct(Map(rows, KeyOf))
  }

  /** Row `j` represents the group `key`: it is the group's first row whose result is
      not a system error, or, when the group has none, the group's first row. */
  predicate RepresentativeAt(rows: seq<LogRow>, key: string, j: int) {
    && 0 <= j < |rows| && rows[j].key == key
    && if exists k :: 0 <= k < |rows| && Matches(rows[k], key, true)
       then !IsSystemError(rows[j].result) && forall k :: 0 <= k < j ==> !Matches(rows[k], key, true)
       else forall k :: 0 <= k < j ==> rows[k].key != key
  }

  /** A group has one representative. */
  lemma RepresentativeUnique(rows: seq<LogRow>, key: string, j1: int, j2: int)
    requires RepresentativeAt(rows, key, j1) && RepresentativeAt(rows, key, j2)
    ensures j1 == j2
  {
    if exists k :: 0 <= k < |rows| && Matches(rows[k], key, true) {
      assert Matches(rows[j1], key, true) && Matches(rows[j2], key, true);
    }
  }

  /** The group's representative: its first line whose result is not a system error,
      or else its first line. */
  function RepresentativeIndex(rows: seq<LogRow>, key: string): (i: nat)
    requires key in Map(rows, KeyOf)
    ensures RepresentativeAt(rows, key, i)
    ensures i < |rows| && rows[i].key == key
    ensures !IsSystemError(rows[i].result) <==> exists j :: 0 <= j < |rows| && Matches(rows[j], key, true)
    ensures !IsSystemError(rows[i].result) ==> forall j :: 0 <= j < i ==> !Matches(rows[j], key, true)
    ensures IsSystemError(rows[i].result) ==> forall j :: 0 <= j < i ==> rows[j].key != key
  {
    var m := Map(rows, KeyOf);
    var j := IndexOf(m, key);
    assert Matches(rows[j], key, false);
    match FirstRow(rows, key, true)
    case Some(i) => i
    case None => FirstRow(rows, key, false).value
  }

  /** One representative per group, in group order. */
  function Representatives(rows: seq<LogRow>): (reps: seq<LogRow>)
    ensures |reps| == |Keys(rows)|
    ensures forall i :: 0 <= i < |reps| ==> reps[i].key == Keys(rows)[i]
    ensures forall i :: 0 <= i < |reps| ==> exists j :: RepresentativeAt(rows, Keys(rows)[i], j) && reps[i] == rows[j]
  {
    var keys := Keys(rows);
    seq(|keys|, i requires 0 <= i < |keys| => rows[RepresentativeIndex(rows, keys[i])])
  }

  /** Every image key of the log has exactly one representative, and every
      representative is a line of the log. */
  lemma OneRepresentativePerKey(rows: seq<LogRow>)
    ensures var reps := Representatives(rows);
            && (forall i, j :: 0 <= i < j < |reps| ==> reps[i].key != reps[j].key)
            && (forall k :: 0 <= k < |rows| ==> exists i :: 0 <= i < |reps| && reps[i].key == rows[k].key)
            && (forall i :: 0 <= i < |reps| ==> reps[i] in rows)
  {
    var reps := Representatives(rows);
    var keys := Keys(rows);
    var m := Map(rows, KeyOf);
    forall k | 0 <= k < |rows| ensures exists i :: 0 <= i < |reps| && reps[i].key == rows[k].key {
      assert m[k] == rows[k].key;
      var i := IndexOf(keys, rows[k].key);
      assert reps[i].key == rows[k].key;
    }
  }

  predicate Labelled(row: LogRow) {
    row.truth != ""
  }

  /** A graded representative whose result is not a system error. */
  predicate ValidRow(row: LogRow) {
    Labelled(row) && !IsSystemError(row.result)
  }

  predicate Top1Row(row: LogRow) {
    Labelled(row) && Grade(row.truth, row.result).top1
  }

  predicate Top5Row(row: LogRow) {
    Labelled(row) && Grade(row.truth, row.result).top5
  }

  /** The console summary: representatives processed, representatives with a
      non-error result among those graded, and the grading tally. */
  datatype DogReport = DogReport(processed: nat, valid: nat, tally: Tally)

  /** Grades the representatives that carry a label, in order. */
  function GradeRepresentatives(reps: seq<LogRow>): (d: DogReport)
    ensures d.processed == |reps|
    ensures d.tally.evaluated == CountIf(reps, Labelled)
    ensures d.valid == CountIf(reps, ValidRow)
    ensures d.tally.top1 == CountIf(reps, Top1Row) && d.tally.top5 == CountIf(reps, Top5Row)
    ensures d.valid <= d.tally.evaluated <= d.processed
    ensures d.tally.Valid()
  {
    if |reps| == 0 then DogReport(0, 0, Tally(0, 0, 0))
    else
      var prev := GradeRepresentatives(reps[..|reps| - 1]);
      var last := reps[|reps| - 1];
      if !Labelled(last) then DogReport(prev.processed + 1, prev.valid, prev.tally)
      else
        var g := Grade(last.truth, last.result);
        AddKeepsValid(prev.tally, g);
        DogReport(prev.processed + 1, prev.valid + (if IsSystemError(last.result) then 0 else 1), prev.tally.Add(g))
  }

  /** `DogICME16` on the concatenated log files. */
  function DogICME16(lines: seq<string>): DogReport {
    GradeRepresentatives(Representatives(LogRows(lines)))
  }

  /** Every distinct image key is processed once; only labelled representatives are
      graded, and the valid, top-1 and top-5 counts count the representatives that
      qualify; top-1 hits are within top-5 hits within the graded lines. */
  lemma DogICME16Spec(lines: seq<string>)
    ensures var d := DogICME16(lines);
            && d.processed == |Keys(LogRows(lines))|
            && d.tally.evaluated <= d.processed
            && d.valid <= d.tally.evaluated
            && d.tally.top1 <= d.tally.top5 <= d.tally.evaluated
    ensures var reps := Representatives(LogRows(lines));
            var d := DogICME16(lines);
            && d.tally.evaluated == CountIf(reps, Labelled)
            && d.valid == CountIf(reps, ValidRow)
            && d.tally.top1 == CountIf(reps, Top1Row)
            && d.tally.top5 == CountIf(reps, Top5Row)
  {
  }
}
