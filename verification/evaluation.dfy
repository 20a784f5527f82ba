/** The evaluator of the contest-evaluation server (`Evaluator.Eval`): every dataset
    row is sent to the recognizer under evaluation, its data column is replaced by the
    reply, a timestamp is appended and the line is written to the evaluation log in
    dataset order; afterwards top-1/top-5 accuracy is computed from the log and one
    summary line is produced.

    The remote recognizer, the cancellation token and the clock are inputs: each row
    comes with a `RecordEnv` holding the replies its calls would receive, the state of
    the token at the two places it is read, and the timestamp of its log line. */
module Evaluation {
  import opened Wrappers
  import opened Strings
  import opened Seqs
  import opened Grading
  import opened TextLines

  /** Calls made for one row before giving up on a saturated recognizer. */
  const MaxAttempts: nat := 10
  const LabelColumn: nat := 1
  const DataColumn: nat := 2
  /** The log writer flushes after every this many lines. */
  const FlushInterval: nat := 100
  /** `WithDegreeOfParallelism` rejects degrees outside 1..512. */
  const MaxDegreeOfParallelism: int := 512

  // ---------------------------------------------------------------- one row

  /** What one remote call does: it answers with a text, or throws. */
  datatype Outcome = Reply(text: string) | Throw

  /** The value `result` takes after one call: the trimmed reply, or `""` when the
      call threw (timeout or other system error). */
  function AttemptText(o: Outcome): string {
    match o
    case Reply(t) => Trim(t)
    case Throw => ""
  }

  datatype Attempts = Attempts(result: string, calls: nat)

  /** The value `result` takes after each of the row's calls. */
  function CallResults(replies: nat -> Outcome): nat -> string {
    (j: nat) => AttemptText(replies(j))
  }

  /** The retry loop from attempt `k` on, over the results of the successive calls: it
      calls again while the result carries the saturation marker, at most
      `MaxAttempts` calls in all, and keeps the last result. */
  function RetryFrom(results: nat -> string, k: nat): (a: Attempts)
    requires k < MaxAttempts
    ensures k < a.calls <= MaxAttempts
    ensures a.result == results(a.calls - 1)
    ensures forall j :: k <= j < a.calls - 1 ==> IsSaturated(results(j))
    ensures a.calls < MaxAttempts ==> !IsSaturated(a.result)
    decreases MaxAttempts - k
  {
    if !IsSaturated(results(k)) || k + 1 == MaxAttempts then Attempts(results(k), k + 1)
    else RetryFrom(results, k + 1)
  }

  /** The retry loop of one row (`for (int retry = 0; retry < 10; retry++)`): every
      call but the last gave a saturated result, and the row keeps the last call's
      trimmed reply. */
  function CallWithRetry(replies: nat -> Outcome): (a: Attempts)
    ensures 1 <= a.calls <= MaxAttempts
    ensures a.result == AttemptText(replies(a.calls - 1))
    ensures forall j :: 0 <= j < a.calls - 1 ==> IsSaturated(AttemptText(replies(j)))
    ensures a.calls < MaxAttempts ==> !IsSaturated(a.result)
  {
    var a := RetryFrom(CallResults(replies), 0);
    assert forall j :: 0 <= j < a.calls ==> CallResults(replies)(j) == AttemptText(replies(j));
    a
  }

  /** A call that throws is never retried: the empty result lacks the marker. */
  lemma ThrowIsNotRetried(replies: nat -> Outcome)
    requires replies(0) == Throw
    ensures CallWithRetry(replies) == Attempts("", 1)
  {
    EmptyContainsNothing(SaturationMarker);
  }

  /** What the environment does for one row. */
  datatype RecordEnv = RecordEnv(
    replies: nat -> Outcome,    // the outcome of the row's 1st, 2nd, … remote call
    payloadIsBase64: bool,      // `Convert.FromBase64String(cols[2])` succeeds
    cancelAtProcess: bool,      // the token is cancelled when the row is processed
    cancelAtWrite: bool,        // the token is cancelled when the row's line is about to be written
    stamp: string)              // `DateTime.UtcNow.ToString("yyyyMMdd_HHmmss.fff")`

  /** The exceptions processing a row can raise. */
  datatype RowFault =
    | MissingDataColumn   // `cols[2]` is out of range
    | InvalidPayload      // the data column is not base64

  /** A processed row: its rewritten fields and its effect on the counters. */
  datatype Processed = Processed(fields: seq<string>, calls: nat, counted: bool, succeeded: bool)

  /** Processes one tab-split row: a row seen after cancellation gets an empty data
      column and no call; otherwise the data column becomes the retry loop's result.
      The row counts as processed unless cancelled, and as succeeded when its result
      lacks the saturation marker. */
  function ProcessRecord(cols: seq<string>, env: RecordEnv): (r: Result<Processed, RowFault>)
    ensures r.Err? <==> |cols| <= DataColumn || (!env.cancelAtProcess && !env.payloadIsBase64)
    ensures r.Ok? ==> |r.value.fields| == |cols|
    ensures r.Ok? ==> forall i :: 0 <= i < |cols| && i != DataColumn ==> r.value.fields[i] == cols[i]
    ensures r.Ok? && env.cancelAtProcess ==>
              r.value.fields[DataColumn] == "" && r.value.calls == 0
              && !r.value.counted && !r.value.succeeded
    ensures r.Ok? && !env.cancelAtProcess ==>
              && r.value.counted
              && 1 <= r.value.calls <= MaxAttempts
              && r.value.fields[DataColumn] == CallWithRetry(env.replies).result
              && (r.value.succeeded <==> !IsSaturated(r.value.fields[DataColumn]))
  {
    if |cols| <= DataColumn then Err(MissingDataColumn)
    else if env.cancelAtProcess then Ok(Processed(cols[DataColumn := ""], 0, false, false))
    else if !env.payloadIsBase64 then Err(InvalidPayload)
    else
      var a := CallWithRetry(env.replies);
      Ok(Processed(cols[DataColumn := a.result], a.calls, true, !IsSaturated(a.result)))
  }

  /** `string.Join("\t", cols) + "\t" + timestamp` */
  function LogLine(fields: seq<string>, stamp: string): string {
    Join(fields, "\t") + "\t" + stamp
  }

  /** A log line splits back into the row's fields and the timestamp when no field and
      not the timestamp holds a tab. */
  lemma LogLineFields(fields: seq<string>, stamp: string)
    requires |fields| >= 1
    requires forall i :: 0 <= i < |fields| ==> '\t' !in fields[i]
    requires '\t' !in stamp
    ensures Split(LogLine(fields, stamp), '\t') == fields + [stamp]
  {
    JoinSnoc(fields, stamp);
    SplitJoin(fields + [stamp], '\t');
  }

  lemma {:induction false} JoinSnoc(parts: seq<string>, last: string)
    requires |parts| >= 1
    ensures Join(parts + [last], "\t") == LogLine(parts, last)
    decreases |parts|
  {
    if |parts| > 1 {
      assert (parts + [last])[1..] == parts[1..] + [last];
      JoinSnoc(parts[1..], last);
    }
  }

  /** The line logged for a row whose data column is replaced by a tab-free result is
      the row with only that column changed, plus one timestamp field. */
  lemma RewrittenLineFields(line: string, result: string, stamp: string)
    requires |Split(line, '\t')| > DataColumn
    requires '\t' !in result && '\t' !in stamp
    ensures Split(LogLine(Split(line, '\t')[DataColumn := result], stamp), '\t')
            == Split(line, '\t')[DataColumn := result] + [stamp]
  {
    var fields := Split(line, '\t')[DataColumn := result];
    assert forall i :: 0 <= i < |fields| ==> '\t' !in fields[i] by {
      forall i | 0 <= i < |fields| ensures '\t' !in fields[i] {
        if i != DataColumn { assert fields[i] == Split(line, '\t')[i]; }
      }
    }
    LogLineFields(fields, stamp);
  }

  // ---------------------------------------------------------------- the run

  /** What the pipeline hands to the log writer for one dataset row: the outcome of
      processing it, whether the writer finds the token cancelled, and the timestamp. */
  datatype Row = Row(outcome: Result<Processed, RowFault>, cancelAtWrite: bool, stamp: string)

  function RowOf(line: string, env: RecordEnv): Row {
    Row(ProcessRecord(Split(line, '\t'), env), env.cancelAtWrite, env.stamp)
  }

  function Rows(lines: seq<string>, envs: seq<RecordEnv>): (rows: seq<Row>)
    requires |envs| == |lines|
    ensures |rows| == |lines|
  {
    seq(|lines|, i requires 0 <= i < |lines| => RowOf(lines[i], envs[i]))
  }

  /** Why the log stopped growing. */
  datatype Stop =
    | AllWritten                               // every row was logged
    | Cancelled                                // the writer saw the cancellation
    | RowFaulted(fault: RowFault, row: nat)    // processing a row raised
    | ConcurrencyRejected                      // the degree of parallelism was out of range

  /** The log written so far, the line counts at which the writer flushed, the two
      progress counters, and whether the run stopped. */
  datatype Run = Run(log: seq<string>, flushes: seq<nat>, processed: nat, succeeded: nat, stop: Stop)

  /** Hands row number `index` to the writer: a fault stops the run; otherwise the
      counters move, and the writer checks the token before writing, flushes and stops
      when it is cancelled, and flushes after every 100th line. */
  function Step(prev: Run, row: Row, index: nat): Run
  {
    match row.outcome
    case Err(f) => prev.(stop := RowFaulted(f, index))
    case Ok(p) =>
      var counted := prev.(processed := prev.processed + (if p.counted then 1 else 0),
                           succeeded := prev.succeeded + (if p.succeeded then 1 else 0));
      if row.cancelAtWrite then
        counted.(flushes := prev.flushes + [|prev.log|], stop := Cancelled)
      else
        var log := prev.log + [LogLine(p.fields, row.stamp)];
        counted.(log := log, flushes := prev.flushes + (if |log| % FlushInterval == 0 then [|log|] else []))
  }

  /** The ordered pipeline: rows are taken in dataset order until the writer stops. */
  function Drive(rows: seq<Row>): Run
  {
    if |rows| == 0 then Run([], [], 0, 0, AllWritten)
    else
      var prev := Drive(rows[..|rows| - 1]);
      if prev.stop != AllWritten then prev
      else Step(prev, rows[|rows| - 1], |rows| - 1)
  }

  /** `Eval(concurrency, cancelToken)` up to the end of the log writing. */
  function Eval(concurrency: int, lines: seq<string>, envs: seq<RecordEnv>): Run
    requires |envs| == |lines|
  {
    if concurrency < 1 || concurrency > MaxDegreeOfParallelism then Run([], [], 0, 0, ConcurrencyRejected)
    else Drive(Rows(lines, envs))
  }

  /** `TotalNumOfImages`: the cached count when the count file exists, otherwise the
      number of dataset lines (which the evaluator then caches). */
  function TotalImages(cachedCount: Option<int>, lines: seq<string>): int {
    match cachedCount
    case Some(n) => n
    case None => |lines|
  }

  // ---------------------------------------------------------------- properties of the run

  /** The row counts as processed. */
  predicate Counted(row: Row) {
    row.outcome.Ok? && row.outcome.value.counted
  }

  /** The row counts as succeeded. */
  predicate Succeeded(row: Row) {
    row.outcome.Ok? && row.outcome.value.succeeded
  }

  /** Rows whose processing completed: the logged ones, plus the one the writer
      stopped at. */
  function Completed(r: Run): nat {
    |r.log| + (if r.stop == Cancelled then 1 else 0)
  }

  /** The run completes at most every row, and all of them when it was not stopped. */
  lemma {:induction false} DriveLength(rows: seq<Row>)
    ensures var r := Drive(rows);
      && Completed(r) <= |rows|
      && (r.stop == AllWritten ==> |r.log| == |rows|)
      && (r.stop.RowFaulted? ==> |r.log| < |rows|)
      && !r.stop.ConcurrencyRejected?
  {
    if |rows| > 0 {
      DriveLength(rows[..|rows| - 1]);
    }
  }

  /** Where the run stopped: after all rows, at the row whose line the writer refused
      because of the cancellation, or at the row whose processing raised. */
  lemma {:induction false} DriveStop(rows: seq<Row>)
    ensures var r := Drive(rows);
      && (r.stop == Cancelled ==> |r.log| < |rows| && rows[|r.log|].cancelAtWrite && rows[|r.log|].outcome.Ok?)
      && (r.stop.RowFaulted? ==> r.stop.row == |r.log| < |rows| && rows[|r.log|].outcome == Err(r.stop.fault))
  {
    if |rows| > 0 {
      var n := |rows| - 1;
      DriveStop(rows[..n]);
      DriveLength(rows[..n]);
      var prev := Drive(rows[..n]);
      if prev.stop != AllWritten {
        assert rows[..n][|prev.log|] == rows[|prev.log|];
      }
    }
  }

  /** Line `i` of the log is row `i`, processed without a fault, with its data column
      rewritten and its timestamp appended, and the writer was not cancelled there. */
  predicate LoggedAt(rows: seq<Row>, log: seq<string>, i: int) {
    && 0 <= i < |log| && i < |rows|
    && !rows[i].cancelAtWrite
    && rows[i].outcome.Ok?
    && log[i] == LogLine(rows[i].outcome.value.fields, rows[i].stamp)
  }

  /** The log holds the rows in order, each as its processed fields plus the
      timestamp; no logged row met a cancelled writer. */
  lemma {:induction false} DriveLogLines(rows: seq<Row>)
    ensures var r := Drive(rows);
      && |r.log| <= |rows|
      && forall i :: 0 <= i < |r.log| ==> LoggedAt(rows, r.log, i)
  {
    if |rows| > 0 {
      var n := |rows| - 1;
      DriveLogLines(rows[..n]);
      DriveLength(rows[..n]);
      var prev := Drive(rows[..n]);
      var r := Drive(rows);
      forall i | 0 <= i < |r.log| ensures LoggedAt(rows, r.log, i) {
        if i < |prev.log| {
          assert LoggedAt(rows[..n], prev.log, i);
          assert rows[..n][i] == rows[i] && r.log[i] == prev.log[i];
        }
      }
    }
  }

  /** The counters count exactly the completed rows that were counted as processed
      and as succeeded. */
  lemma {:induction false} DriveCounters(rows: seq<Row>)
    ensures Completed(Drive(rows)) <= |rows|
    ensures Drive(rows).processed == CountIf(rows[..Completed(Drive(rows))], Counted)
    ensures Drive(rows).succeeded == CountIf(rows[..Completed(Drive(rows))], Succeeded)
  {
    if |rows| > 0 {
      var n := |rows| - 1;
      var prefix := rows[..n];
      DriveCounters(prefix);
      DriveLength(prefix);
      var prev := Drive(prefix);
      if prev.stop != AllWritten {
        assert Drive(rows) == prev;
        assert prefix[..Completed(prev)] == rows[..Completed(prev)];
      } else {
        assert prefix[..Completed(prev)] == prefix;
        CountersAfterStep(prefix, rows[n]);
        assert prefix + [rows[n]] == rows;
      }
    }
  }

  /** A row handed to a writer that has logged every earlier row moves the counters
      by its own contribution exactly when it completes. */
  lemma CountersAfterStep(prefix: seq<Row>, row: Row)
    requires Drive(prefix).stop == AllWritten && |Drive(prefix).log| == |prefix|
    requires Drive(prefix).processed == CountIf(prefix, Counted)
    requires Drive(prefix).succeeded == CountIf(prefix, Succeeded)
    ensures Completed(Drive(prefix + [row])) <= |prefix| + 1
    ensures Drive(prefix + [row]).processed == CountIf((prefix + [row])[..Completed(Drive(prefix + [row]))], Counted)
    ensures Drive(prefix + [row]).succeeded == CountIf((prefix + [row])[..Completed(Drive(prefix + [row]))], Succeeded)
  {
    var rows := prefix + [row];
    var n := |prefix|;
    assert rows[..n] == prefix && rows[n] == row;
    var r := Drive(rows);
    assert r == Step(Drive(prefix), row, n);
    if row.outcome.Err? {
      assert Completed(r) == n;
    } else {
      assert Completed(r) == n + 1;
      assert rows[..n + 1] == rows;
    }
  }

  /** Multiples of the flush interval in `1..n`, in increasing order. */
  ghost predicate PeriodicFlushes(flushes: seq<nat>, n: nat) {
    && (forall i, j :: 0 <= i < j < |flushes| ==> flushes[i] < flushes[j])
    && (forall x :: x in flushes <==> 0 < x <= n && x % FlushInterval == 0)
  }

  /** The writer flushes after every 100th line and, when it stops for a cancellation,
      once more at that point. */
  lemma {:induction false} DriveFlushes(rows: seq<Row>)
    ensures FlushesOf(Drive(rows))
  {
    if |rows| > 0 {
      var n := |rows| - 1;
      DriveFlushes(rows[..n]);
      var prev := Drive(rows[..n]);
      if prev.stop == AllWritten {
        assert Drive(rows) == Step(prev, rows[n], n);
        FlushesAfterStep(prev, rows[n], n);
      }
    }
  }

  /** The flushes of a run: periodic, plus the final flush of a cancelled writer. */
  ghost predicate FlushesOf(r: Run) {
    if r.stop == Cancelled then
      |r.flushes| >= 1 && r.flushes[|r.flushes| - 1] == |r.log|
      && PeriodicFlushes(r.flushes[..|r.flushes| - 1], |r.log|)
    else PeriodicFlushes(r.flushes, |r.log|)
  }

  /** A step of a writer that has not stopped keeps its flushes as promised. */
  lemma FlushesAfterStep(prev: Run, row: Row, index: nat)
    requires prev.stop == AllWritten && PeriodicFlushes(prev.flushes, |prev.log|)
    ensures FlushesOf(Step(prev, row, index))
  {
    var r := Step(prev, row, index);
    if row.outcome.Ok? {
      if row.cancelAtWrite {
        assert r.flushes[..|r.flushes| - 1] == prev.flushes;
      } else {
        FlushAfterLine(prev.flushes, |prev.log|);
      }
    }
  }

  /** Writing line `n + 1` keeps the flushes periodic. */
  lemma FlushAfterLine(flushes: seq<nat>, n: nat)
    requires PeriodicFlushes(flushes, n)
    ensures PeriodicFlushes(flushes + (if (n + 1) % FlushInterval == 0 then [n + 1] else []), n + 1)
  {
    var next := flushes + (if (n + 1) % FlushInterval == 0 then [n + 1] else []);
    forall x ensures x in next <==> 0 < x <= n + 1 && x % FlushInterval == 0 {
      if x != n + 1 {
        assert x in next <==> x in flushes;
      }
    }
    forall i, j | 0 <= i < j < |next| ensures next[i] < next[j] {
      if j == |flushes| {
        assert next[i] == flushes[i] && flushes[i] in flushes;
      }
    }
  }

  // ---------------------------------------------------------------- the rows of a dataset

  /** A cancellation token stays cancelled, and a row's line is written after the
      row was processed. */
  ghost predicate TokenIsMonotone(envs: seq<RecordEnv>) {
    forall i :: 0 <= i < |envs| && envs[i].cancelAtProcess ==> envs[i].cancelAtWrite
  }

  /** Row `i` was not cancelled, and its log line is the row with the data column
      replaced by the retry loop's result, plus the timestamp. */
  predicate CalledAt(lines: seq<string>, envs: seq<RecordEnv>, log: seq<string>, i: int)
    requires |envs| == |lines|
  {
    && 0 <= i < |log| && i < |lines|
    && !envs[i].cancelAtProcess
    && |Split(lines[i], '\t')| > DataColumn
    && log[i] == LogLine(Split(lines[i], '\t')[DataColumn := CallWithRetry(envs[i].replies).result], envs[i].stamp)
  }

  /** With a real token, no row skipped for cancellation reaches the log: every logged
      line is its row with the data column replaced by the retry loop's result, and the
      processed count is the number of logged rows, or one more when the writer stopped
      after processing a live row. */
  lemma LoggedRowsWereCalled(lines: seq<string>, envs: seq<RecordEnv>)
    requires |envs| == |lines|
    requires TokenIsMonotone(envs)
    ensures |Drive(Rows(lines, envs)).log| <= |lines|
    ensures forall i :: 0 <= i < |Drive(Rows(lines, envs)).log| ==> CalledAt(lines, envs, Drive(Rows(lines, envs)).log, i)
    ensures |Drive(Rows(lines, envs)).log| <= Drive(Rows(lines, envs)).processed <= Completed(Drive(Rows(lines, envs)))
    ensures Drive(Rows(lines, envs)).succeeded <= Drive(Rows(lines, envs)).processed
  {
    var rows := Rows(lines, envs);
    LoggedRowsCalled(lines, envs);
    forall i | 0 <= i < |rows| ensures Succeeded(rows[i]) ==> Counted(rows[i]) {
      assert rows[i] == RowOf(lines[i], envs[i]);
    }
    CountersOfCountedLog(rows);
  }

  /** When every logged row counted as processed, the processed counter lies between
      the logged and the completed rows, and bounds the succeeded counter. */
  lemma CountersOfCountedLog(rows: seq<Row>)
    requires |Drive(rows).log| <= |rows|
    requires forall i :: 0 <= i < |Drive(rows).log| ==> Counted(rows[i])
    requires forall i :: 0 <= i < |rows| && Succeeded(rows[i]) ==> Counted(rows[i])
    ensures |Drive(rows).log| <= Drive(rows).processed <= Completed(Drive(rows))
    ensures Drive(rows).succeeded <= Drive(rows).processed
  {
    var r := Drive(rows);
    DriveCounters(rows);
    var done := rows[..Completed(r)];
    forall i | 0 <= i < |done| ensures (i < |r.log| ==> Counted(done[i])) && (Succeeded(done[i]) ==> Counted(done[i])) {
      assert done[i] == rows[i];
    }
    CountBetween(done, |r.log|);
    SucceededWithinCounted(done);
  }

  /** Rows whose first `k` all count: between `k` and all of them count. */
  lemma CountBetween(done: seq<Row>, k: nat)
    requires k <= |done|
    requires forall i :: 0 <= i < k ==> Counted(done[i])
    ensures k <= CountIf(done, Counted) <= |done|
  {
    PrefixSplit(done, k, |done|);
    assert done[..|done|] == done;
    CountAll(done[..k], Counted);
    CountIfAppend(done[..k], done[k..], Counted);
  }

  /** Each logged row was called, and counted as processed. */
  lemma LoggedRowsCalled(lines: seq<string>, envs: seq<RecordEnv>)
    requires |envs| == |lines|
    requires TokenIsMonotone(envs)
    ensures |Drive(Rows(lines, envs)).log| <= |lines|
    ensures forall i :: 0 <= i < |Drive(Rows(lines, envs)).log| ==>
              CalledAt(lines, envs, Drive(Rows(lines, envs)).log, i) && Counted(Rows(lines, envs)[i])
  {
    var rows := Rows(lines, envs);
    var r := Drive(rows);
    DriveLogLines(rows);
    forall i | 0 <= i < |r.log| ensures CalledAt(lines, envs, r.log, i) && Counted(rows[i]) {
      assert LoggedAt(rows, r.log, i);
      assert rows[i] == RowOf(lines[i], envs[i]);
    }
  }

  /** Every row counted as succeeded was counted as processed. */
  lemma {:induction false} SucceededWithinCounted(rows: seq<Row>)
    requires forall i :: 0 <= i < |rows| && Succeeded(rows[i]) ==> Counted(rows[i])
    ensures CountIf(rows, Succeeded) <= CountIf(rows, Counted)
  {
    if |rows| > 0 {
      SucceededWithinCounted(rows[..|rows| - 1]);
    }
  }

  /** Succeeded ≤ processed ≤ rows, whatever the token does. */
  lemma CountersBounded(lines: seq<string>, envs: seq<RecordEnv>)
    requires |envs| == |lines|
    ensures var r := Drive(Rows(lines, envs));
      r.succeeded <= r.processed <= |lines|
  {
    var rows := Rows(lines, envs);
    DriveCounters(rows);
    var done := rows[..Completed(Drive(rows))];
    forall i | 0 <= i < |done| && Succeeded(done[i]) ensures Counted(done[i]) {
      assert done[i] == RowOf(lines[i], envs[i]);
    }
    SucceededWithinCounted(done);
  }

  // ---------------------------------------------------------------- accuracy and summary

  /** Grades the log lines read back: lines with an empty label column are skipped; a
      line too short for column 1, or for column 2 when its label is not empty, raises
      (`None`). */
  function Accuracy(log: seq<string>): (r: Option<Tally>)
    ensures r.Some? ==> r.value.Valid()
    ensures r.Some? ==> r.value.evaluated <= |log|
  {
    if |log| == 0 then Some(Tally(0, 0, 0))
    else
      match Accuracy(log[..|log| - 1])
      case None => None
      case Some(t) =>
        var cols := Split(log[|log| - 1], '\t');
        if |cols| <= LabelColumn then None
        else if cols[LabelColumn] == "" then Some(t)
        else if |cols| <= DataColumn then None
        else
          var c := Grade(cols[LabelColumn], cols[DataColumn]);
          AddKeepsValid(t, c);
          Some(t.Add(c))
  }

  /** A line is graded when its label column is not empty. */
  predicate Labelled(line: string) {
    var cols := Split(line, '\t');
    |cols| > LabelColumn && cols[LabelColumn] != ""
  }

  /** Exactly the labelled lines are graded. */
  lemma {:induction false} AccuracyCountsLabelled(log: seq<string>)
    requires Accuracy(log).Some?
    ensures Accuracy(log).value.evaluated == CountIf(log, Labelled)
  {
    if |log| > 0 {
      AccuracyCountsLabelled(log[..|log| - 1]);
    }
  }

  /** A graded line whose result puts the label first. */
  predicate Top1Hit(line: string) {
    var cols := Split(line, '\t');
    Labelled(line) && |cols| > DataColumn && Grade(cols[LabelColumn], cols[DataColumn]).top1
  }

  /** A graded line whose label is among the result's first five names. */
  predicate Top5Hit(line: string) {
    var cols := Split(line, '\t');
    Labelled(line) && |cols| > DataColumn && Grade(cols[LabelColumn], cols[DataColumn]).top5
  }

  /** The top-1 and top-5 counts are the numbers of lines that hit. */
  lemma {:induction false} AccuracyCountsHits(log: seq<string>)
    requires Accuracy(log).Some?
    ensures Accuracy(log).value.top1 == CountIf(log, Top1Hit)
    ensures Accuracy(log).value.top5 == CountIf(log, Top5Hit)
  {
    if |log| > 0 {
      AccuracyCountsHits(log[..|log| - 1]);
    }
  }

  /** The log as the accuracy pass reads it: written with `WriteLine`, read back
      with `File.ReadLines`. */
  function ReadBack(log: seq<string>): seq<string> {
    ReadLines(WriteLines(log))
  }

  /** Neither the row's final result nor its timestamp holds a line break. */
  predicate UnbrokenEnv(env: RecordEnv) {
    Unbroken(CallWithRetry(env.replies).result) && Unbroken(env.stamp)
  }

  /** The fields of a dataset line without breaks, with the data column replaced by a
      text without breaks, and a timestamp without breaks make a line without breaks. */
  lemma UnbrokenLogLine(line: string, result: string, stamp: string)
    requires |Split(line, '\t')| > DataColumn
    requires Unbroken(line) && Unbroken(result) && Unbroken(stamp)
    ensures Unbroken(LogLine(Split(line, '\t')[DataColumn := result], stamp))
  {
    var cols := Split(line, '\t');
    var fields := cols[DataColumn := result] + [stamp];
    UnbrokenChars(line);
    UnbrokenChars(result);
    UnbrokenChars(stamp);
    PartsWithout(cols, "\t", '\r');
    PartsWithout(cols, "\t", '\n');
    assert forall i :: 0 <= i < |fields| ==> '\r' !in fields[i] && '\n' !in fields[i] by {
      forall i | 0 <= i < |fields| ensures '\r' !in fields[i] && '\n' !in fields[i] {
        if i < DataColumn || DataColumn < i < |cols| { assert fields[i] == cols[i]; }
      }
    }
    JoinWithout(fields, "\t", '\r');
    JoinWithout(fields, "\t", '\n');
    JoinSnoc(cols[DataColumn := result], stamp);
    UnbrokenChars(LogLine(cols[DataColumn := result], stamp));
  }

  /** The dataset is read with `File.ReadLines`, so its lines hold no break; when no
      reply's final result and no timestamp holds one either, the accuracy pass reads
      back exactly the log the evaluator wrote, every line of which has the four fields
      it reads, so grading never raises. */
  lemma AccuracyOfOwnLog(dataset: string, envs: seq<RecordEnv>)
    requires |envs| == |ReadLines(dataset)|
    ensures var log := Drive(Rows(ReadLines(dataset), envs)).log;
            (forall i :: 0 <= i < |envs| ==> UnbrokenEnv(envs[i])) ==>
              ReadBack(log) == log && Accuracy(ReadBack(log)).Some?
  {
    var lines := ReadLines(dataset);
    var rows := Rows(lines, envs);
    var r := Drive(rows);
    DriveLogLines(rows);
    forall i | 0 <= i < |r.log| ensures |Split(r.log[i], '\t')| > DataColumn {
      assert LoggedAt(rows, r.log, i);
      assert rows[i] == RowOf(lines[i], envs[i]);
      var fields := rows[i].outcome.value.fields;
      assert |fields| > DataColumn;
      JoinSnoc(fields, rows[i].stamp);
      SplitJoinLength(fields + [rows[i].stamp], '\t');
    }
    AccuracyWide(r.log);
    if forall i :: 0 <= i < |envs| ==> UnbrokenEnv(envs[i]) {
      forall i | 0 <= i < |r.log| ensures Unbroken(r.log[i]) {
        assert LoggedAt(rows, r.log, i);
        assert rows[i] == RowOf(lines[i], envs[i]);
        var cols := Split(lines[i], '\t');
        var result := if envs[i].cancelAtProcess then "" else CallWithRetry(envs[i].replies).result;
        assert UnbrokenEnv(envs[i]);
        UnbrokenLogLine(lines[i], result, envs[i].stamp);
      }
      ReadBackUnbroken(r.log);
    }
  }

  /** A reply holding a line break is logged on one line but read back as two; the
      second has a non-empty column 1 and no column 2, so the accuracy pass raises and
      no summary is written. */
  lemma BrokenReplyFailsAccuracy()
    ensures var env := RecordEnv(_ => Reply("a\nb"), true, false, false, "T");
            var r := Drive(Rows(["k\ta\tB"], [env]));
            && r.log == [LogLine(["k", "a", "a\nb"], "T")]
            && ReadBack(r.log) == ["k\ta\ta", "b\tT"]
            && Accuracy(ReadBack(r.log)).None?
  {
    BrokenReplyLogged();
    BrokenReplyReadBack();
    BrokenReplyGraded();
  }

  lemma BrokenReplyLogged()
    ensures var env := RecordEnv(_ => Reply("a\nb"), true, false, false, "T");
            Drive(Rows(["k\ta\tB"], [env])).log == [LogLine(["k", "a", "a\nb"], "T")]
  {
    var env := RecordEnv(_ => Reply("a\nb"), true, false, false, "T");
    BrokenReplyResult(env.replies);
    BrokenRowFields();
    var rows := Rows(["k\ta\tB"], [env]);
    assert rows[..0] == [];
  }

  lemma BrokenReplyResult(replies: nat -> Outcome)
    requires replies(0) == Reply("a\nb")
    ensures CallWithRetry(replies) == Attempts("a\nb", 1)
  {
    TrimTrimmed("a\nb");
    assert !IsSaturated("a\nb");
  }

  lemma BrokenRowFields()
    ensures Split("k\ta\tB", '\t') == ["k", "a", "B"]
  {
    SplitJoin(["k", "a", "B"], '\t');
    assert Join(["k", "a", "B"], "\t") == "k\ta\tB";
  }

  lemma BrokenReplyReadBack()
    ensures ReadBack([LogLine(["k", "a", "a\nb"], "T")]) == ["k\ta\ta", "b\tT"]
  {
    BrokenLineText();
    BrokenTextRead();
  }

  lemma BrokenLineText()
    ensures LogLine(["k", "a", "a\nb"], "T") == "k\ta\ta\nb\tT"
  {
    assert Join(["k", "a", "a\nb"], "\t") == "k\ta\ta\nb";
  }

  lemma BrokenTextRead()
    ensures ReadBack(["k\ta\ta\nb\tT"]) == ["k\ta\ta", "b\tT"]
  {
    assert "k\ta\ta\nb\tT" == "k\ta\ta" + "\n" + "b\tT";
    ReadInnerFeed("k\ta\ta", "b\tT");
  }

  lemma BrokenReplyGraded()
    ensures Accuracy(["k\ta\ta", "b\tT"]).None?
  {
    var back := ["k\ta\ta", "b\tT"];
    SplitJoin(["k", "a", "a"], '\t');
    assert Join(["k", "a", "a"], "\t") == back[0];
    SplitJoin(["b", "T"], '\t');
    assert Join(["b", "T"], "\t") == back[1];
    assert back[..1] == [back[0]];
    assert [back[0]][..0] == [];
  }

  lemma {:induction false} AccuracyWide(log: seq<string>)
    requires forall i :: 0 <= i < |log| ==> |Split(log[i], '\t')| > DataColumn
    ensures Accuracy(log).Some?
  {
    if |log| > 0 {
      AccuracyWide(log[..|log| - 1]);
    }
  }

  /** The seven fields of the summary line: service GUID, start and end time, lines
      evaluated, rows succeeded, top-1 and top-5 accuracy. The time and accuracy texts
      come from `DateTime` and `float` formatting. */
  function SummaryLine(guid: string, start: string, end: string, t: Tally, succeeded: nat,
                       top1: string, top5: string): string
  {
    Join([guid, start, end, NatToString(t.evaluated), NatToString(succeeded), top1, top5], "\t")
  }

  /** The summary line has exactly seven tab-separated fields, in order. */
  lemma SummaryFields(guid: string, start: string, end: string, t: Tally, succeeded: nat,
                      top1: string, top5: string)
    requires '\t' !in guid && '\t' !in start && '\t' !in end && '\t' !in top1 && '\t' !in top5
    ensures Split(SummaryLine(guid, start, end, t, succeeded, top1, top5), '\t')
            == [guid, start, end, NatToString(t.evaluated), NatToString(succeeded), top1, top5]
  {
    var parts := [guid, start, end, NatToString(t.evaluated), NatToString(succeeded), top1, top5];
    assert '\t' !in NatToString(t.evaluated) by {
      var s := NatToString(t.evaluated);
      assert forall k :: 0 <= k < |s| ==> IsDigit(s[k]);
    }
    assert '\t' !in NatToString(succeeded) by {
      var s := NatToString(succeeded);
      assert forall k :: 0 <= k < |s| ==> IsDigit(s[k]);
    }
    SplitJoin(parts, '\t');
  }

  /** The end of `Eval`: when the writing finished without an exception, the accuracy
      of the log and the summary line, which is appended only when the writer lock was
      obtained; `ratio(a, b)` renders `(float)a / b`. */
  function Summarize(guid: string, start: string, end: string, r: Run, lockAcquired: bool,
                     ratio: (nat, nat) -> string): (line: Option<string>)
    ensures line.Some? ==> lockAcquired && (r.stop == AllWritten || r.stop == Cancelled)
  {
    if r.stop.RowFaulted? || r.stop.ConcurrencyRejected? || !lockAcquired then None
    else
      match Accuracy(ReadBack(r.log))
      case None => None
      case Some(t) =>
        Some(SummaryLine(guid, start, end, t, r.succeeded, ratio(t.top1, t.evaluated), ratio(t.top5, t.evaluated)))
  }
}
