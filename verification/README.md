# Contest-evaluation harness: a Dafny model

This project models the contest-evaluation harness of the recognition hub samples,
together with the result-string producer that the harness grades.

The harness has five parts:

- **The evaluator** (`Evaluator.Eval`). It sends every row of a tab-separated
  measurement set to the recognizer under test. It retries while the recognizer
  answers that it is saturated (`return 0B.`). It then replaces the row's data column
  with the reply, appends a timestamp, and writes the line to the evaluation log in
  dataset order until cancelled. Finally it grades the log for top-1/top-5 accuracy
  and produces a seven-field summary line.
- **The evaluation server** (`PredictionFunc`). It parses a `key:value;…` request with
  case-insensitive keys. It dispatches Start, Cancel, Check and List over a registry
  that holds at most one evaluator per recognizer GUID. A finished evaluation leaves
  the registry.
- **The command-line client.** It checks the GUIDs and formats the request
  `cmd:{0};serviceGuid:{1};instanceNum:{2}`. Start caps the instance count at 20.
  The request crosses to the server as ASCII bytes, so every other character
  arrives as `?`.
- **The offline evaluation tool.**
  - `DogICME16` keeps one representative per image key and grades it.
  - `CelebMM16` reads a `key: value` configuration and its column list. It keeps the
    log lines whose field count is the most frequent one, parses the top-5
    candidates, and splits the graded lines into two sets by a flag bitmask. For each
    set it computes the precision/coverage curve and reports the coverage at
    precisions 0.95 and 0.99.
  - `CheckLog` filters and projects a log.
- **The Caffe recognizer's result producer.**
  - `CaffePredictor.Predict` ranks the class scores stably and keeps the top K above a
    threshold. It formats them as `label:score; …`.
  - The host reads a model configuration (`key: value`, with required and optional
    keys) and resolves its files against the configuration's directory.

Everything is modelled as pure functions over immutable data:

- rows are `seq<string>`;
- the registry is a sequence of evaluators with distinct GUIDs;
- files are sequences of lines, or a map from path to lines.

The outside world becomes parameters. That covers the remote recognizer (an oracle
of `Reply(text) | Throw` outcomes per call), the cancellation token (two flags per
row: when the row is processed and when its line is written), the clock, and
`Guid.TryParse` / `Convert.ToSingle`. Scores and confidences are integers standing
for ordered values. Precision and coverage are exact fractions.

Modules, one per source unit plus shared helpers:

- `Wrappers`, `Seqs`, `Strings`: generic helpers.
  - `Strings` covers .NET `Split`, `Join`, `Trim` (white space as `char.IsWhiteSpace`
    defines it), `ToLower` (ASCII and Latin-1 letters) and `Int32` text.
- `TextLines`: `StreamWriter.WriteLine` and `File.ReadLines`. The evaluator grades its
  log as `File.ReadLines` reads it back, which splits at every `\r`, `\n` and `\r\n`.
- `KeyValue`: the `Split(':')…ToDictionary(…, OrdinalIgnoreCase)` idiom.
  - This idiom is shared by the request parser and both configuration readers.
  - Keys are compared after the ASCII and Latin-1 lower-casing of `Strings`, not
    with the full `OrdinalIgnoreCase` folding.
- `Paths`: `Path.Combine` and `Path.GetDirectoryName`.
- `Ranking`: the stable `OrderByDescending`, as an insertion sort.
- `Grading`: candidate names and the top-1/top-5 check, shared by the evaluator and
  the offline evaluation tool.
- `Evaluation`: `Evaluator.Eval`.
- `Server`: `PredictionFunc` and the registry.
- `Client`: the command-line client.
- `Perf`: `CalcPrecisionCoverage` and `OutputPerf`.
- `Offline`: `DogICME16`, `CheckLog`, and the most-frequent-field-count mode.
- `Celeb`: `CelebMM16`.
- `Predictor`: `CaffePredictor`.
- `CaffeHost`: the model-configuration part of `InitializeRecognizer`.

## Model

| member | source | states |
|---|---|---|
| Evaluation.RetryFrom | samples/ContestEvaluation/EvaluationServer/Evaluation.cs:118-133 | At most 10 calls are made. Every call but the last gave a saturated result, and the row keeps the last call's result. Fewer than 10 calls means the final result is not saturated. |
| Evaluation.CallWithRetry | samples/ContestEvaluation/EvaluationServer/Evaluation.cs:117-133 | The row makes 1 to 10 calls. Every call's trimmed reply but the last is saturated, and the row keeps the last call's trimmed reply, or the empty text when that call threw. |
| Evaluation.ThrowIsNotRetried | samples/ContestEvaluation/EvaluationServer/Evaluation.cs:121-132 | A first call that throws ends the loop after one call with the empty result. |
| Evaluation.ProcessRecord | samples/ContestEvaluation/EvaluationServer/Evaluation.cs:110-141 | A row faults exactly when it lacks column 2, or is live with a payload that is not base64. A row cancelled before processing gets an empty column 2, no call and no counter change. A live row gets the retry loop's result in column 2 and counts as processed. It counts as succeeded iff that result lacks the marker. Every other field is unchanged. |
| Evaluation.RewrittenLineFields | samples/ContestEvaluation/EvaluationServer/Evaluation.cs:140-143 | The written line splits on tabs into the input fields with only index 2 replaced, plus exactly one timestamp field. |
| Evaluation.DriveLength | samples/ContestEvaluation/EvaluationServer/Evaluation.cs:145-160 | The writer completes at most every row. It logs all of them when not stopped, and fewer when a row raised. |
| Evaluation.DriveStop | samples/ContestEvaluation/EvaluationServer/Evaluation.cs:145-160 | A cancelled run stopped at the first row whose line met a cancelled token. A faulted run stopped at the first row whose processing raised. |
| Evaluation.DriveLogLines | samples/ContestEvaluation/EvaluationServer/Evaluation.cs:143-156 | Log line i is row i in dataset order, as its processed fields plus its timestamp, and the writer was not cancelled there. |
| Evaluation.DriveCounters | samples/ContestEvaluation/EvaluationServer/Evaluation.cs:103-137 | Processed and succeeded count exactly the completed rows that were live and, respectively, whose result lacks the marker. |
| Evaluation.DriveFlushes | samples/ContestEvaluation/EvaluationServer/Evaluation.cs:150-158 | Inside the writing loop, there is a flush after every 100th line and at no other count. There is one more flush at the point where the writer stops for a cancellation. |
| Evaluation.LoggedRowsWereCalled | samples/ContestEvaluation/EvaluationServer/Evaluation.cs:110-143 | With a token that stays cancelled, every logged line is its row with column 2 replaced by the retry loop's result. The log length is at most processed, which is at most the completed rows, which bounds succeeded. |
| Evaluation.CountersBounded | samples/ContestEvaluation/EvaluationServer/Evaluation.cs:103-137 | Succeeded ≤ processed ≤ number of rows, whatever the token does. |
| Evaluation.Accuracy | samples/ContestEvaluation/EvaluationServer/Evaluation.cs:165-183 | The tally of the lines read back keeps top1 ≤ top5 ≤ evaluated ≤ lines. |
| Evaluation.AccuracyCountsLabelled | samples/ContestEvaluation/EvaluationServer/Evaluation.cs:165-167 | Exactly the log lines with a non-empty column 1 are graded. |
| Evaluation.AccuracyCountsHits | samples/ContestEvaluation/EvaluationServer/Evaluation.cs:166-183 | Top-1 counts exactly the graded lines whose result names the label first. Top-5 counts exactly those that name it among the first five. |
| Evaluation.AccuracyOfOwnLog | samples/ContestEvaluation/EvaluationServer/Evaluation.cs:103-165 | The dataset lines come from `File.ReadLines` and hold no line break. If no row's final result and no timestamp holds one either, the log reads back line for line. Grading it then never raises, because every line has the columns the pass reads. |
| Evaluation.BrokenReplyFailsAccuracy | samples/ContestEvaluation/EvaluationServer/Evaluation.cs:123-167 | A reply `a\nb` is logged as one line but read back as two. The second line has a label column and no result column, so the accuracy pass raises. |
| Evaluation.SummaryFields | samples/ContestEvaluation/EvaluationServer/Evaluation.cs:191 | The summary line splits into exactly seven fields: guid, start, end, evaluated count, succeeded, top-1, top-5. |
| Evaluation.Summarize | samples/ContestEvaluation/EvaluationServer/Evaluation.cs:162-198 | A summary line is produced only when the write lock was obtained and the writing did not raise. The log is graded as read back. |
| Grading.Candidates | samples/ContestEvaluation/EvaluationServer/Evaluation.cs:171-174 | There are between 1 and 5 candidates, because a split never yields zero parts. Candidate i is `;`-segment i cut at `:`, trimmed and lower-cased. |
| Grading.CheckAgainst | samples/ContestEvaluation/OfflineEvaluation/Program.cs:58-61 | Top-1 iff the first name is the label. Top-5 iff the label is among the names. Top-1 implies top-5. |
| Grading.Grade | samples/ContestEvaluation/EvaluationServer/Evaluation.cs:170-179 | Top-1 iff segment 0's name equals the lower-cased label. Top-5 iff one of the first five segments' names does. Top-1 implies top-5. |
| Grading.AddKeepsValid | samples/ContestEvaluation/EvaluationServer/Evaluation.cs:182-183 | Adding a graded line keeps top1 ≤ top5 ≤ evaluated. |
| KeyValue.HasValueIffColon | samples/ContestEvaluation/EvaluationServer/EvaluationServer.cs:117-118 | A segment has a part 1 exactly when it contains `:`. |
| KeyValue.ParsePairsKeys | samples/ContestEvaluation/EvaluationServer/EvaluationServer.cs:116-118 | A successful parse has exactly the lower-cased trimmed part 0 of the segments as keys. |
| KeyValue.ParsePairsSpec | samples/ContestEvaluation/EvaluationServer/EvaluationServer.cs:116-124 | The parse succeeds iff every segment has a `:` and no two keys agree after lower-casing. Each key then maps to its trimmed part 1. |
| KeyValue.ParseConfigSpec | samples/ContestEvaluation/OfflineEvaluation/Program.cs:107-110 | `#` comment lines are skipped. The configuration parses iff every other line, blank ones included, is a `key:value` pair with keys distinct after lower-casing. Each such line's key then looks up its value. |
| Server.Find | samples/ContestEvaluation/EvaluationServer/EvaluationServer.cs:156-171 | The lookup finds the evaluator registered under the GUID iff one is registered. |
| Server.InvalidRequestSpec | samples/ContestEvaluation/EvaluationServer/EvaluationServer.cs:113-124 | The reply is "Invalid request." with the registry unchanged exactly when some segment lacks `:` (the empty one after a trailing `;` included) or two keys coincide after lower-casing. |
| Server.MissingKeysRaise | samples/ContestEvaluation/EvaluationServer/EvaluationServer.cs:126-127 | A well-formed request without `cmd` or `serviceGuid` raises. |
| Server.StartSpec | samples/ContestEvaluation/EvaluationServer/EvaluationServer.cs:131-152 | Start registers an evaluator only when the GUID is absent, keeps a running one untouched, and keeps GUIDs unique. The reply is the same in both cases. |
| Server.StartTwice | samples/ContestEvaluation/EvaluationServer/EvaluationServer.cs:134 | Starting the same GUID twice leaves the registry as one Start does. |
| Server.CancelSpec | samples/ContestEvaluation/EvaluationServer/EvaluationServer.cs:154-166 | Cancel replies "being cancelled" iff the GUID is registered and "not running" otherwise. It sets only that evaluator's flag and changes nothing else. |
| Server.CancelKeepsGuids | samples/ContestEvaluation/EvaluationServer/EvaluationServer.cs:154-166 | Cancel keeps the set of GUIDs. |
| Server.CheckSpec | samples/ContestEvaluation/EvaluationServer/EvaluationServer.cs:168-181 | Check answers with the progress line of the GUID's evaluator, or "not found" when it is absent. |
| Server.ListLines | samples/ContestEvaluation/EvaluationServer/EvaluationServer.cs:185-191 | There is one progress line per registered evaluator. |
| Server.ListSpec | samples/ContestEvaluation/EvaluationServer/EvaluationServer.cs:183-192 | The List reply splits on `\n` back into one progress line per evaluator, in registry order. |
| Server.ReadOnlyCommands | samples/ContestEvaluation/EvaluationServer/EvaluationServer.cs:168-197 | Check, List and unknown commands leave the registry unchanged. An unknown command replies "Request is not supported: <cmd>". |
| Server.HandleGuids | samples/ContestEvaluation/EvaluationServer/EvaluationServer.cs:110-200 | An answered request keeps GUIDs distinct and removes none. Only a Start adds one, and only the request's own. |
| Server.Complete | samples/ContestEvaluation/EvaluationServer/EvaluationServer.cs:142-148 | Completion never grows the registry. |
| Server.CompleteSpec | samples/ContestEvaluation/EvaluationServer/EvaluationServer.cs:142-148 | Completion removes exactly that GUID's entry and keeps every other evaluator. |
| Server.ReportSpec | samples/ContestEvaluation/EvaluationServer/Evaluation.cs:99-137 | The evaluation task moves only its own evaluator's counters. |
| Client.Run | samples/ContestEvaluation/EvaluationClient/Program.cs:44-109 | An unparsable recognizer GUID sends nothing for Start, Cancel and Check. Otherwise an unparsable evaluation-service GUID sends nothing. List skips the recognizer check. A sent request is the formatted command. |
| Client.RequestRoundTrip | samples/ContestEvaluation/EvaluationClient/Program.cs:44-56 | For values without `;` or `:`, the server's parser reads back the command, the trimmed GUID and the instance number from the formatted request as it crossed the ASCII channel, with `?` for each non-ASCII character. ASCII requests cross unchanged. |
| Client.WireKeepsAscii | samples/ContestEvaluation/EvaluationClient/Program.cs:56 | The ASCII encoding leaves a text unchanged iff the text is all ASCII. |
| Client.WireFormat | samples/ContestEvaluation/EvaluationClient/Program.cs:44-56 | The request's literal parts and its number cross unchanged. Only the command name and the GUID can change. |
| Client.NoBreakSpaceOnTheWire | samples/ContestEvaluation/EvaluationClient/Program.cs:56 | A GUID with a leading U+00A0 trims to the GUID on the client, but reaches the server as `?` followed by the GUID, which `Trim` keeps. |
| Client.HandleFormatted | samples/ContestEvaluation/EvaluationServer/EvaluationServer.cs:110-131 | Every formatted request reaches the command branches with the command and GUID as they crossed the channel, trimmed. |
| Client.StartEndToEnd | samples/ContestEvaluation/EvaluationClient/Program.cs:73-85 | A Start with valid GUIDs is sent, never raises on the server, and registers the recognizer's GUID as it crossed the channel, trimmed, with the capped count. An ASCII GUID is registered as its own trim. |
| Client.CancelCheckEndToEnd | samples/ContestEvaluation/EvaluationClient/Program.cs:87-103 | Cancel and Check are sent with instance number 0 and reach the server's Cancel and Check for the GUID as it crossed the channel, trimmed. |
| Client.ListEndToEnd | samples/ContestEvaluation/EvaluationClient/Program.cs:105-109 | List sends the empty GUID in an all-ASCII request that crosses unchanged, and gets the registry's progress lines, leaving the registry unchanged. |
| Client.CommandNames | samples/ContestEvaluation/EvaluationServer/EvaluationServer.cs:131-183 | The four command names each select their own branch under the case-insensitive comparison. |
| Strings.SplitJoin | samples/ContestEvaluation/EvaluationServer/EvaluationServer.cs:116 | Splitting a join of separator-free parts gives back the parts. |
| Strings.ToLower | samples/ContestEvaluation/EvaluationServer/Evaluation.cs:170-172 | Lower-casing keeps the length and maps each character on its own: ASCII and Latin-1 capitals to their small letters, everything else to itself. |
| Strings.LatinCapitalsFold | samples/ContestEvaluation/EvaluationServer/Evaluation.cs:170 | `BEYONCÉ` lower-cases to `beyoncé`, and `×` stays as it is. |
| Strings.IntRoundTrip | samples/ContestEvaluation/EvaluationServer/EvaluationServer.cs:133 | `Convert.ToInt32` of an `Int32`'s text gives back the number. |
| Strings.ParseInt32 | samples/ContestEvaluation/OfflineEvaluation/Program.cs:120 | A parsed text is a signed digit string between white space, and all that white space is of the kind `Int32.Parse` skips. |
| Strings.ParseSkipsOnlyNumberWhite | samples/ContestEvaluation/EvaluationServer/EvaluationServer.cs:133 | A leading tab or space is skipped. Other white space that `Trim` would remove, such as U+00A0, makes the number unparsable. |
| TextLines.ReadBackUnbroken | samples/ContestEvaluation/EvaluationServer/Evaluation.cs:145-165 | Lines without breaks, written with `WriteLine` and read with `File.ReadLines`, come back unchanged. |
| TextLines.ReadInnerFeed | samples/ContestEvaluation/EvaluationServer/Evaluation.cs:156-165 | A written line holding a line feed reads back as the two lines around it. |
| TextLines.ReadLinesAppend | samples/ContestEvaluation/EvaluationServer/Evaluation.cs:156-165 | A text ending in a line feed is read on its own, whatever text follows it. |
| Offline.Mode | samples/ContestEvaluation/OfflineEvaluation/Program.cs:129-135 | The expected field count is the most frequent count, with ties going to the count met first. None only for an empty log. |
| Offline.ModeUnique | samples/ContestEvaluation/OfflineEvaluation/Program.cs:225-231 | There is at most one such count. |
| Offline.ValidLinesInOrder | samples/ContestEvaluation/OfflineEvaluation/Program.cs:240-264 | The valid lines are the kept lines' projections, in log order and with repetitions (`Where` then `Select`). |
| Offline.ValidLinesSpec | samples/ContestEvaluation/OfflineEvaluation/Program.cs:240-264 | The valid lines are exactly the `label<TAB>result` projections of the lines with the expected count and a usable result, whose label is present unless distractors count. |
| Offline.LabelPresentWithoutDistractor | samples/ContestEvaluation/OfflineEvaluation/Program.cs:243 | Without distractors, no valid line has an empty label. |
| Offline.CheckLog | samples/ContestEvaluation/OfflineEvaluation/Program.cs:223-273 | CheckLog raises iff the log is empty, the result index is outside the expected count, or the label index is and some line reaches it. Otherwise it reports the raw line count, the mode of the counts, and the kept lines' projections in log order. |
| Offline.LogRows | samples/ContestEvaluation/OfflineEvaluation/Program.cs:28-31 | The rows are exactly the non-empty lines with at least three fields. |
| Offline.LogRowsInOrder | samples/ContestEvaluation/OfflineEvaluation/Program.cs:28-31 | The rows are those of the parsing lines, in log order and with repetitions. |
| Offline.FirstRow | samples/ContestEvaluation/OfflineEvaluation/Program.cs:35-40 | The index found is the first row matching the key, non-error if asked, and None iff there is none. |
| Offline.RepresentativeIndex | samples/ContestEvaluation/OfflineEvaluation/Program.cs:35-40 | The representative is the group's first row with a non-error result when it has one, and its first row otherwise. |
| Offline.RepresentativeUnique | samples/ContestEvaluation/OfflineEvaluation/Program.cs:35-40 | A group has only one representative row. |
| Offline.Representatives | samples/ContestEvaluation/OfflineEvaluation/Program.cs:32-41 | There is one representative per key, in order of first occurrence. Each is its group's first non-error row, or its first row when it has none. |
| Offline.OneRepresentativePerKey | samples/ContestEvaluation/OfflineEvaluation/Program.cs:32-41 | Representative keys are distinct, every row's key has one, and each representative is a row of the log. |
| Offline.GradeRepresentatives | samples/ContestEvaluation/OfflineEvaluation/Program.cs:42-63 | Processed counts every representative, and evaluated counts those with a label. Valid counts the labelled ones without a system error. Top-1 and top-5 count the labelled ones whose result names the label first, or among the first five. |
| Offline.DogICME16Spec | samples/ContestEvaluation/OfflineEvaluation/Program.cs:24-68 | Processed is the number of distinct keys. Evaluated, valid, top-1 and top-5 count the representatives as `GradeRepresentatives` states. valid ≤ evaluated ≤ processed and top1 ≤ top5 ≤ evaluated. |
| Perf.PrecisionCoverage | samples/ContestEvaluation/OfflineEvaluation/Program.cs:80-94 | There is one point per result, and every precision has a positive denominator. |
| Perf.RunningCount | samples/ContestEvaluation/OfflineEvaluation/Program.cs:83-89 | `correct_count` starts from the first result and rises by one exactly at each correct result. It never exceeds i + 1. |
| Perf.LastReaching | samples/ContestEvaluation/OfflineEvaluation/Program.cs:98-99 | The index is the last point whose precision reaches the target, and None iff none does. |
| Perf.OutputPerfSpec | samples/ContestEvaluation/OfflineEvaluation/Program.cs:96-103 | The report is the coverage (k + 1) / total and confidence of the last prefix whose precision reaches the target. With no such prefix it is 0 with no confidence. |
| Celeb.IndexTokensSpec | samples/ContestEvaluation/OfflineEvaluation/Program.cs:112-116 | The columns parse iff the non-empty names are distinct. Each name then maps to its position among all tokens, and nothing else is a column. |
| Celeb.ColumnsCountEmptyTokens | samples/ContestEvaluation/OfflineEvaluation/Program.cs:113-115 | `"a, b"` gives a↦0 and b↦2, because the empty token still takes a position. |
| Celeb.FlagSets | samples/ContestEvaluation/OfflineEvaluation/Program.cs:123-175 | Flag 3 is in both sets, 1 in set 1, 2 in set 2, and 0 in neither. A negative flag counts by its two's-complement bits. |
| Celeb.ReadTruths | samples/ContestEvaluation/OfflineEvaluation/Program.cs:118-121 | The ground truth reads iff every line does, element by element. |
| Celeb.ValidResultsData | samples/ContestEvaluation/OfflineEvaluation/Program.cs:137-172 | The graded lines are exactly the log's lines with the expected count and a usable result, in log order. |
| Celeb.SetTotal | samples/ContestEvaluation/OfflineEvaluation/Program.cs:123-124 | A set total counts exactly the ground-truth rows whose flag has the set's bit. |
| Celeb.Members | samples/ContestEvaluation/OfflineEvaluation/Program.cs:174-175 | A set holds exactly the graded lines whose flag has the set's bit, in log order. Its size is the number of such lines. |
| Celeb.SetCurveRanked | samples/ContestEvaluation/OfflineEvaluation/Program.cs:180-185 | The set is ranked by descending top-1 confidence with ties in log order, as a permutation of the set. |
| Celeb.GradeLog | samples/ContestEvaluation/OfflineEvaluation/Program.cs:123-197 | Each set total counts the ground-truth rows in the set. Each tested count is the number of graded log lines in the set. No curve is reported iff both sets are empty. |
| Celeb.GradeWithConfig | samples/ContestEvaluation/OfflineEvaluation/Program.cs:112-135 | Grading succeeds only with `columns`, `testfile` and `service_name` configured, the ground truth readable beside the configuration, and a non-empty log. No curve iff both sets are empty. |
| Predictor.LabelMap | samples/CaffeHost/Predictor.cs:27-29 | There is one label per line, and no label holds a tab. |
| Predictor.LabelMapLine | samples/CaffeHost/Predictor.cs:27-29 | A line `label<TAB>rest` names its class `label`. |
| Predictor.LabelMapPlainLine | samples/CaffeHost/Predictor.cs:28 | A line without a tab is its own label. |
| Predictor.ThresholdPrefix | samples/CaffeHost/Predictor.cs:40 | On a descending ranking the threshold keeps a prefix, and the next element fails it. |
| Predictor.SelectSpec | samples/CaffeHost/Predictor.cs:38-40 | At most topK entries are kept, each strictly above the threshold. They are in descending score order with ties in ascending index. They form the longest prefix of the ranking within the top K that clears the threshold. |
| Predictor.RankedIsPermutation | samples/CaffeHost/Predictor.cs:38-39 | The ranking holds every class exactly once. |
| Predictor.Format | samples/CaffeHost/Predictor.cs:43 | Formatting fails iff some selected class has no label, and gives the empty string for an empty selection. |
| Predictor.FormatGradesBack | samples/CaffeHost/Predictor.cs:43 | The accuracy pass reads the first five labels back, lower-cased and trimmed, from a formatted prediction. |
| Ranking.SortRanked | samples/CaffeHost/Predictor.cs:38-39 | The stable descending sort orders by key, with ties in their original order. |
| Ranking.SortDescending | samples/CaffeHost/Predictor.cs:39 | The sort's output never increases. |
| CaffeHost.ResolveModelConfig | samples/CaffeHost/CaffeHost.cs:81-94 | The configuration resolves iff it parses and `proto`, `model`, `mean` and `labelmap` are present. A parse failure is reported as such. |
| CaffeHost.ResolvedFromLine | samples/CaffeHost/CaffeHost.cs:71-94 | Each required file is its line's value combined with the configuration's directory. `entityinfo` is set only for a non-empty value. |
| CaffeHost.ValueHasNoColon | samples/CaffeHost/CaffeHost.cs:83-84 | A value stops at the second `:` of its line. |
| Paths.CombineSpec | samples/CaffeHost/CaffeHost.cs:86 | A rooted file replaces the directory, an empty one keeps it, and otherwise the file is appended with at most one separator. |
| Paths.CombineSplit | samples/ContestEvaluation/OfflineEvaluation/Program.cs:118 | Combining a path's directory name with its file name gives back the path. |

## Left out

- Parallelism and threads are sequential here.
  - This covers PLINQ, `Task.Run`, `Interlocked`, the `ConcurrentDictionary`'s atomicity and `ContinueWith`.
  - The evaluator handles rows in dataset order (`AsOrdered`). The token is read as two per-row flags.
  - PLINQ may process rows ahead of the writer. A row further on can then raise before earlier rows are written, or be counted as processed without being logged. `DriveStop`, `DriveLength` and `DriveCounters` describe the sequential schedule only.
  - `Evaluation.TokenIsMonotone` states the order a real token keeps.
- File and console I/O are not modelled.
  - Logs and configurations are sequences of lines.
  - Directory creation, the count-cache file and the writer's buffering are not modelled. The writer lock's 10-minute timeout is a flag.
  - `CheckLog`'s `print` option, the `dump` TSV files of `CelebMM16` and every `Console.WriteLine` are not modelled.
- `CheckLog`'s trial parse of each result is left out. Its failures are caught and only printed, so it does not change the valid lines.
- Base64 decoding is a per-row flag.
- Calls into code outside the model are parameters:
  - `Convert.ToSingle`;
  - `Guid.TryParse`;
  - float formatting of scores, throughput and accuracy.
- Floats are not modelled.
  - Scores and confidences are integers standing for the ordered float values. The missing confidence is `float.MinValue`, kept as its exact integer.
  - Precision, coverage and accuracy are exact fractions. A coverage over a set total of 0 keeps denominator 0 rather than a float infinity.
- `DateTime` values, log-file naming and the Check/List throughput are inputs.
- The remote recognizer call is an oracle of outcomes, and Caffe inference is the input `probs`.
- `Bitmap` decoding, `BufferCache` and the hub registration are not modelled.
- `CaffePredictor.Init` is not modelled in full. It takes three files in `Predictor.cs`, while `CaffeHost.cs` passes six arguments. Only the label-map load is modelled; the model loading is external.
- Paths.DirectoryName: a simplified `Path.GetDirectoryName`, namely the text before the last `\` or `/`. It leaves out root and UNC handling, trailing-separator and path normalisation, and invalid-character checks.
- The registry is a sequence in start order. The `ConcurrentDictionary`'s enumeration order for List is unspecified in .NET, so `ListSpec` speaks of registry order.
- Resume, log re-scan, global retry, back-off, `max_retry`/`max_wait_mins` and config-driven column mapping in the evaluator are not in the code. They are not modelled; the code is followed.
- Evaluation.Summarize: states only when a summary line exists. The line's seven fields are stated by `SummaryFields`, and float division by zero when nothing is labelled is not modelled.
- Celeb.GradeWithConfig: states the success conditions and the curve-or-nothing rule. The per-set figures are stated by `Members`, `SetCurveRanked`, `ValidResultsData` and `Perf.OutputPerfSpec`, rather than again for the whole run.
- Evaluation.AccuracyOfOwnLog: states the line-for-line read-back and the absence of a raise only when no final result and no timestamp holds a line break. A reply with an inner line break splits its log line in two, and the accuracy pass can then raise (`BrokenReplyFailsAccuracy`).
- Evaluation.DriveFlushes: covers the flushes inside the writing loop. The flush made when the `using` block disposes the writer (Evaluation.cs line 160) is not modelled.
- Celeb.GradeLog: states the set totals, the tested counts and when a curve exists. The curves themselves are stated per set by `Celeb.SetCurveRanked` and `Perf.OutputPerfSpec`, not again for the whole run.
- Grading.CheckAgainst: compares ordinally, and so does `Celeb.GradeLine`, which uses it. The source decides top-1 with the culture-sensitive `string.Compare` and top-5 with the ordinal `Array.IndexOf`. Under a culture that ignores some characters, a top-1 hit there need not be a top-5 hit, so "top-1 implies top-5" holds for ordinal comparison only.
- Grading.Grade: same ordinal comparison as `CheckAgainst`. `ToLower` lower-cases the ASCII and Latin-1 capitals only. Other scripts and culture-specific mappings are left out.
- Grading.IsSystemError: an ordinal prefix test. The source's `StartsWith` is culture-sensitive, which differs only for texts holding characters the culture ignores.
- Grading.IsSaturated: an ordinal substring test. The source's `IndexOf(string)` is culture-sensitive, so a reply such as `return 0` + U+00AD + `B.` counts as saturated there and not here.
- Server.Dispatch: matches command names with the ASCII and Latin-1 lower-casing. The source's `string.Compare(cmd, …, true)` uses the current culture. It ignores characters such as U+00AD, and under the Turkish culture `LIST` does not match `List`.
- KeyValue.IsContentLine: an ordinal `#` prefix test. The source's `StartsWith("#")` is culture-sensitive and skips ignorable characters before the `#`.
- KeyValue.ParsePairsSpec: keys collide when they agree after `Strings.ToLower`, not under `OrdinalIgnoreCase`. On ASCII and Latin-1 keys the two agree. Keys such as `Σ`/`σ` or `Ÿ`/`ÿ` are a duplicate in the source, which then answers "Invalid request." or fails to read the configuration. The model keeps them apart. This applies equally to `KeyValue.ParseConfigSpec` and `Server.InvalidRequestSpec`. A full Unicode case table is out of scope.
- KeyValue.ParseConfigSpec: the same key folding as `ParsePairsSpec`, and the ordinal comment test of `IsContentLine`.
- Server.InvalidRequestSpec: the same key folding as `ParsePairsSpec`, so keys that collide only under `OrdinalIgnoreCase` do not make an invalid request here.
- Strings.ToLower: covers the ASCII and Latin-1 capitals only. The source's `ToLower()` and `OrdinalIgnoreCase` map every script, and `ToLower()` follows the current culture.
- Client.RequestRoundTrip: the channel is modelled per character. `Encoding.ASCII.GetBytes` writes `?` for each character outside ASCII. `Encoding.Default` is taken to read ASCII bytes back unchanged, which holds of every ANSI code page and of UTF-8. The hub transport in between is not modelled.
