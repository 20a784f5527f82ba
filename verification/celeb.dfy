/** The `CelebMM16` grading task of the offline evaluation tool: a configuration names the
    log's columns and the ground-truth file; ground-truth rows carry a flag whose
    bit 0 puts them in set 1 and bit 1 in set 2; usable log lines are graded, each
    set is ranked by top-1 confidence and its precision/coverage curve reported. */
module Celeb {
  import opened Wrappers
  import opened Strings
  import opened Seqs
  import opened KeyValue
  import opened Paths
  import opened Grading
  import opened Ranking
  import opened Perf
  import Offline

  /** Separators of the `columns` configuration value. */
  const ColumnSeps: set<char> := {' ', ';', ','}

  /** `float.MinValue`, the confidence of an unparsable score. */
  const MinConfidence: int := -340282346638528859811704183484516925440

  datatype Fault =
    | BadConfig(cause: KvError)        // the configuration's `ToDictionary` raised
    | MissingConfigKey(key: string)    // `config[key]` raised
    | DuplicateColumn(name: string)    // the column dictionary's `ToDictionary` raised
    | MissingColumn(name: string)      // `columns[name]` raised
    | MissingFile(path: string)        // the ground-truth file could not be read
    | FieldOutOfRange(index: nat)      // `cols[index]` raised
    | BadFlag(text: string)            // `Convert.ToInt32` raised
    | EmptyLog                         // `First()` on an empty log

  // ------------------------------------------------------------ columns

  /** Names each non-empty trimmed token by its position among ALL tokens, the empty
      ones included; a repeated name raises. */
  function IndexTokens(tokens: seq<string>): (r: Result<map<string, nat>, Fault>)
  {
    if |tokens| == 0 then Ok(map[])
    else
      match IndexTokens(tokens[..|tokens| - 1])
      case Err(e) => Err(e)
      case Ok(m) =>
        var name := Trim(tokens[|tokens| - 1]);
        if name == "" then Ok(m)
        else if name in m then Err(DuplicateColumn(name))
        else Ok(m[name := |tokens| - 1])
  }

  /** `config["columns"].Split(' ', ';', ',').Select((col, idx) => (col.Trim(), idx))
      .Where(name != "").ToDictionary(...)` */
  function ParseColumns(text: string): Result<map<string, nat>, Fault> {
    IndexTokens(SplitAny(text, ColumnSeps))
  }

  /** The non-empty trimmed tokens are pairwise distinct. */
  predicate DistinctNames(tokens: seq<string>) {
    forall i, j :: 0 <= i < j < |tokens| && Trim(tokens[i]) != "" ==> Trim(tokens[i]) != Trim(tokens[j])
  }

  /** The columns parse exactly when the names are distinct; then each name maps to
      its token position, and nothing else is a column. */
  lemma {:induction false} IndexTokensSpec(tokens: seq<string>)
    ensures IndexTokens(tokens).Ok? <==> DistinctNames(tokens)
    ensures IndexTokens(tokens).Ok? ==> forall i :: 0 <= i < |tokens| && Trim(tokens[i]) != "" ==>
              Trim(tokens[i]) in IndexTokens(tokens).value && IndexTokens(tokens).value[Trim(tokens[i])] == i
    ensures IndexTokens(tokens).Ok? ==> forall name :: name in IndexTokens(tokens).value ==>
              var i := IndexTokens(tokens).value[name]; i < |tokens| && Trim(tokens[i]) == name != ""
  {
    if |tokens| > 0 {
      var init := tokens[..|tokens| - 1];
      var n := |tokens| - 1;
      IndexTokensSpec(init);
      assert forall i :: 0 <= i < n ==> init[i] == tokens[i];
      var name := Trim(tokens[n]);
      if IndexTokens(init).Ok? {
        var m := IndexTokens(init).value;
        if name != "" && name in m {
          assert Trim(tokens[m[name]]) == Trim(tokens[n]);
        }
      }
      if DistinctNames(tokens) {
        assert DistinctNames(init);
      }
    }
  }

  /** `"a, b"` splits into three tokens, the middle one empty. */
  lemma SplitColumnsExample()
    ensures SplitAny("a, b", ColumnSeps) == ["a", "", "b"]
  {
    var s := "a, b";
    var b: string := "b";
    var sb: string := " b";
    var csb: string := ", b";
    assert s == ['a'] + csb && csb == [','] + sb && sb == [' '] + b && b == ['b'] + [];
    assert s[1..] == csb && csb[1..] == sb && sb[1..] == b && b[1..] == [];
    assert 'b' !in ColumnSeps && 'a' !in ColumnSeps && ' ' in ColumnSeps && ',' in ColumnSeps;
    assert SplitAny([], ColumnSeps) == [""];
    assert SplitAny(b, ColumnSeps) == [['b'] + ""];
    assert SplitAny(sb, ColumnSeps) == ["", "b"];
    var rest := SplitAny(csb, ColumnSeps);
    assert rest == ["", "", "b"];
    assert SplitAny(s, ColumnSeps) == [['a'] + rest[0]] + rest[1..];
    assert ['a'] + rest[0] == "a" && rest[1..] == ["", "b"];
  }

  /** The positional quirk: `"a, b"` names `b` column 2, because the empty token
      between `,` and ` ` still takes a position. */
  lemma ColumnsCountEmptyTokens()
    ensures ParseColumns("a, b") == Ok(map["a" := 0, "b" := 2])
  {
    SplitColumnsExample();
    var tokens: seq<string> := ["a", "", "b"];
    assert Trim("a") == "a" && Trim("") == "" && Trim("b") == "b";
    assert tokens[..2] == ["a", ""] && tokens[..2][..1] == ["a"] && ["a"][..0] == [];
    assert IndexTokens(["a"]) == Ok(map["a" := 0]);
    assert IndexTokens(["a", ""]) == Ok(map["a" := 0]);
  }

  // ------------------------------------------------------------ flags

  function Pow2(k: nat): (p: nat)
    ensures p >= 1
  {
    if k == 0 then 1 else 2 * Pow2(k - 1)
  }

  /** Bit `bit` of the 32-bit two's-complement form of `flag`: `(flag & (1 << bit)) > 0`. */
  predicate FlagBit(flag: Int32, bit: nat)
    requires bit < 32
  {
    ((flag % 0x1_0000_0000) / Pow2(bit)) % 2 == 1
  }

  /** Set 1 (hard) is bit 0 and set 2 (random) is bit 1. */
  const Set1Bit: nat := 0
  const Set2Bit: nat := 1

  /** A row may belong to both sets, to one, or to none. */
  lemma FlagSets()
    ensures FlagBit(3, Set1Bit) && FlagBit(3, Set2Bit)
    ensures FlagBit(1, Set1Bit) && !FlagBit(1, Set2Bit)
    ensures !FlagBit(2, Set1Bit) && FlagBit(2, Set2Bit)
    ensures !FlagBit(0, Set1Bit) && !FlagBit(0, Set2Bit)
    ensures FlagBit(-1, Set1Bit) && FlagBit(-1, Set2Bit)
  {
  }

  // ------------------------------------------------------------ ground truth

  datatype GroundTruth = GroundTruth(truth: string, flag: Int32)

  function Column(columns: map<string, nat>, name: string): Result<nat, Fault> {
    if name in columns then Ok(columns[name]) else Err(MissingColumn(name))
  }

  function Field(cols: seq<string>, index: nat): Result<string, Fault> {
    if index < |cols| then Ok(cols[index]) else Err(FieldOutOfRange(index))
  }

  /** `Convert.ToInt32(cols[columns["flag"]])` */
  function ReadFlag(cols: seq<string>, columns: map<string, nat>): Result<Int32, Fault> {
    match Column(columns, "flag")
    case Err(e) => Err(e)
    case Ok(k) =>
      match Field(cols, k)
      case Err(e) => Err(e)
      case Ok(text) =>
        match ParseInt32(text)
        case None => Err(BadFlag(text))
        case Some(flag) => Ok(flag)
  }

  /** `(cols[columns["label"]], Convert.ToInt32(cols[columns["flag"]]))` */
  function ReadTruth(line: string, columns: map<string, nat>): Result<GroundTruth, Fault> {
    var cols := Offline.Fields(line);
    match Column(columns, "label")
    case Err(e) => Err(e)
    case Ok(k) =>
      match Field(cols, k)
      case Err(e) => Err(e)
      case Ok(truth) =>
        match ReadFlag(cols, columns)
        case Err(e) => Err(e)
        case Ok(flag) => Ok(GroundTruth(truth, flag))
  }

  /** Every ground-truth line is read; the first line that fails decides the error. */
  function ReadTruths(lines: seq<string>, columns: map<string, nat>): (r: Result<seq<GroundTruth>, Fault>)
    ensures r.Ok? <==> forall i :: 0 <= i < |lines| ==> ReadTruth(lines[i], columns).Ok?
    ensures r.Ok? ==> |r.value| == |lines| && forall i :: 0 <= i < |lines| ==> ReadTruth(lines[i], columns) == Ok(r.value[i])
  {
    if |lines| == 0 then Ok([])
    else
      TailIndices(lines);
      match ReadTruth(lines[0], columns)
      case Err(e) => Err(e)
      case Ok(t) =>
        match ReadTruths(lines[1..], columns)
        case Err(e) => Err(e)
        case Ok(ts) => Ok([t] + ts)
  }

  lemma TailIndices(lines: seq<string>)
    requires |lines| > 0
    ensures forall i :: 1 <= i < |lines| ==> lines[1..][i - 1] == lines[i]
  {
  }

  function TruthFlagBit(t: GroundTruth, bit: nat): bool
    requires bit < 32
  {
    FlagBit(t.flag, bit)
  }

  /** Membership of a ground-truth row in the set of `bit`. */
  function InSet(bit: nat): GroundTruth -> bool {
    (t: GroundTruth) => bit < 32 && FlagBit(t.flag, bit)
  }

  /** Membership of a graded line in the set of `bit`. */
  function GradedInSet(bit: nat): Graded -> bool {
    (g: Graded) => bit < 32 && FlagBit(g.flag, bit)
  }

  /** Number of ground-truth rows in the set of `bit`
      (`label_flags.Where(x => (x.Item2 & mask) > 0).Count()`). */
  function SetTotal(truths: seq<GroundTruth>, bit: nat): (n: nat)
    requires bit < 32
    ensures n == CountIf(truths, InSet(bit))
    ensures n <= |truths|
  {
    if |truths| == 0 then 0
    else SetTotal(truths[..|truths| - 1], bit) + (if FlagBit(truths[|truths| - 1].flag, bit) then 1 else 0)
  }

  // ------------------------------------------------------------ graded log lines

  /** One recognised candidate: lower-cased name and confidence. */
  datatype Candidate = Candidate(name: string, conf: int)

  /** `r.Trim().Split(':')` with at least two parts: name from part 0, confidence from
      part 1 (`Convert.ToSingle`, or `float.MinValue` when that raises). */
  function Recognise(segment: string, toSingle: string -> Option<int>): Option<Candidate> {
    var parts := Split(Trim(segment), ':');
    if |parts| < 2 then None
    else
      var conf := match toSingle(Trim(parts[1])) case Some(c) => c case None => MinConfidence;
      Some(Candidate(ToLower(Trim(parts[0])), conf))
  }

  /** The recognised candidates of the segments, in order. */
  function RecogniseAll(segments: seq<string>, toSingle: string -> Option<int>): (cs: seq<Candidate>)
    ensures |cs| <= |segments|
  {
    if |segments| == 0 then []
    else
      var rest := RecogniseAll(segments[1..], toSingle);
      match Recognise(segments[0], toSingle)
      case None => rest
      case Some(c) => [c] + rest
  }

  predicate NonEmpty(s: string) { s != "" }

  /** `result.Split(';', RemoveEmptyEntries)`, recognised, first five. */
  function Recognition(result: string, toSingle: string -> Option<int>): (cs: seq<Candidate>)
    ensures |cs| <= MaxCandidates
  {
    Take(RecogniseAll(Filter(Split(result, ';'), NonEmpty), toSingle), MaxCandidates)
  }

  function NameOf(c: Candidate): string { c.name }
  function ConfOf(c: Candidate): int { c.conf }

  /** A graded log line. */
  datatype Graded = Graded(truth: string, flag: Int32, result: string, check: Check, conf: seq<int>)

  /** The `Select` of lines 142-171, for a line whose result field is `data`. */
  function GradeLine(cols: seq<string>, data: string, columns: map<string, nat>,
                     toSingle: string -> Option<int>): (r: Result<Graded, Fault>)
    ensures r.Ok? ==> r.value.check.top1 ==> r.value.check.top5
    ensures r.Ok? ==> |r.value.conf| <= MaxCandidates && r.value.result == data
  {
    match Column(columns, "label")
    case Err(e) => Err(e)
    case Ok(k) =>
      match Field(cols, k)
      case Err(e) => Err(e)
      case Ok(truth) =>
        var recog := Recognition(data, toSingle);
        var check := CheckAgainst(ToLower(truth), Map(recog, NameOf));
        match ReadFlag(cols, columns)
        case Err(e) => Err(e)
        case Ok(flag) => Ok(Graded(ToLower(truth), flag, data, check, Map(recog, ConfOf)))
  }

  /** Lines with the expected field count and a usable result, graded in log order;
      the first line that fails decides the error. */
  function ValidResults(lines: seq<string>, expected: int, columns: map<string, nat>,
                        toSingle: string -> Option<int>): (r: Result<seq<Graded>, Fault>)
    ensures r.Ok? ==> |r.value| <= |lines|
  {
    if |lines| == 0 then Ok([])
    else
      var cols := Offline.Fields(lines[0]);
      if |cols| != expected then ValidResults(lines[1..], expected, columns, toSingle)
      else
        match Column(columns, "imagedata")
        case Err(e) => Err(e)
        case Ok(k) =>
          match Field(cols, k)
          case Err(e) => Err(e)
          case Ok(data) =>
            if !Offline.UsableResult(data) then ValidResults(lines[1..], expected, columns, toSingle)
            else
              match GradeLine(cols, data, columns, toSingle)
              case Err(e) => Err(e)
              case Ok(g) =>
                match ValidResults(lines[1..], expected, columns, toSingle)
                case Err(e) => Err(e)
                case Ok(gs) => Ok([g] + gs)
  }

  /** The result fields of the lines that have `expected` fields and a usable result
      in column `dataCol`, in log order. */
  function IntactData(lines: seq<string>, expected: int, dataCol: nat): (d: seq<string>)
    ensures |d| <= |lines|
  {
    if |lines| == 0 then []
    else
      var cols := Offline.Fields(lines[0]);
      var rest := IntactData(lines[1..], expected, dataCol);
      if |cols| == expected && dataCol < |cols| && Offline.UsableResult(cols[dataCol]) then [cols[dataCol]] + rest
      else rest
  }

  function ResultOf(g: Graded): string { g.result }

  /** When the log grades, its graded lines are exactly its intact lines with a usable
      result, in log order: none is dropped, none added, none reordered. */
  lemma {:induction false} ValidResultsData(lines: seq<string>, expected: int, columns: map<string, nat>,
                                            toSingle: string -> Option<int>)
    requires ValidResults(lines, expected, columns, toSingle).Ok? && "imagedata" in columns
    ensures Map(ValidResults(lines, expected, columns, toSingle).value, ResultOf)
            == IntactData(lines, expected, columns["imagedata"])
  {
    if |lines| > 0 {
      var dataCol := columns["imagedata"];
      var r := ValidResults(lines, expected, columns, toSingle);
      var rest := ValidResults(lines[1..], expected, columns, toSingle);
      var cols := Offline.Fields(lines[0]);
      ValidResultsStep(lines, expected, columns, toSingle);
      ValidResultsData(lines[1..], expected, columns, toSingle);
      if |cols| == expected && Offline.UsableResult(cols[dataCol]) {
        MapCons(r.value, ResultOf);
      }
    }
  }

  /** One step of `ValidResults`: a line that is not intact is skipped; an intact one
      contributes its graded form ahead of the rest. */
  lemma ValidResultsStep(lines: seq<string>, expected: int, columns: map<string, nat>,
                         toSingle: string -> Option<int>)
    requires |lines| > 0 && "imagedata" in columns
    requires ValidResults(lines, expected, columns, toSingle).Ok?
    ensures ValidResults(lines[1..], expected, columns, toSingle).Ok?
    ensures var cols, dataCol := Offline.Fields(lines[0]), columns["imagedata"];
            var r, rest := ValidResults(lines, expected, columns, toSingle), ValidResults(lines[1..], expected, columns, toSingle);
            if |cols| == expected && Offline.UsableResult(cols[dataCol])
            then |r.value| == 1 + |rest.value| && r.value[0].result == cols[dataCol] && r.value[1..] == rest.value
            else r == rest
  {
  }

  // ------------------------------------------------------------ sets and curves

  /** A graded line with its position among the graded lines, for the stable ranking. */
  datatype Entry = Entry(pos: nat, graded: Graded)

  function PosOf(e: Entry): int { e.pos }

  /** The top-1 confidence: that of the first candidate, or `float.MinValue`. */
  function TopConf(e: Entry): int {
    if |e.graded.conf| == 0 then MinConfidence else e.graded.conf[0]
  }

  /** The graded lines whose flag has `bit`, tagged with their positions. */
  function Members(valid: seq<Graded>, bit: nat): (s: seq<Entry>)
    requires bit < 32
    ensures |s| == CountIf(valid, GradedInSet(bit))
    ensures forall k :: 0 <= k < |s| ==> s[k].pos < |valid| && s[k].graded == valid[s[k].pos] && FlagBit(s[k].graded.flag, bit)
    ensures forall i :: 0 <= i < |valid| && FlagBit(valid[i].flag, bit) ==> Entry(i, valid[i]) in s
    ensures Ascending(s, PosOf)
  {
    if |valid| == 0 then []
    else
      var n := |valid| - 1;
      var prev := Members(valid[..n], bit);
      if FlagBit(valid[n].flag, bit) then
        var s := prev + [Entry(n, valid[n])];
        assert forall k :: 0 <= k < |prev| ==> s[k] == prev[k];
        assert s[|prev|].pos == n;
        s
      else prev
  }

  function CheckOf(e: Entry): bool { e.graded.check.top1 }

  /** One set's curve and the coverage reported at precision 0.95 and 0.99. */
  datatype SetPerf = SetPerf(points: seq<Point>, at95: Reported, at99: Reported)

  /** Ranks the set by descending top-1 confidence and walks it against `total`. */
  function SetCurve(members: seq<Entry>, total: int): (p: SetPerf)
    ensures |p.points| == |members|
  {
    var ranked := SortDesc(members, TopConf);
    var points := PrecisionCoverage(Map(ranked, CheckOf), Map(ranked, TopConf), total);
    SetPerf(points, OutputPerf(points, Target95), OutputPerf(points, Target99))
  }

  /** The set is ranked by descending top-1 confidence, ties in log order. */
  lemma SetCurveRanked(members: seq<Entry>)
    requires Ascending(members, PosOf)
    ensures RankedBy(SortDesc(members, TopConf), TopConf, PosOf)
    ensures multiset(SortDesc(members, TopConf)) == multiset(members)
  {
    SortRanked(members, TopConf, PosOf);
  }

  datatype CelebReport = CelebReport(service: string, set1Total: nat, set2Total: nat,
                                     set1Tested: nat, set2Tested: nat, perf: Option<(SetPerf, SetPerf)>)

  function ConfigValue(config: Dict, key: string): Result<string, Fault> {
    match Lookup(config, key)
    case None => Err(MissingConfigKey(key))
    case Some(v) => Ok(v)
  }

  /** Everything after the ground truth is loaded: the log's grading. */
  function GradeLog(service: string, truths: seq<GroundTruth>, logLines: seq<string>,
                    columns: map<string, nat>, toSingle: string -> Option<int>): (r: Result<CelebReport, Fault>)
    ensures r.Ok? ==> r.value.set1Total == CountIf(truths, InSet(Set1Bit))
                      && r.value.set2Total == CountIf(truths, InSet(Set2Bit))
    ensures r.Ok? ==> && Offline.ExpectedFieldCount(logLines).Some?
                      && var valid := ValidResults(logLines, Offline.ExpectedFieldCount(logLines).value, columns, toSingle);
                         && valid.Ok?
                         && r.value.set1Tested == CountIf(valid.value, GradedInSet(Set1Bit))
                         && r.value.set2Tested == CountIf(valid.value, GradedInSet(Set2Bit))
    ensures r.Ok? ==> r.value.set1Total <= |truths| && r.value.set2Total <= |truths|
    ensures r.Ok? ==> r.value.set1Tested <= |logLines| && r.value.set2Tested <= |logLines|
    ensures r.Ok? ==> (r.value.perf.None? <==> r.value.set1Tested == 0 && r.value.set2Tested == 0)
  {
    match Offline.ExpectedFieldCount(logLines)
    case None => Err(EmptyLog)
    case Some(expected) =>
      match ValidResults(logLines, expected, columns, toSingle)
      case Err(e) => Err(e)
      case Ok(valid) =>
        var set1 := Members(valid, Set1Bit);
        var set2 := Members(valid, Set2Bit);
        var total1 := SetTotal(truths, Set1Bit);
        var total2 := SetTotal(truths, Set2Bit);
        var perf := if |set1| == 0 && |set2| == 0 then None
                    else Some((SetCurve(set1, total1), SetCurve(set2, total2)));
        Ok(CelebReport(service, total1, total2, |set1|, |set2|, perf))
  }

  /** `CelebMM16` once its configuration `config` is read: the column names, the
      ground truth beside the configuration file, the service name, then the log. */
  function GradeWithConfig(configPath: string, config: Dict, files: map<string, seq<string>>,
                           logLines: seq<string>, toSingle: string -> Option<int>): (r: Result<CelebReport, Fault>)
    ensures r.Ok? ==> && Lookup(config, "columns").Some?
                      && Lookup(config, "testfile").Some?
                      && Combine(DirectoryName(configPath), Lookup(config, "testfile").value) in files
                      && Lookup(config, "service_name") == Some(r.value.service)
                      && |logLines| > 0
    ensures r.Ok? ==> (r.value.perf.None? <==> r.value.set1Tested == 0 && r.value.set2Tested == 0)
  {
    match ConfigValue(config, "columns")
    case Err(e) => Err(e)
    case Ok(text) =>
      match ParseColumns(text)
      case Err(e) => Err(e)
      case Ok(columns) =>
        match ConfigValue(config, "testfile")
        case Err(e) => Err(e)
        case Ok(testfile) =>
          var path := Combine(DirectoryName(configPath), testfile);
          if path !in files then Err(MissingFile(path))
          else
            match ReadTruths(files[path], columns)
            case Err(e) => Err(e)
            case Ok(truths) =>
              match ConfigValue(config, "service_name")
              case Err(e) => Err(e)
              case Ok(service) => GradeLog(service, truths, logLines, columns, toSingle)
  }

  /** `CelebMM16` for the configuration at `configPath`; `files` holds the readable
      files by path and `toSingle` is `Convert.ToSingle`. */
  function CelebMM16(configPath: string, configLines: seq<string>, files: map<string, seq<string>>,
                     logLines: seq<string>, toSingle: string -> Option<int>): (r: Result<CelebReport, Fault>)
    ensures ParseConfig(configLines).Err? ==> r == Err(BadConfig(ParseConfig(configLines).error))
    ensures ParseConfig(configLines).Ok? ==>
              r == GradeWithConfig(configPath, ParseConfig(configLines).value, files, logLines, toSingle)
  {
    match ParseConfig(configLines)
    case Err(e) => Err(BadConfig(e))
    case Ok(config) => GradeWithConfig(configPath, config, files, logLines, toSingle)
  }
}
