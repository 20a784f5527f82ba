/** The command-line client of the evaluation service: each command becomes one
    request text `cmd:{0};serviceGuid:{1};instanceNum:{2}` sent to the evaluation
    service, after the GUIDs given on the command line have been checked.

    `Guid.TryParse` is an input (`isGuid`); every GUID text it accepts is assumed free
    of `;` and `:`, which holds of all .NET GUID formats. */
module Client {
  import opened Wrappers
  import opened Strings
  import opened KeyValue
  import Server

  /** Start asks for at most this many recognizer instances. */
  const MaxInstances: int := 20
  /** `Guid.Empty.ToString()` */
  const EmptyGuid: string := "00000000-0000-0000-0000-000000000000"

  datatype Command =
    | Start(recog: string, numInstances: int)
    | Cancel(recog: string)
    | Check(recog: string)
    | List

  /** What the client does: send a request, or print one of its two GUID errors. */
  datatype Outcome = Sent(request: string) | InvalidRecognizerGuid | InvalidEvaluationGuid

  /** `string.Format(_cmdFormat, cmd, guid, n)` */
  function FormatRequest(cmd: string, guid: string, n: int): string {
    "cmd:" + cmd + ";serviceGuid:" + guid + ";instanceNum:" + IntToString(n)
  }

  /** Start caps the number of instances at 20; smaller numbers, zero and negative
      ones included, pass unchanged. */
  function Clamp(n: int): (m: int)
    ensures m <= MaxInstances
    ensures n <= MaxInstances ==> m == n
    ensures n > MaxInstances ==> m == MaxInstances
  {
    if n > MaxInstances then MaxInstances else n
  }

  /** The command name, GUID and instance number a command puts in its request. */
  function Fields(c: Command): (string, string, int) {
    match c
    case Start(g, n) => ("Start", g, Clamp(n))
    case Cancel(g) => ("Cancel", g, 0)
    case Check(g) => ("Check", g, 0)
    case List => ("List", EmptyGuid, 0)
  }

  /** Runs a command: Start, Cancel and Check check the recognizer GUID, then
      `EvalCommand` checks the evaluation service's GUID; List checks only the
      latter. */
  function Run(c: Command, evalGuid: string, isGuid: string -> bool): (o: Outcome)
    ensures o.InvalidRecognizerGuid? <==> !c.List? && !isGuid(c.recog)
    ensures o.InvalidEvaluationGuid? <==> (c.List? || isGuid(c.recog)) && !isGuid(evalGuid)
    ensures o.Sent? ==> o.request == FormatRequest(Fields(c).0, Fields(c).1, Fields(c).2)
  {
    if !c.List? && !isGuid(c.recog) then InvalidRecognizerGuid
    else if !isGuid(evalGuid) then InvalidEvaluationGuid
    else
      var (cmd, g, n) := Fields(c);
      Sent(FormatRequest(cmd, g, n))
  }

  // ---------------------------------------------------------------- the channel

  /** The client sends `Encoding.ASCII.GetBytes(request)`, which writes `?` for every
      character outside ASCII; the server decodes the bytes with `Encoding.Default`,
      which reads ASCII bytes back unchanged. */
  function WireChar(c: char): char {
    if c < '\U{80}' then c else '?'
  }

  predicate IsAscii(s: string) {
    forall k :: 0 <= k < |s| ==> s[k] < '\U{80}'
  }

  /** The request text the server sees for the text the client formats. */
  function Wire(s: string): (t: string)
    ensures |t| == |s| && IsAscii(t)
    ensures forall k :: 0 <= k < |s| ==> (t[k] == s[k] <==> s[k] < '\U{80}')
  {
    seq(|s|, k requires 0 <= k < |s| => WireChar(s[k]))
  }

  /** The channel changes a text exactly when the text is not plain ASCII. */
  lemma WireKeepsAscii(s: string)
    ensures Wire(s) == s <==> IsAscii(s)
  {
    if IsAscii(s) {
      assert forall k :: 0 <= k < |s| ==> Wire(s)[k] == s[k];
    }
  }

  lemma WireAppend(a: string, b: string)
    ensures Wire(a + b) == Wire(a) + Wire(b)
  {
    assert forall k :: 0 <= k < |a + b| ==> Wire(a + b)[k] == (Wire(a) + Wire(b))[k];
  }

  /** The channel keeps a text free of `;` and `:`. */
  lemma WirePlain(s: string)
    requires ':' !in s && ';' !in s
    ensures ':' !in Wire(s) && ';' !in Wire(s)
  {
    forall k | 0 <= k < |s|
      ensures Wire(s)[k] != ':' && Wire(s)[k] != ';'
    {
      assert s[k] in s;
    }
  }

  lemma IntTextIsAscii(n: int)
    ensures IsAscii(IntToString(n))
  {
    var s := IntToString(n);
    assert forall k :: 0 <= k < |s| ==> IsDigit(s[k]) || s[k] == '-';
  }

  /** The request's literal parts and its number cross the channel unchanged; only the
      command name and the GUID can change. */
  lemma WireFormat(cmd: string, g: string, n: int)
    ensures Wire(FormatRequest(cmd, g, n)) == FormatRequest(Wire(cmd), Wire(g), n)
  {
    var num := IntToString(n);
    IntTextIsAscii(n);
    WireKeepsAscii(num);
    WireLiterals();
    var a1 := "cmd:" + cmd;
    WireAppend("cmd:", cmd);
    var a2 := a1 + ";serviceGuid:";
    WireAppend(a1, ";serviceGuid:");
    var a3 := a2 + g;
    WireAppend(a2, g);
    var a4 := a3 + ";instanceNum:";
    WireAppend(a3, ";instanceNum:");
    WireAppend(a4, num);
    assert Wire(a4 + num) == "cmd:" + Wire(cmd) + ";serviceGuid:" + Wire(g) + ";instanceNum:" + num;
  }

  lemma WireLiterals()
    ensures Wire("cmd:") == "cmd:" && Wire(";serviceGuid:") == ";serviceGuid:"
    ensures Wire(";instanceNum:") == ";instanceNum:"
  {
    WireKeepsAscii("cmd:");
    WireKeepsAscii(";serviceGuid:");
    WireKeepsAscii(";instanceNum:");
  }

  /** A GUID text with a leading no-break space passes `Guid.TryParse`, which trims it,
      but reaches the server as `?` followed by the GUID, which `Trim` keeps. */
  lemma NoBreakSpaceOnTheWire(g: string)
    requires |g| > 0 && IsAscii(g) && IsTrimmed(g)
    ensures Trim(['\U{A0}'] + g) == g
    ensures Wire(['\U{A0}'] + g) == ['?'] + g
    ensures Trim(Wire(['\U{A0}'] + g)) == ['?'] + g
  {
    var s := ['\U{A0}'] + g;
    assert s[1..] == g;
    assert TrimStart(s) == TrimStart(g);
    TrimTrimmed(g);
    WireAppend(['\U{A0}'], g);
    WireKeepsAscii(g);
    assert Wire(['\U{A0}']) == ['?'];
    var t := ['?'] + g;
    assert t[|t| - 1] == g[|g| - 1];
    TrimTrimmed(t);
  }

  // ---------------------------------------------------------------- round trip

  /** A `key:value` segment whose parts hold no `:` parses to the trimmed parts. */
  lemma PairSegment(k: string, v: string)
    requires ':' !in k && ':' !in v
    ensures HasValue(k + ":" + v)
    ensures Key(k + ":" + v) == Trim(k) && Value(k + ":" + v) == Trim(v)
  {
    assert Join([k, v], ":") == k + ":" + v;
    SplitJoin([k, v], ':');
  }

  lemma IntTextIsPlain(n: int)
    ensures ':' !in IntToString(n) && ';' !in IntToString(n)
  {
    var s := IntToString(n);
    assert forall k :: 0 <= k < |s| ==> IsDigit(s[k]) || s[k] == '-';
  }

  /** The server's parser reads back what the client formats, as it crosses the
      channel: the command name and the trimmed GUID with `?` for every character
      outside ASCII, and the instance number. */
  lemma RequestRoundTrip(cmd: string, g: string, n: int)
    requires ':' !in cmd && ';' !in cmd && ':' !in g && ';' !in g
    requires Int32Min <= n <= Int32Max
    ensures var p := Server.ParseRequest(Wire(FormatRequest(cmd, g, n)));
      && p.Ok?
      && Lookup(p.value, "cmd") == Some(Trim(Wire(cmd)))
      && Lookup(p.value, "serviceGuid") == Some(Trim(Wire(g)))
      && Lookup(p.value, "instanceNum") == Some(IntToString(n))
      && ParseInt32(IntToString(n)) == Some(n)
    ensures IsAscii(cmd) && IsAscii(g) ==> Wire(FormatRequest(cmd, g, n)) == FormatRequest(cmd, g, n)
  {
    WireFormat(cmd, g, n);
    WirePlain(cmd);
    WirePlain(g);
    ParseFormatted(Wire(cmd), Wire(g), n);
    FoldedKeys();
    IntRoundTrip(n);
    WireKeepsAscii(cmd);
    WireKeepsAscii(g);
  }

  lemma ParseFormatted(cmd: string, g: string, n: int)
    requires ':' !in cmd && ';' !in cmd && ':' !in g && ';' !in g
    ensures Server.ParseRequest(FormatRequest(cmd, g, n))
            == Ok(map["cmd" := Trim(cmd), "serviceguid" := Trim(g), "instancenum" := IntToString(n)])
  {
    var num := IntToString(n);
    IntTextIsPlain(n);
    SplitRequest(cmd, g, n);
    var s1, s2, s3 := "cmd" + ":" + cmd, "serviceGuid" + ":" + g, "instanceNum" + ":" + num;
    SegmentParts("cmd", cmd);
    SegmentParts("serviceGuid", g);
    SegmentParts("instanceNum", num);
    FoldedKeys();
    IntTextTrimmed(n);
    ThreePairs(s1, s2, s3);
  }

  /** The request splits on `;` into its three segments. */
  lemma SplitRequest(cmd: string, g: string, n: int)
    requires ';' !in cmd && ';' !in g
    ensures Split(FormatRequest(cmd, g, n), ';') == ["cmd" + ":" + cmd, "serviceGuid" + ":" + g, "instanceNum" + ":" + IntToString(n)]
  {
    IntTextIsPlain(n);
    var segments := ["cmd" + ":" + cmd, "serviceGuid" + ":" + g, "instanceNum" + ":" + IntToString(n)];
    FormatSegments(cmd, g, IntToString(n));
    assert forall i :: 0 <= i < 3 ==> ';' !in segments[i];
    SplitJoin(segments, ';');
  }

  lemma FormatSegments(cmd: string, g: string, num: string)
    ensures "cmd:" + cmd + ";serviceGuid:" + g + ";instanceNum:" + num
            == Join(["cmd" + ":" + cmd, "serviceGuid" + ":" + g, "instanceNum" + ":" + num], ";")
  {
    var s1, s2, s3 := "cmd" + ":" + cmd, "serviceGuid" + ":" + g, "instanceNum" + ":" + num;
    assert Join([s2, s3], ";") == s2 + ";" + s3 by {
      assert [s2, s3][1..] == [s3];
    }
    assert Join([s1, s2, s3], ";") == s1 + ";" + (s2 + ";" + s3) by {
      assert [s1, s2, s3][1..] == [s2, s3];
    }
    RequestLiterals();
  }

  lemma RequestLiterals()
    ensures ";serviceGuid:" == ";" + "serviceGuid" + ":" && ";instanceNum:" == ";" + "instanceNum" + ":"
    ensures "cmd:" == "cmd" + ":"
  {
  }

  /** One `key:value` segment of the request, with a literal key. */
  lemma SegmentParts(k: string, v: string)
    requires k == "cmd" || k == "serviceGuid" || k == "instanceNum"
    requires ':' !in v
    ensures HasValue(k + ":" + v) && Key(k + ":" + v) == k && Value(k + ":" + v) == Trim(v)
    ensures EntryKey(k + ":" + v) == Fold(k)
  {
    PairSegment(k, v);
    TrimTrimmed(k);
  }

  lemma FoldedKeys()
    ensures Fold("cmd") == "cmd" && Fold("serviceGuid") == "serviceguid" && Fold("instanceNum") == "instancenum"
  {
    assert ToLower("serviceGuid") == "serviceguid";
    assert ToLower("instanceNum") == "instancenum";
  }

  /** Three segments with values and pairwise distinct keys parse to the dictionary
      holding exactly those three entries. */
  lemma ThreePairs(s1: string, s2: string, s3: string)
    requires HasValue(s1) && HasValue(s2) && HasValue(s3)
    requires EntryKey(s1) != EntryKey(s2) && EntryKey(s1) != EntryKey(s3) && EntryKey(s2) != EntryKey(s3)
    ensures ParsePairs([s1, s2, s3])
            == Ok(map[EntryKey(s1) := Value(s1), EntryKey(s2) := Value(s2), EntryKey(s3) := Value(s3)])
  {
    var d1 := map[EntryKey(s1) := Value(s1)];
    var d2 := d1[EntryKey(s2) := Value(s2)];
    ParsePairsSnoc([], map[], s1);
    assert [] + [s1] == [s1];
    ParsePairsSnoc([s1], d1, s2);
    assert [s1] + [s2] == [s1, s2];
    ParsePairsSnoc([s1, s2], d2, s3);
    assert [s1, s2] + [s3] == [s1, s2, s3];
  }

  /** The four command names, as the server's case-insensitive comparison sees them. */
  lemma CommandNames()
    ensures EqualsIgnoreCase("Start", "Start")
    ensures !EqualsIgnoreCase("Cancel", "Start") && EqualsIgnoreCase("Cancel", "Cancel")
    ensures !EqualsIgnoreCase("Check", "Start") && !EqualsIgnoreCase("Check", "Cancel")
            && EqualsIgnoreCase("Check", "Check")
    ensures !EqualsIgnoreCase("List", "Start") && !EqualsIgnoreCase("List", "Cancel")
            && !EqualsIgnoreCase("List", "Check") && EqualsIgnoreCase("List", "List")
    ensures Trim("Start") == "Start" && Trim("Cancel") == "Cancel" && Trim("Check") == "Check"
            && Trim("List") == "List"
  {
    assert ToLower("Start") == "start";
    assert ToLower("Cancel") == "cancel";
    assert ToLower("Check") == "check";
    assert ToLower("List") == "list";
    TrimTrimmed("Start");
    TrimTrimmed("Cancel");
    TrimTrimmed("Check");
    TrimTrimmed("List");
  }

  /** Every request the client formats reaches the server's command branches with the
      trimmed command name and GUID as they crossed the channel, and the instance
      number's text. */
  lemma HandleFormatted(reg: Server.Registry, cmd: string, g: string, n: int,
                        throughput: Server.Evaluator -> string)
    requires ':' !in cmd && ';' !in cmd && ':' !in g && ';' !in g
    requires Int32Min <= n <= Int32Max
    ensures Server.Handle(reg, Wire(FormatRequest(cmd, g, n)), throughput)
            == Server.Dispatch(reg, Trim(Wire(cmd)), Trim(Wire(g)), Some(IntToString(n)), throughput)
  {
    RequestRoundTrip(cmd, g, n);
  }

  /** A Start command that passes both GUID checks reaches the server as a Start for
      the recognizer GUID, as it crossed the channel and trimmed, with the capped
      instance number, which the server registers: the whole Start path never raises.
      An ASCII GUID arrives as its own trim. */
  lemma StartEndToEnd(recog: string, n: int, evalGuid: string, isGuid: string -> bool,
                      reg: Server.Registry, throughput: Server.Evaluator -> string)
    requires isGuid(recog) && isGuid(evalGuid)
    requires ':' !in recog && ';' !in recog
    requires n >= Int32Min
    requires Server.UniqueGuids(reg)
    ensures var o := Run(Start(recog, n), evalGuid, isGuid);
      && o.Sent?
      && Server.Handle(reg, Wire(o.request), throughput).Answered?
      && Server.Handle(reg, Wire(o.request), throughput).reply
         == "Evaluation started for service: " + Trim(Wire(recog)) + "."
      && Server.Guids(Server.Handle(reg, Wire(o.request), throughput).reg)
         == Server.Guids(reg) + {Trim(Wire(recog))}
    ensures IsAscii(recog) ==> Trim(Wire(recog)) == Trim(recog)
  {
    var m := Clamp(n);
    HandleFormatted(reg, "Start", recog, m, throughput);
    CommandNames();
    CommandsOnTheWire();
    IntRoundTrip(m);
    Server.StartSpec(reg, Trim(Wire(recog)), IntToString(m));
    WireKeepsAscii(recog);
  }

  /** Cancel and Check reach the server as the same command for the GUID as it
      crossed the channel, trimmed. */
  lemma CancelCheckEndToEnd(c: Command, evalGuid: string, isGuid: string -> bool,
                            reg: Server.Registry, throughput: Server.Evaluator -> string)
    requires c.Cancel? || c.Check?
    requires isGuid(c.recog) && isGuid(evalGuid)
    requires ':' !in c.recog && ';' !in c.recog
    ensures var o := Run(c, evalGuid, isGuid);
      && o.Sent?
      && (c.Cancel? ==> Server.Handle(reg, Wire(o.request), throughput)
                        == Server.Cancel(reg, Trim(Wire(c.recog))))
      && (c.Check? ==> Server.Handle(reg, Wire(o.request), throughput)
                       == Server.Answered(Server.CheckReply(reg, Trim(Wire(c.recog)), throughput), reg))
  {
    HandleFormatted(reg, Fields(c).0, c.recog, 0, throughput);
    CommandNames();
    CommandsOnTheWire();
  }

  /** List reaches the server as a List, which answers with the registry's progress
      lines and leaves it unchanged. */
  lemma ListEndToEnd(evalGuid: string, isGuid: string -> bool,
                     reg: Server.Registry, throughput: Server.Evaluator -> string)
    requires isGuid(evalGuid)
    ensures var o := Run(List, evalGuid, isGuid);
      && o.Sent?
      && Wire(o.request) == o.request
      && Server.Handle(reg, Wire(o.request), throughput)
         == Server.Answered(Join(Server.ListLines(reg, throughput), "\n"), reg)
  {
    EmptyGuidIsPlain();
    var request := FormatRequest("List", EmptyGuid, 0);
    assert Run(List, evalGuid, isGuid) == Sent(request);
    CommandsOnTheWire();
    WireFormat("List", EmptyGuid, 0);
    HandleFormatted(reg, "List", EmptyGuid, 0, throughput);
    CommandNames();
    ListDispatch(reg, Trim(EmptyGuid), Some(IntToString(0)), throughput);
  }

  /** The command names and the empty GUID are ASCII, so they cross the channel as
      they are. */
  lemma CommandsOnTheWire()
    ensures Wire("Start") == "Start" && Wire("Cancel") == "Cancel"
    ensures Wire("Check") == "Check" && Wire("List") == "List"
    ensures Wire(EmptyGuid) == EmptyGuid
  {
    WireKeepsAscii("Start");
    WireKeepsAscii("Cancel");
    WireKeepsAscii("Check");
    WireKeepsAscii("List");
    WireKeepsAscii(EmptyGuid);
  }

  lemma EmptyGuidIsPlain()
    ensures ':' !in EmptyGuid && ';' !in EmptyGuid
  {
  }

  lemma ListDispatch(reg: Server.Registry, g: string, instanceNum: Option<string>,
                     throughput: Server.Evaluator -> string)
    ensures Server.Dispatch(reg, Trim("List"), g, instanceNum, throughput)
            == Server.Answered(Join(Server.ListLines(reg, throughput), "\n"), reg)
  {
    CommandNames();
  }
}
