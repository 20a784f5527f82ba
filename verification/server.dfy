/** The evaluation server's request handler (`PredictionFunc`): a request is a text of
    `key:value` pairs separated by `;`; its `cmd` selects Start, Cancel, Check or List
    for the evaluation of the recognizer named by `serviceGuid`. Running evaluations
    are kept in a registry keyed by that GUID; an evaluation leaves the registry when
    its evaluation task finishes.

    The registry is a sequence of evaluators with pairwise distinct GUIDs, in the
    order they were started; the throughput a progress line shows depends on the
    clock and is an input. */
module Server {
  import opened Wrappers
  import opened Strings
  import opened KeyValue

  const InvalidRequest: string := "Invalid request."
  const CancellingReply: string := "Evaluation is being cancelled."
  const NotRunningReply: string := "Evaluation is not running."

  /** The state of one registered evaluation that the server reads or writes: the
      requested degree of parallelism, whether its token was cancelled, and the
      `ProcessedNumOfImages` / `TotalNumOfImages` counters. */
  datatype Evaluator = Evaluator(guid: string, concurrency: int, cancelRequested: bool,
                                 processed: nat, total: int)

  /** `dictEvaluator`, a `ConcurrentDictionary` with the default (case-sensitive)
      comparer. */
  type Registry = seq<Evaluator>

  ghost predicate UniqueGuids(reg: Registry) {
    forall i, j :: 0 <= i < j < |reg| ==> reg[i].guid != reg[j].guid
  }

  function Guids(reg: Registry): set<string> {
    set i | 0 <= i < |reg| :: reg[i].guid
  }

  /** `TryGetValue`: the position of the evaluator registered under `g`. */
  function Find(reg: Registry, g: string): (r: Option<nat>)
    ensures r.Some? ==> r.value < |reg| && reg[r.value].guid == g
    ensures r.Some? ==> forall j :: 0 <= j < r.value ==> reg[j].guid != g
    ensures r.None? <==> g !in Guids(reg)
  {
    if |reg| == 0 then None
    else if reg[0].guid == g then Some(0)
    else
      match Find(reg[1..], g)
      case None =>
        assert forall i :: 1 <= i < |reg| ==> reg[i] == reg[1..][i - 1];
        None
      case Some(i) =>
        assert reg[1..][i] == reg[i + 1];
        Some(i + 1)
  }

  /** The exceptions `PredictionFunc` lets escape: a required key is missing from the
      request (`KeyNotFoundException`), or `instanceNum` is not an `Int32`. */
  datatype Fault = MissingKey(key: string) | BadInstanceNum(text: string)

  /** The reply sent back and the registry afterwards, or an escaping exception. */
  datatype Response = Answered(reply: string, reg: Registry) | Raised(fault: Fault)

  /** `request.Split(';').Select(x => x.Split(':')).ToDictionary(…, OrdinalIgnoreCase)` */
  function ParseRequest(request: string): Result<Dict, KvError> {
    ParsePairs(Split(request, ';'))
  }

  /** `{guid}: progress: {processed} / {total}, throughput: {rate} images/sec` */
  function ProgressLine(e: Evaluator, throughput: string): string {
    e.guid + ": progress: " + IntToString(e.processed) + " / " + IntToString(e.total)
    + ", throughput: " + throughput + " images/sec"
  }

  /** A new evaluator, before its task has touched the counters. */
  function NewEvaluator(g: string, concurrency: int): Evaluator {
    Evaluator(g, concurrency, false, 0, 0)
  }

  /** `Start`: `instanceNum` is converted first; `GetOrAdd` then registers a new
      evaluator only when none runs under the GUID. */
  function Start(reg: Registry, g: string, instanceNum: Option<string>): Response {
    match instanceNum
    case None => Raised(MissingKey("instanceNum"))
    case Some(text) =>
      match ParseInt32(text)
      case None => Raised(BadInstanceNum(text))
      case Some(n) =>
        var reg' := if g in Guids(reg) then reg else reg + [NewEvaluator(g, n)];
        Answered("Evaluation started for service: " + g + ".", reg')
  }

  /** `Cancel`: cancels the token of the evaluator registered under `g`, if any. */
  function Cancel(reg: Registry, g: string): Response {
    match Find(reg, g)
    case Some(i) => Answered(CancellingReply, reg[i := reg[i].(cancelRequested := true)])
    case None => Answered(NotRunningReply, reg)
  }

  /** `Check`: the progress line of the evaluator registered under `g`. */
  function CheckReply(reg: Registry, g: string, throughput: Evaluator -> string): string {
    match Find(reg, g)
    case Some(i) => ProgressLine(reg[i], throughput(reg[i]))
    case None => "Evaluation for service " + g + " is not found"
  }

  /** `List`: one progress line per registered evaluator. */
  function ListLines(reg: Registry, throughput: Evaluator -> string): (lines: seq<string>)
    ensures |lines| == |reg|
  {
    seq(|reg|, i requires 0 <= i < |reg| => ProgressLine(reg[i], throughput(reg[i])))
  }

  /** `PredictionFunc`: an unparsable request is answered with "Invalid request.";
      `cmd` and `serviceGuid` are then looked up outside the `try`, so a request
      lacking either raises. */
  function Handle(reg: Registry, request: string, throughput: Evaluator -> string): Response {
    match ParseRequest(request)
    case Err(_) => Answered(InvalidRequest, reg)
    case Ok(d) =>
      match Lookup(d, "cmd")
      case None => Raised(MissingKey("cmd"))
      case Some(cmd) =>
        match Lookup(d, "serviceGuid")
        case None => Raised(MissingKey("serviceGuid"))
        case Some(g) => Dispatch(reg, cmd, g, Lookup(d, "instanceNum"), throughput)
  }

  /** The command branches; command names compare case-insensitively, and only Start
      reads `instanceNum`. */
  function Dispatch(reg: Registry, cmd: string, g: string, instanceNum: Option<string>,
                    throughput: Evaluator -> string): Response
  {
    if EqualsIgnoreCase(cmd, "Start") then Start(reg, g, instanceNum)
    else if EqualsIgnoreCase(cmd, "Cancel") then Cancel(reg, g)
    else if EqualsIgnoreCase(cmd, "Check") then Answered(CheckReply(reg, g, throughput), reg)
    else if EqualsIgnoreCase(cmd, "List") then Answered(Join(ListLines(reg, throughput), "\n"), reg)
    else Answered("Request is not supported: " + cmd, reg)
  }

  /** The evaluation task's continuation: `TryRemove(guid)`. */
  function Complete(reg: Registry, g: string): (reg': Registry)
    ensures |reg'| <= |reg|
  {
    if |reg| == 0 then []
    else if reg[0].guid == g then Complete(reg[1..], g)
    else [reg[0]] + Complete(reg[1..], g)
  }

  /** The evaluation task advancing the counters of its evaluator. */
  function Report(reg: Registry, g: string, processed: nat, total: int): (reg': Registry) {
    match Find(reg, g)
    case Some(i) => reg[i := reg[i].(processed := processed, total := total)]
    case None => reg
  }

  // ---------------------------------------------------------------- properties

  /** The command named in a parsed request, and its GUID. */
  predicate Names(request: string, cmd: string, g: string) {
    && ParseRequest(request).Ok?
    && Lookup(ParseRequest(request).value, "cmd") == Some(cmd)
    && Lookup(ParseRequest(request).value, "serviceGuid") == Some(g)
  }

  /** A request is answered with "Invalid request." and changes nothing exactly when
      some `;`-segment lacks a `:` or two keys coincide ignoring case. */
  lemma InvalidRequestSpec(reg: Registry, request: string, throughput: Evaluator -> string)
    ensures ParseRequest(request).Err? <==> !WellFormed(Split(request, ';'))
    ensures ParseRequest(request).Err? ==> Handle(reg, request, throughput) == Answered(InvalidRequest, reg)
  {
    ParsePairsSpec(Split(request, ';'));
  }

  /** A well-formed request lacking `cmd` or `serviceGuid` raises. */
  lemma MissingKeysRaise(reg: Registry, request: string, throughput: Evaluator -> string)
    requires ParseRequest(request).Ok?
    requires Lookup(ParseRequest(request).value, "cmd").None?
             || Lookup(ParseRequest(request).value, "serviceGuid").None?
    ensures Handle(reg, request, throughput).Raised?
  {
  }

  /** Start registers the GUID once: afterwards exactly the old GUIDs plus `g` are
      registered, an evaluator already running under `g` is kept as it is, and a new
      one starts with the requested degree of parallelism and zero counters. */
  lemma StartSpec(reg: Registry, g: string, text: string)
    requires UniqueGuids(reg)
    requires ParseInt32(text).Some?
    ensures var r := Start(reg, g, Some(text));
      && r == Answered("Evaluation started for service: " + g + ".", r.reg)
      && Guids(r.reg) == Guids(reg) + {g}
      && UniqueGuids(r.reg)
      && (g in Guids(reg) ==> r.reg == reg)
      && (g !in Guids(reg) ==> r.reg == reg + [NewEvaluator(g, ParseInt32(text).value)])
  {
    var r := Start(reg, g, Some(text));
    if g !in Guids(reg) {
      assert r.reg == reg + [NewEvaluator(g, ParseInt32(text).value)];
      forall i, j | 0 <= i < j < |r.reg| ensures r.reg[i].guid != r.reg[j].guid {
        if j == |reg| {
          assert reg[i].guid in Guids(reg);
        }
      }
      assert Guids(r.reg) == Guids(reg) + {g} by {
        forall x | x in Guids(r.reg) ensures x in Guids(reg) + {g} {
          var i :| 0 <= i < |r.reg| && r.reg[i].guid == x;
          if i < |reg| { assert reg[i].guid in Guids(reg); }
        }
        forall x | x in Guids(reg) + {g} ensures x in Guids(r.reg) {
          if x != g {
            var i :| 0 <= i < |reg| && reg[i].guid == x;
            assert r.reg[i].guid == x;
          } else {
            assert r.reg[|reg|].guid == g;
          }
        }
      }
    }
  }

  /** Starting the same GUID twice registers it as once. */
  lemma StartTwice(reg: Registry, g: string, t1: string, t2: string)
    requires UniqueGuids(reg)
    requires ParseInt32(t1).Some? && ParseInt32(t2).Some?
    ensures Start(Start(reg, g, Some(t1)).reg, g, Some(t2)).reg == Start(reg, g, Some(t1)).reg
  {
    StartSpec(reg, g, t1);
  }

  /** Cancel sets the flag of `g`'s evaluator and touches nothing else. */
  lemma CancelSpec(reg: Registry, g: string)
    ensures var r := Cancel(reg, g);
      && |r.reg| == |reg|
      && (r.reply == CancellingReply <==> g in Guids(reg))
      && (r.reply == NotRunningReply <==> g !in Guids(reg))
      && forall i :: 0 <= i < |reg| ==>
           && r.reg[i].guid == reg[i].guid
           && r.reg[i].cancelRequested == (reg[i].cancelRequested || reg[i].guid == g)
           && r.reg[i].processed == reg[i].processed
           && r.reg[i].total == reg[i].total
           && r.reg[i].concurrency == reg[i].concurrency
    requires UniqueGuids(reg)
  {
  }

  /** Check answers with the progress line of `g`'s evaluator, or that it is not found. */
  lemma CheckSpec(reg: Registry, g: string, throughput: Evaluator -> string)
    ensures forall i :: 0 <= i < |reg| && reg[i].guid == g ==>
              CheckReply(reg, g, throughput) == ProgressLine(reg[i], throughput(reg[i]))
    ensures g !in Guids(reg) ==> CheckReply(reg, g, throughput) == "Evaluation for service " + g + " is not found"
    requires UniqueGuids(reg)
  {
  }

  /** When no GUID and no throughput text holds a line break, the List reply splits
      back into one progress line per registered evaluator, in registry order. */
  lemma ListSpec(reg: Registry, throughput: Evaluator -> string)
    requires |reg| >= 1
    requires forall i :: 0 <= i < |reg| ==> '\n' !in reg[i].guid && '\n' !in throughput(reg[i])
    ensures Split(Join(ListLines(reg, throughput), "\n"), '\n') == ListLines(reg, throughput)
  {
    var lines := ListLines(reg, throughput);
    forall i | 0 <= i < |lines| ensures '\n' !in lines[i] {
      ProgressLineUnbroken(reg[i], throughput(reg[i]));
    }
    SplitJoin(lines, '\n');
  }

  lemma ProgressLineUnbroken(e: Evaluator, throughput: string)
    requires '\n' !in e.guid && '\n' !in throughput
    ensures '\n' !in ProgressLine(e, throughput)
  {
    IntTextHasNo(e.processed, '\n');
    IntTextHasNo(e.total, '\n');
  }

  /** An empty registry lists as the empty text. */
  lemma ListEmpty(throughput: Evaluator -> string)
    ensures Join(ListLines([], throughput), "\n") == ""
  {
  }

  /** Only Start adds a GUID, only the request's own, and no request removes one;
      every answered request keeps the GUIDs distinct. */
  lemma HandleGuids(reg: Registry, request: string, throughput: Evaluator -> string)
    requires UniqueGuids(reg)
    ensures var r := Handle(reg, request, throughput);
      r.Answered? ==>
        && UniqueGuids(r.reg)
        && Guids(reg) <= Guids(r.reg)
        && (Guids(r.reg) == Guids(reg)
            || exists cmd, g :: Names(request, cmd, g) && EqualsIgnoreCase(cmd, "Start")
                                && Guids(r.reg) == Guids(reg) + {g})
  {
    var r := Handle(reg, request, throughput);
    if r.Answered? && ParseRequest(request).Ok? {
      var d := ParseRequest(request).value;
      var cmd := Lookup(d, "cmd").value;
      var g := Lookup(d, "serviceGuid").value;
      assert Names(request, cmd, g);
      if EqualsIgnoreCase(cmd, "Start") {
        StartSpec(reg, g, Lookup(d, "instanceNum").value);
      } else if EqualsIgnoreCase(cmd, "Cancel") {
        CancelSpec(reg, g);
        CancelKeepsGuids(reg, g);
      }
    }
  }

  lemma CancelKeepsGuids(reg: Registry, g: string)
    requires UniqueGuids(reg)
    ensures Guids(Cancel(reg, g).reg) == Guids(reg) && UniqueGuids(Cancel(reg, g).reg)
  {
    CancelSpec(reg, g);
    var r := Cancel(reg, g).reg;
    forall x | x in Guids(reg) ensures x in Guids(r) {
      var i :| 0 <= i < |reg| && reg[i].guid == x;
      assert r[i].guid == x;
    }
  }

  /** Check, List and unsupported commands leave the registry alone. */
  lemma ReadOnlyCommands(reg: Registry, request: string, throughput: Evaluator -> string, cmd: string, g: string)
    requires Names(request, cmd, g)
    requires !EqualsIgnoreCase(cmd, "Start") && !EqualsIgnoreCase(cmd, "Cancel")
    ensures Handle(reg, request, throughput).Answered?
    ensures Handle(reg, request, throughput).reg == reg
    ensures !EqualsIgnoreCase(cmd, "Check") && !EqualsIgnoreCase(cmd, "List") ==>
              Handle(reg, request, throughput).reply == "Request is not supported: " + cmd
  {
  }

  /** Completion removes exactly `g` and keeps the other evaluators in order. */
  lemma {:induction false} CompleteSpec(reg: Registry, g: string)
    ensures Guids(Complete(reg, g)) == Guids(reg) - {g}
    ensures forall e :: e in Complete(reg, g) <==> e in reg && e.guid != g
    ensures UniqueGuids(reg) ==> UniqueGuids(Complete(reg, g))
    decreases |reg|
  {
    if |reg| > 0 {
      CompleteSpec(reg[1..], g);
      var rest := Complete(reg[1..], g);
      assert forall e :: e in reg <==> e == reg[0] || e in reg[1..];
      GuidsCons(reg);
      if reg[0].guid != g {
        GuidsCons([reg[0]] + rest);
        assert ([reg[0]] + rest)[1..] == rest;
        if UniqueGuids(reg) {
          assert UniqueGuids(reg[1..]);
          forall j | 0 <= j < |rest| ensures rest[j].guid != reg[0].guid {
            assert rest[j] in rest;
            assert rest[j] in reg[1..];
          }
          assert UniqueGuids([reg[0]] + rest) by {
            forall i, j | 0 <= i < j < |[reg[0]] + rest|
              ensures ([reg[0]] + rest)[i].guid != ([reg[0]] + rest)[j].guid
            {
              if i > 0 {
                assert ([reg[0]] + rest)[i] == rest[i - 1];
              }
            }
          }
        }
      } else if UniqueGuids(reg) {
        assert UniqueGuids(reg[1..]);
      }
    }
  }

  lemma GuidsCons(reg: Registry)
    requires |reg| > 0
    ensures Guids(reg) == {reg[0].guid} + Guids(reg[1..])
  {
    forall x | x in Guids(reg) ensures x in {reg[0].guid} + Guids(reg[1..]) {
      var i :| 0 <= i < |reg| && reg[i].guid == x;
      if i > 0 { assert reg[1..][i - 1].guid == x; }
    }
    forall x | x in Guids(reg[1..]) ensures x in Guids(reg) {
      var i :| 0 <= i < |reg[1..]| && reg[1..][i].guid == x;
      assert reg[i + 1].guid == x;
    }
  }

  /** A report moves the counters of `g`'s evaluator only. */
  lemma ReportSpec(reg: Registry, g: string, processed: nat, total: int)
    ensures var reg' := Report(reg, g, processed, total);
      && |reg'| == |reg|
      && forall i :: 0 <= i < |reg| ==>
           && reg'[i].guid == reg[i].guid
           && reg'[i].cancelRequested == reg[i].cancelRequested
           && (reg[i].guid == g ==> reg'[i].processed == processed && reg'[i].total == total)
           && (reg[i].guid != g ==> reg'[i] == reg[i])
    requires UniqueGuids(reg)
  {
  }
}
