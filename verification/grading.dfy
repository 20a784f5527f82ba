/** How a recognition result string is graded against a ground-truth label: the
    result is `label:score; label:score; …`, and the first five names are the
    candidates. Shared by the evaluator's accuracy pass and the offline evaluation tool. */
module Grading {
  import opened Strings
  import opened Seqs

  /** Prefix marking a harness or transport failure in a logged result. */
  const SystemError: string := "$SystemError$"
  /** Phrase the remote service returns when it is saturated. */
  const SaturationMarker: string := "return 0B."
  const MaxCandidates: nat := 5

  predicate IsSaturated(result: string) {
    Contains(result, SaturationMarker)
  }

  predicate IsSystemError(result: string) {
    StartsWith(result, SystemError)
  }

  /** `r.Split(':')[0].Trim().ToLower()` */
  function CandidateName(segment: string): string {
    ToLower(Trim(Split(segment, ':')[0]))
  }

  /** `result.Split(';').Select(CandidateName).Take(5)`: never empty, because
      `Split` always yields at least one part. */
  function Candidates(result: string): (c: seq<string>)
    ensures 1 <= |c| <= MaxCandidates
    ensures |c| == if |Split(result, ';')| < MaxCandidates then |Split(result, ';')| else MaxCandidates
    ensures forall i :: 0 <= i < |c| ==> c[i] == CandidateName(Split(result, ';')[i])
  {
    Take(Map(Split(result, ';'), CandidateName), MaxCandidates)
  }

  /** Top-1 and top-5 correctness of one graded line. */
  datatype Check = Check(top1: bool, top5: bool)

  /** `result.Length == 0 ? (false, false) : (truth == result[0], IndexOf(result, truth) >= 0)` */
  function CheckAgainst(truth: string, names: seq<string>): (c: Check)
    ensures c.top1 <==> |names| > 0 && names[0] == truth
    ensures c.top5 <==> truth in names
    ensures c.top1 ==> c.top5
  {
    if |names| == 0 then Check(false, false)
    else Check(truth == names[0], truth in names)
  }

  /** Grades a result string against a label, both compared lower-case. */
  function Grade(truth: string, result: string): (g: Check)
    ensures g.top1 <==> CandidateName(Split(result, ';')[0]) == ToLower(truth)
    ensures g.top5 <==> exists i :: 0 <= i < |Split(result, ';')| && i < MaxCandidates
                                    && CandidateName(Split(result, ';')[i]) == ToLower(truth)
    ensures g.top1 ==> g.top5
  {
    var c := Candidates(result);
    CheckAgainst(ToLower(truth), c)
  }

  /** Numbers of graded lines and of top-1 / top-5 hits; the accuracies are the
      ratios `top1 / evaluated` and `top5 / evaluated`. */
  datatype Tally = Tally(evaluated: nat, top1: nat, top5: nat) {
    ghost predicate Valid() {
      top1 <= top5 <= evaluated
    }

    function Add(c: Check): Tally {
      Tally(evaluated + 1, top1 + (if c.top1 then 1 else 0), top5 + (if c.top5 then 1 else 0))
    }
  }

  /** Adding a graded line keeps top-1 hits within top-5 hits within the lines graded. */
  lemma AddKeepsValid(t: Tally, c: Check)
    requires t.Valid()
    requires c.top1 ==> c.top5
    ensures t.Add(c).Valid()
  {
  }
}
