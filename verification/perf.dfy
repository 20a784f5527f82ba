/** The precision/coverage curve of the offline evaluation tool: walk the results in order of
    descending confidence, count the correct ones so far, and report the coverage
    at which precision last reaches a target. Ratios are kept as exact fractions. */
module Perf {
  import opened Wrappers
  import opened Seqs

  /** The fraction `num / den` (`den` may be zero for a coverage over an empty set). */
  datatype Ratio = Ratio(num: int, den: int)

  /** `num / den >= target` for a positive denominator and target denominator. */
  predicate AtLeast(r: Ratio, target: Ratio)
    requires r.den > 0 && target.den > 0
  {
    r.num * target.den >= target.num * r.den
  }

  /** One point of the curve: a result, its confidence, and the running figures. */
  datatype Point = Point(check: bool, conf: int, correct: nat, precision: Ratio, coverage: Ratio)

  function IsCorrect(c: bool): bool { c }

  /** Number of correct results among the first `n`. */
  function Correct(checks: seq<bool>, n: nat): nat
    requires n <= |checks|
  {
    CountIf(checks[..n], IsCorrect)
  }

  /** `CalcPrecisionCoverage`: point `i` carries the running count of correct results
      among the first `i + 1`, precision `correct / (i + 1)` and coverage
      `(i + 1) / total`. */
  function PrecisionCoverage(checks: seq<bool>, confs: seq<int>, total: int): (points: seq<Point>)
    requires |confs| == |checks|
    ensures |points| == |checks|
    ensures forall i :: 0 <= i < |points| ==> points[i].precision.den > 0
  {
    seq(|checks|, i requires 0 <= i < |checks| =>
      Point(checks[i], confs[i], Correct(checks, i + 1), Ratio(Correct(checks, i + 1), i + 1), Ratio(i + 1, total)))
  }

  /** The count is the source's running counter: it starts from the first result and
      goes up by one exactly at each correct result; so it never decreases and never
      exceeds the number of results seen. */
  lemma RunningCount(checks: seq<bool>, confs: seq<int>, total: int)
    requires |confs| == |checks|
    ensures var p := PrecisionCoverage(checks, confs, total);
            && (|p| > 0 ==> p[0].correct == if checks[0] then 1 else 0)
            && (forall i :: 0 < i < |p| ==> p[i].correct == p[i - 1].correct + if checks[i] then 1 else 0)
            && (forall i :: 0 <= i < |p| ==> p[i].correct <= i + 1)
  {
    var p := PrecisionCoverage(checks, confs, total);
    if |p| > 0 {
      assert checks[..1] == [] + [checks[0]];
    }
    forall i | 0 < i < |p| ensures p[i].correct == p[i - 1].correct + if checks[i] then 1 else 0 {
      assert checks[..i + 1][..i] == checks[..i];
    }
  }

  /** `OutputPerf`: the last point whose precision reaches `target`, if any. */
  function LastReaching(points: seq<Point>, target: Ratio): (k: Option<nat>)
    requires target.den > 0
    requires forall i :: 0 <= i < |points| ==> points[i].precision.den > 0
    ensures k.None? <==> forall i :: 0 <= i < |points| ==> !AtLeast(points[i].precision, target)
    ensures k.Some? ==> k.value < |points| && AtLeast(points[k.value].precision, target)
    ensures k.Some? ==> forall i :: k.value < i < |points| ==> !AtLeast(points[i].precision, target)
  {
    if |points| == 0 then None
    else if AtLeast(points[|points| - 1].precision, target) then Some(|points| - 1)
    else LastReaching(points[..|points| - 1], target)
  }

  /** The two precision targets the offline evaluation reports, `0.95f` and `0.99f`. */
  const Target95: Ratio := Ratio(95, 100)
  const Target99: Ratio := Ratio(99, 100)

  /** The coverage and confidence printed for a target: those of the last point
      reaching it, or coverage 0 and no confidence (`###`). */
  datatype Reported = Reported(coverage: Ratio, conf: Option<int>)

  function OutputPerf(points: seq<Point>, target: Ratio): (r: Reported)
    requires target.den > 0
    requires forall i :: 0 <= i < |points| ==> points[i].precision.den > 0
  {
    match LastReaching(points, target)
    case None => Reported(Ratio(0, 1), None)
    case Some(k) => Reported(points[k].coverage, Some(points[k].conf))
  }

  /** The first `i + 1` results reach precision `target`. */
  predicate Reaches(checks: seq<bool>, i: nat, target: Ratio)
    requires i < |checks|
  {
    Correct(checks, i + 1) * target.den >= target.num * (i + 1)
  }

  /** On the curve of `checks`, `OutputPerf` reports the coverage and confidence of the
      last prefix whose precision reaches the target, or nothing when none does. */
  lemma OutputPerfSpec(checks: seq<bool>, confs: seq<int>, total: int, target: Ratio, k: nat)
    requires |confs| == |checks| && target.den > 0
    ensures var r := OutputPerf(PrecisionCoverage(checks, confs, total), target);
            r.conf.None? <==> forall i :: 0 <= i < |checks| ==> !Reaches(checks, i, target)
    ensures var r := OutputPerf(PrecisionCoverage(checks, confs, total), target);
            (forall i :: 0 <= i < |checks| ==> !Reaches(checks, i, target)) ==> r == Reported(Ratio(0, 1), None)
    ensures var r := OutputPerf(PrecisionCoverage(checks, confs, total), target);
            k < |checks| && Reaches(checks, k, target) && (forall i :: k < i < |checks| ==> !Reaches(checks, i, target))
            ==> r == Reported(Ratio(k + 1, total), Some(confs[k]))
  {
    var p := PrecisionCoverage(checks, confs, total);
    assert forall i :: 0 <= i < |p| ==> (AtLeast(p[i].precision, target) <==> Reaches(checks, i, target));
  }
}
