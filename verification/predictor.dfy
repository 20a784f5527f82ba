/** The Caffe recognizer's result-string producer: the label map read at start-up and
    `Predict`, which ranks the network's class scores, keeps the top K above a
    confidence threshold and formats them as `label:score; label:score; …`. Scores
    are abstract ordered values (integers); their text form is a parameter. */
module Predictor {
  import opened Wrappers
  import opened Strings
  import opened Seqs
  import opened Ranking
  import Grading

  /** Tab, the label map's field separator. */
  const Tab: char := '\t'
  /** Separator between formatted entries. */
  const EntrySep: string := "; "

  /** Line `i` of the label map names class `i` in its first tab-separated field. */
  function LabelMap(lines: seq<string>): (labels: seq<string>)
    ensures |labels| == |lines|
    ensures forall i :: 0 <= i < |lines| ==> Tab !in labels[i]
  {
    seq(|lines|, i requires 0 <= i < |lines| => Split(lines[i], Tab)[0])
  }

  /** A label-map line `label<TAB>rest` contributes `label`, whatever the rest holds. */
  lemma LabelMapLine(lines: seq<string>, i: nat, name: string, rest: string)
    requires i < |lines| && lines[i] == name + [Tab] + rest
    requires Tab !in name
    ensures LabelMap(lines)[i] == name
  {
    SplitFirst(name, Tab, rest);
  }

  /** A line without a tab is its own label. */
  lemma LabelMapPlainLine(lines: seq<string>, i: nat)
    requires i < |lines| && Tab !in lines[i]
    ensures LabelMap(lines)[i] == lines[i]
  {
    SplitNoSeparator(lines[i], Tab);
  }

  /** A class index with its score (`KeyValuePair<int, float>`). */
  datatype Scored = Scored(index: nat, score: int)

  function ScoreOf(s: Scored): int { s.score }
  function IndexOf(s: Scored): int { s.index }

  /** `probs.Select((score, k) => (k, score))` */
  function Indexed(probs: seq<int>): (r: seq<Scored>)
    ensures |r| == |probs|
    ensures forall k :: 0 <= k < |probs| ==> r[k] == Scored(k, probs[k])
  {
    seq(|probs|, k requires 0 <= k < |probs| => Scored(k, probs[k]))
  }

  /** All classes ranked by descending score (`OrderByDescending(kv => kv.Value)`). */
  function Ranked(probs: seq<int>): seq<Scored> {
    SortDesc(Indexed(probs), ScoreOf)
  }

  /** `.Where(kv => kv.Value > minConfidence)` */
  function Confident(xs: seq<Scored>, minConfidence: int): (r: seq<Scored>)
    ensures |r| <= |xs|
    ensures forall i :: 0 <= i < |r| ==> r[i].score > minConfidence
  {
    if |xs| == 0 then []
    else (if xs[0].score > minConfidence then [xs[0]] else []) + Confident(xs[1..], minConfidence)
  }

  /** `.Take(topK).Where(kv => kv.Value > minConfidence)` on the ranking. */
  function Select(probs: seq<int>, topK: int, minConfidence: int): seq<Scored> {
    Confident(Take(Ranked(probs), topK), minConfidence)
  }

  /** On a descending sequence the threshold keeps a prefix, and the element after
      that prefix, if any, fails it. */
  lemma {:induction false} ThresholdPrefix(xs: seq<Scored>, minConfidence: int)
    requires Descending(xs, ScoreOf)
    ensures Confident(xs, minConfidence) == xs[..|Confident(xs, minConfidence)|]
    ensures |Confident(xs, minConfidence)| < |xs| ==> xs[|Confident(xs, minConfidence)|].score <= minConfidence
  {
    if |xs| > 0 {
      var tail := xs[1..];
      assert Descending(tail, ScoreOf);
      ThresholdPrefix(tail, minConfidence);
      var c := Confident(tail, minConfidence);
      if xs[0].score > minConfidence {
        assert xs[..|c| + 1] == [xs[0]] + tail[..|c|];
      } else {
        if |c| > 0 {
          assert ScoreOf(xs[0]) >= ScoreOf(xs[1]);
        }
      }
    }
  }

  /** What `Predict` selects: at most `topK` classes, each scoring strictly above the
      threshold, ranked by descending score with ties in ascending class order; they
      are the longest prefix of the full ranking within the first `topK` that clears
      the threshold, so no class outside the top K is reported. */
  lemma SelectSpec(probs: seq<int>, topK: int, minConfidence: int)
    ensures var r := Select(probs, topK, minConfidence);
            && |r| <= |probs| && (topK <= 0 ==> |r| == 0) && (topK > 0 ==> |r| <= topK)
            && (forall i :: 0 <= i < |r| ==> r[i].score > minConfidence)
            && RankedBy(r, ScoreOf, IndexOf)
            && r == Ranked(probs)[..|r|]
            && (|r| < |Take(Ranked(probs), topK)| ==> Ranked(probs)[|r|].score <= minConfidence)
  {
    var ranked := Ranked(probs);
    var top := Take(ranked, topK);
    SortRanked(Indexed(probs), ScoreOf, IndexOf);
    assert RankedBy(top, ScoreOf, IndexOf);
    RankedDescending(top, ScoreOf, IndexOf);
    ThresholdPrefix(top, minConfidence);
    var r := Select(probs, topK, minConfidence);
    assert top[..|r|] == ranked[..|r|];
  }

  /** The ranking holds every class exactly once. */
  lemma RankedIsPermutation(probs: seq<int>)
    ensures multiset(Ranked(probs)) == multiset(Indexed(probs))
  {
  }

  datatype PredictFault = LabelIndexOutOfRange(index: nat)

  /** `string.Format("{0}:{1}", label, score)`, the score shown by `show`. */
  function Entry(name: string, shown: string): string {
    name + ":" + shown
  }

  /** Index of the first selected class with no label, if any. */
  function FirstUnlabelled(labels: seq<string>, r: seq<Scored>): (k: Option<nat>)
    ensures k.None? <==> forall i :: 0 <= i < |r| ==> r[i].index < |labels|
    ensures k.Some? ==> k.value < |r| && r[k.value].index >= |labels|
    ensures k.Some? ==> forall i :: 0 <= i < k.value ==> r[i].index < |labels|
  {
    if |r| == 0 then None
    else if r[0].index >= |labels| then Some(0)
    else match FirstUnlabelled(labels, r[1..])
      case None => None
      case Some(k) => Some(k + 1)
  }

  /** `string.Join("; ", r.Select(kv => Format("{0}:{1}", labelMap[kv.Key], kv.Value)))`;
      a class beyond the label map raises `IndexOutOfRangeException`. */
  function Format(labels: seq<string>, r: seq<Scored>, show: int -> string): (out: Result<string, PredictFault>)
    ensures out.Ok? <==> forall i :: 0 <= i < |r| ==> r[i].index < |labels|
    ensures out.Ok? && |r| == 0 ==> out.value == ""
  {
    match FirstUnlabelled(labels, r)
    case Some(k) => Err(LabelIndexOutOfRange(r[k].index))
    case None =>
      Ok(Join(seq(|r|, i requires 0 <= i < |r| => Entry(labels[r[i].index], show(r[i].score))), EntrySep))
  }

  /** `CaffePredictor.Predict` once the network has produced `probs`. */
  function Predict(labels: seq<string>, probs: seq<int>, topK: int, minConfidence: int,
                   show: int -> string): Result<string, PredictFault>
  {
    Format(labels, Select(probs, topK, minConfidence), show)
  }

  // ------------------------------------------------------------ reading the result back

  /** The parts of a `"; "` join, seen as a `;` split: every part after the first
      keeps the space that followed the semicolon. */
  function Spaced(parts: seq<string>): (r: seq<string>)
    ensures |r| == |parts|
  {
    seq(|parts|, i requires 0 <= i < |parts| => if i == 0 then parts[i] else " " + parts[i])
  }

  lemma {:induction false} JoinSpaced(parts: seq<string>)
    ensures Join(parts, EntrySep) == Join(Spaced(parts), [';'])
  {
    if |parts| > 1 {
      var tail := parts[1..];
      JoinSpaced(tail);
      if |tail| > 1 {
        assert Join(Spaced(tail), [';']) == tail[0] + ";" + Join(Spaced(tail)[1..], [';']);
        assert Spaced(parts)[1..][1..] == Spaced(tail)[1..];
        assert Join(Spaced(parts)[1..], [';']) == " " + tail[0] + ";" + Join(Spaced(tail)[1..], [';']);
      } else {
        assert Join(Spaced(parts)[1..], [';']) == " " + tail[0];
      }
    }
  }

  /** A leading white-space character does not survive `Trim`. */
  lemma TrimLeadingWhite(w: char, s: string)
    requires IsWhite(w)
    ensures Trim([w] + s) == Trim(s)
  {
    assert ([w] + s)[1..] == s;
  }

  /** The candidate name for one formatted entry is its lower-cased, trimmed label. */
  lemma EntryName(name: string, shown: string, lead: bool)
    requires ':' !in name
    ensures Grading.CandidateName((if lead then " " else "") + Entry(name, shown)) == ToLower(Trim(name))
  {
    var pre: string := if lead then " " else "";
    var head := pre + name;
    assert pre + Entry(name, shown) == head + [':'] + shown;
    assert ':' !in head;
    SplitFirst(head, ':', shown);
    assert Split(pre + Entry(name, shown), ':')[0] == head;
    if lead {
      assert head == [' '] + name;
      TrimLeadingWhite(' ', name);
    } else {
      assert head == name;
    }
  }

  /** The formatted string splits on `;` into its entries, each after the first led
      by the space of the separator. */
  lemma SplitFormatted(parts: seq<string>)
    requires |parts| > 0
    requires forall i :: 0 <= i < |parts| ==> ';' !in parts[i]
    ensures Split(Join(parts, EntrySep), ';') == Spaced(parts)
  {
    JoinSpaced(parts);
    var spaced := Spaced(parts);
    forall i | 0 <= i < |spaced| ensures ';' !in spaced[i] {
      if i > 0 {
        assert spaced[i] == [' '] + parts[i];
      }
    }
    SplitJoin(spaced, ';');
  }

  /** Grading a non-empty prediction recovers its labels: the first five candidates the
      accuracy pass reads from the formatted string are the first five selected labels,
      trimmed and lower-cased, provided no label holds `;` or `:` and no shown score
      holds `;`. */
  lemma FormatGradesBack(labels: seq<string>, r: seq<Scored>, show: int -> string)
    requires 0 < |r|
    requires forall i :: 0 <= i < |r| ==> r[i].index < |labels|
    requires forall i :: 0 <= i < |labels| ==> ';' !in labels[i] && ':' !in labels[i]
    requires forall i :: 0 <= i < |r| ==> ';' !in show(r[i].score)
    ensures Format(labels, r, show).Ok?
    ensures var names := Grading.Candidates(Format(labels, r, show).value);
            && |names| == (if |r| < Grading.MaxCandidates then |r| else Grading.MaxCandidates)
            && forall i :: 0 <= i < |names| ==> names[i] == ToLower(Trim(labels[r[i].index]))
  {
    var parts := seq(|r|, i requires 0 <= i < |r| => Entry(labels[r[i].index], show(r[i].score)));
    var text := Format(labels, r, show).value;
    assert text == Join(parts, EntrySep);
    forall i | 0 <= i < |parts| ensures ';' !in parts[i] {
      assert ';' !in labels[r[i].index];
    }
    SplitFormatted(parts);
    var spaced := Spaced(parts);
    var names := Grading.Candidates(text);
    forall i | 0 <= i < |names|
      ensures names[i] == ToLower(Trim(labels[r[i].index]))
    {
      var e := Entry(labels[r[i].index], show(r[i].score));
      assert parts[i] == e;
      assert spaced[i] == (if i > 0 then " " else "") + e;
      assert names[i] == Grading.CandidateName(spaced[i]);
      EntryName(labels[r[i].index], show(r[i].score), i > 0);
    }
  }
}
