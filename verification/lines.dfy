/** Text files as sequences of lines: `StreamWriter.WriteLine` ends every line with
    the Windows line terminator, and `File.ReadLines` cuts a text at every carriage
    return, line feed, or carriage return followed by a line feed. */
module TextLines {
  import opened Wrappers

  /** The terminator `WriteLine` appends (`Environment.NewLine` on Windows). */
  const NewLine: string := "\r\n"

  predicate IsBreak(c: char) {
    c == '\r' || c == '\n'
  }

  /** No line break inside. */
  predicate Unbroken(s: string) {
    forall k :: 0 <= k < |s| ==> !IsBreak(s[k])
  }

  /** Unbroken texts are those holding neither break character. */
  lemma UnbrokenChars(s: string)
    ensures Unbroken(s) <==> '\r' !in s && '\n' !in s
  {
    if !Unbroken(s) {
      var k :| 0 <= k < |s| && IsBreak(s[k]);
      assert s[k] in s;
    }
  }

  /** Position of the first line break. */
  function FirstBreak(s: string): (r: Option<nat>)
    ensures r.None? <==> Unbroken(s)
    ensures r.Some? ==> r.value < |s| && IsBreak(s[r.value]) && Unbroken(s[..r.value])
  {
    if |s| == 0 then None
    else if IsBreak(s[0]) then Some(0)
    else match FirstBreak(s[1..])
      case None => None
      case Some(i) =>
        assert s[..i + 1] == [s[0]] + s[1..][..i];
        Some(i + 1)
  }

  /** Where the text after the break at `i` starts: a carriage return followed by a
      line feed is one break. */
  function AfterBreak(s: string, i: nat): (j: nat)
    requires i < |s|
    ensures i < j <= |s|
  {
    if s[i] == '\r' && i + 1 < |s| && s[i + 1] == '\n' then i + 2 else i + 1
  }

  /** `File.ReadLines`: the lines of a text; the break ending the last line is
      optional, so an empty text has no line. */
  function ReadLines(text: string): (lines: seq<string>)
    ensures forall i :: 0 <= i < |lines| ==> Unbroken(lines[i])
    decreases |text|
  {
    match FirstBreak(text)
    case None => if |text| == 0 then [] else [text]
    case Some(i) => [text[..i]] + ReadLines(text[AfterBreak(text, i)..])
  }

  /** The text `WriteLine` produces for the lines, in order. */
  function WriteLines(lines: seq<string>): (text: string)
    ensures |text| >= 2 * |lines|
  {
    if |lines| == 0 then "" else lines[0] + NewLine + WriteLines(lines[1..])
  }

  /** A break with no break before it is the first break. */
  lemma {:induction false} FirstBreakAt(s: string, i: nat)
    requires i < |s| && IsBreak(s[i]) && Unbroken(s[..i])
    ensures FirstBreak(s) == Some(i)
    decreases i
  {
    if i > 0 {
      assert s[0] == s[..i][0];
      assert s[1..][..i - 1] == s[..i][1..];
      FirstBreakAt(s[1..], i - 1);
    }
  }

  /** The first break of `a + b` is the first break of `a` when `a` has one. */
  lemma FirstBreakPrefix(a: string, b: string)
    requires FirstBreak(a).Some?
    ensures FirstBreak(a + b) == FirstBreak(a)
  {
    var i := FirstBreak(a).value;
    assert (a + b)[..i] == a[..i];
    FirstBreakAt(a + b, i);
  }

  /** A text that ends with a line feed is read on its own, whatever follows it. */
  lemma {:induction false} ReadLinesAppend(a: string, b: string)
    requires |a| > 0 && a[|a| - 1] == '\n'
    ensures ReadLines(a + b) == ReadLines(a) + ReadLines(b)
    decreases |a|
  {
    var s := a + b;
    assert IsBreak(a[|a| - 1]);
    FirstBreakPrefix(a, b);
    var i := FirstBreak(a).value;
    var j := AfterBreak(a, i);
    assert AfterBreak(s, i) == j by {
      if i + 1 < |a| {
        assert s[i] == a[i] && s[i + 1] == a[i + 1];
      } else {
        assert a[i] == '\n';
      }
    }
    assert s[..i] == a[..i];
    assert s[j..] == a[j..] + b;
    if j == |a| {
      assert a[j..] == [];
    } else {
      assert a[j..][|a[j..]| - 1] == '\n';
      ReadLinesAppend(a[j..], b);
    }
  }

  /** A line without breaks, written and read back, is that line. */
  lemma ReadWrittenLine(l: string)
    requires Unbroken(l)
    ensures ReadLines(l + NewLine) == [l]
  {
    var s := l + NewLine;
    assert s[|l|] == '\r';
    assert s[..|l|] == l;
    FirstBreakAt(s, |l|);
    assert AfterBreak(s, |l|) == |s|;
    assert s[|s|..] == "";
  }

  /** A line feed inside a written line splits it into two lines when read back. */
  lemma ReadInnerFeed(l1: string, l2: string)
    requires Unbroken(l1) && Unbroken(l2)
    ensures ReadLines(WriteLines([l1 + "\n" + l2])) == [l1, l2]
  {
    var a := l1 + "\n";
    assert a[..|l1|] == l1;
    FirstBreakAt(a, |l1|);
    assert a[|a|..] == "";
    assert ReadLines(a) == [l1];
    assert WriteLines([l1 + "\n" + l2]) == a + (l2 + NewLine);
    ReadLinesAppend(a, l2 + NewLine);
    ReadWrittenLine(l2);
  }

  /** Lines without breaks survive being written and read back. */
  lemma {:induction false} ReadBackUnbroken(lines: seq<string>)
    requires forall i :: 0 <= i < |lines| ==> Unbroken(lines[i])
    ensures ReadLines(WriteLines(lines)) == lines
    decreases |lines|
  {
    if |lines| > 0 {
      var head := lines[0] + NewLine;
      assert WriteLines(lines) == head + WriteLines(lines[1..]);
      assert head[|head| - 1] == '\n';
      ReadLinesAppend(head, WriteLines(lines[1..]));
      ReadWrittenLine(lines[0]);
      ReadBackUnbroken(lines[1..]);
      assert lines == [lines[0]] + lines[1..];
    }
  }
}
