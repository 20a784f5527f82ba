/** The two `System.IO.Path` operations the configuration readers use to resolve file
    names against the configuration file's directory, with Windows separators. */
module Paths {
  import opened Wrappers

  /** `Path.DirectorySeparatorChar`. */
  const Sep: char := '\\'
  /** `Path.AltDirectorySeparatorChar`. */
  const AltSep: char := '/'
  /** `Path.VolumeSeparatorChar`. */
  const VolumeSep: char := ':'

  predicate IsSep(c: char) {
    c == Sep || c == AltSep
  }

  /** Index of the last directory separator of `p`. */
  function LastSep(p: string): (r: Option<nat>)
    ensures r.None? <==> forall k :: 0 <= k < |p| ==> !IsSep(p[k])
    ensures r.Some? ==> r.value < |p| && IsSep(p[r.value])
    ensures r.Some? ==> forall k :: r.value < k < |p| ==> !IsSep(p[k])
  {
    if |p| == 0 then None
    else if IsSep(p[|p| - 1]) then Some(|p| - 1)
    else LastSep(p[..|p| - 1])
  }

  /** `Path.GetDirectoryName`: the text before the last separator; the empty text
      when there is none, and the root itself when that separator leads the path. */
  function DirectoryName(p: string): string
  {
    match LastSep(p)
    case None => ""
    case Some(i) => if i == 0 then p[..1] else p[..i]
  }

  /** The text after the last separator (`Path.GetFileName`). */
  function FileName(p: string): string
  {
    match LastSep(p)
    case None => p
    case Some(i) => p[i + 1..]
  }

  /** `Path.IsPathRooted`: a leading separator or a drive letter. */
  predicate IsRooted(p: string) {
    (|p| > 0 && IsSep(p[0])) || (|p| >= 2 && p[1] == VolumeSep)
  }

  /** `Path.Combine(dir, file)`. */
  function Combine(dir: string, file: string): string
  {
    if |file| == 0 then dir
    else if |dir| == 0 || IsRooted(file) then file
    else if IsSep(dir[|dir| - 1]) || dir[|dir| - 1] == VolumeSep then dir + file
    else dir + [Sep] + file
  }

  /** A rooted file name replaces the directory; otherwise the file name is appended
      to the directory, with one separator unless the directory already ends with one. */
  lemma CombineSpec(dir: string, file: string)
    ensures |file| > 0 && IsRooted(file) ==> Combine(dir, file) == file
    ensures |file| > 0 && !IsRooted(file) && |dir| > 0 ==>
              exists glue :: |glue| <= 1 && Combine(dir, file) == dir + glue + file
    ensures |file| == 0 ==> Combine(dir, file) == dir
  {
    if |file| > 0 && !IsRooted(file) && |dir| > 0 {
      if IsSep(dir[|dir| - 1]) || dir[|dir| - 1] == VolumeSep {
        assert Combine(dir, file) == dir + [] + file;
      } else {
        assert Combine(dir, file) == dir + [Sep] + file;
      }
    }
  }

  /** Splitting a plain relative path at its last separator and combining the parts
      gives the path back. */
  lemma CombineSplit(d: string, n: string)
    requires |d| > 0 && !IsSep(d[|d| - 1]) && d[|d| - 1] != VolumeSep
    requires |n| > 0 && !IsRooted(n)
    requires forall k :: 0 <= k < |n| ==> !IsSep(n[k])
    ensures DirectoryName(d + [Sep] + n) == d
    ensures FileName(d + [Sep] + n) == n
    ensures Combine(DirectoryName(d + [Sep] + n), FileName(d + [Sep] + n)) == d + [Sep] + n
  {
    var p := d + [Sep] + n;
    assert IsSep(p[|d|]);
    assert forall k :: |d| < k < |p| ==> p[k] == n[k - |d| - 1];
    assert LastSep(p) == Some(|d|);
    assert p[..|d|] == d;
    assert p[|d| + 1..] == n;
  }
}
