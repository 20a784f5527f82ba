/** The .NET string operations the harness relies on (`Split`, `Join`, `Trim`,
    `ToLower`, `StartsWith`, `IndexOf`, integer formatting and `Convert.ToInt32`).
    Comparisons are ordinal; `ToLower` covers the ASCII and Latin-1 letters. */
module Strings {
  import opened Wrappers

  /** `char.IsWhiteSpace`, the characters `Trim` removes: the Unicode space
      separators, U+2028, U+2029, U+0009..U+000D, U+0085 and U+00A0. */
  predicate IsWhite(c: char) {
    || NumberWhite(c)
    || c == '\U{85}' || c == '\U{A0}' || c == '\U{1680}'
    || ('\U{2000}' <= c <= '\U{200A}')
    || c == '\U{2028}' || c == '\U{2029}' || c == '\U{202F}' || c == '\U{205F}' || c == '\U{3000}'
  }

  /** The white space `Int32.Parse` skips around a number (`NumberStyles.Integer`):
      U+0009..U+000D and U+0020 only. */
  predicate NumberWhite(c: char) {
    c == ' ' || ('\U{9}' <= c <= '\U{D}')
  }

  // ---------------------------------------------------------------- Join / Split

  /** `string.Join(sep, parts)`. */
  function Join(parts: seq<string>, sep: string): string
  {
    if |parts| == 0 then ""
    else if |parts| == 1 then parts[0]
    else parts[0] + sep + Join(parts[1..], sep)
  }

  /** Position of the first `c` in `s`. */
  function FirstIndex(s: string, c: char): (i: nat)
    requires c in s
    ensures i < |s| && s[i] == c && c !in s[..i]
  {
    if s[0] == c then 0 else 1 + FirstIndex(s[1..], c)
  }

  /** `s.Split(c)`: never empty, no part holds the separator, and joining the
      parts with the separator gives `s` back. */
  function Split(s: string, c: char): (parts: seq<string>)
    ensures |parts| >= 1
    ensures forall i :: 0 <= i < |parts| ==> c !in parts[i]
    ensures Join(parts, [c]) == s
    decreases |s|
  {
    if c !in s then [s]
    else
      var i := FirstIndex(s, c);
      var rest := Split(s[i + 1..], c);
      assert s == s[..i] + [c] + s[i + 1..];
      [s[..i]] + rest
  }

  /** The first separator of `a + [c] + b` is the one after `a` when `a` holds none. */
  lemma {:induction false} FirstIndexAfter(a: string, c: char, b: string)
    requires c !in a
    ensures c in a + [c] + b && FirstIndex(a + [c] + b, c) == |a|
    decreases |a|
  {
    var s := a + [c] + b;
    assert s[|a|] == c;
    if |a| > 0 {
      assert s[0] == a[0];
      assert s[1..] == a[1..] + [c] + b;
      FirstIndexAfter(a[1..], c, b);
    }
  }

  /** Splitting a join of separator-free parts gives the parts back. */
  lemma {:induction false} SplitJoin(parts: seq<string>, c: char)
    requires |parts| >= 1
    requires forall i :: 0 <= i < |parts| ==> c !in parts[i]
    ensures Split(Join(parts, [c]), c) == parts
    decreases |parts|
  {
    if |parts| > 1 {
      var tail := Join(parts[1..], [c]);
      assert Join(parts, [c]) == parts[0] + [c] + tail;
      SplitFirst(parts[0], c, tail);
      SplitJoin(parts[1..], c);
      assert parts == [parts[0]] + parts[1..];
    }
  }

  /** A text with no separator splits into itself alone. */
  lemma SplitNoSeparator(s: string, c: char)
    requires c !in s
    ensures Split(s, c) == [s]
  {
  }

  /** Splitting `a + [c] + b` splits at that separator when `a` holds none. */
  lemma SplitFirst(a: string, c: char, b: string)
    requires c !in a
    ensures Split(a + [c] + b, c) == [a] + Split(b, c)
  {
    var s := a + [c] + b;
    FirstIndexAfter(a, c, b);
    assert s[..|a|] == a;
    assert s[|a| + 1..] == b;
  }

  /** Splitting a text that holds the separator peels off the part before its first occurrence. */
  lemma SplitUnfold(a: string, c: char)
    requires c in a
    ensures Split(a, c) == [a[..FirstIndex(a, c)]] + Split(a[FirstIndex(a, c) + 1..], c)
  {}

  /** Appending past the first separator does not change the first part. */
  lemma SplitExtend(a1: string, a2: string, c: char, b: string)
    requires c !in a1
    ensures Split(a1 + [c] + a2 + [c] + b, c) == [a1] + Split(a2 + [c] + b, c)
  {
    assert a1 + [c] + a2 + [c] + b == a1 + [c] + (a2 + [c] + b);
    SplitFirst(a1, c, a2 + [c] + b);
  }

  lemma ConsConcat(l: seq<string>, r: seq<string>, x: string, t: seq<string>, p: seq<string>, q: seq<string>)
    requires l == [x] + t && t == p + q && r == [x] + p
    ensures l == r + q
  {}

  /** A separator splits the text into the parts of its two sides. */
  lemma {:induction false} SplitAround(a: string, c: char, b: string)
    ensures Split(a + [c] + b, c) == Split(a, c) + Split(b, c)
    decreases |a|
  {
    if c !in a {
      SplitFirst(a, c, b);
    } else {
      var i := FirstIndex(a, c);
      var a2 := a[i + 1..];
      assert a == a[..i] + [c] + a2;
      SplitExtend(a[..i], a2, c, b);
      SplitUnfold(a, c);
      SplitAround(a2, c, b);
      ConsConcat(Split(a + [c] + b, c), Split(a, c), a[..i], Split(a2 + [c] + b, c), Split(a2, c), Split(b, c));
    }
  }

  /** Splitting a join yields at least one field per part. */
  lemma {:induction false} SplitJoinLength(parts: seq<string>, c: char)
    requires |parts| >= 1
    ensures |Split(Join(parts, [c]), c)| >= |parts|
    decreases |parts|
  {
    if |parts| > 1 {
      var rest := Join(parts[1..], [c]);
      assert Join(parts, [c]) == parts[0] + [c] + rest;
      SplitJoinLength(parts[1..], c);
      SplitAround(parts[0], c, rest);
    }
  }

  /** A join holds no character that neither a part nor the separator holds. */
  lemma {:induction false} JoinWithout(parts: seq<string>, sep: string, c: char)
    requires c !in sep
    requires forall i :: 0 <= i < |parts| ==> c !in parts[i]
    ensures c !in Join(parts, sep)
    decreases |parts|
  {
    if |parts| > 1 {
      JoinWithout(parts[1..], sep, c);
    }
  }

  /** Every character of a part is a character of the join. */
  lemma {:induction false} PartsWithout(parts: seq<string>, sep: string, c: char)
    requires c !in Join(parts, sep)
    ensures forall i :: 0 <= i < |parts| ==> c !in parts[i]
    decreases |parts|
  {
    if |parts| > 1 {
      var tail := Join(parts[1..], sep);
      assert Join(parts, sep) == parts[0] + (sep + tail);
      assert c !in tail by {
        assert Join(parts, sep) == (parts[0] + sep) + tail;
      }
      PartsWithout(parts[1..], sep, c);
      assert forall i :: 1 <= i < |parts| ==> parts[i] == parts[1..][i - 1];
    }
  }

  /** `s.Split(seps)` for a set of separator characters (`String.Split(char[])`). */
  function SplitAny(s: string, seps: set<char>): (parts: seq<string>)
    ensures |parts| >= 1
    ensures forall i, k :: 0 <= i < |parts| && 0 <= k < |parts[i]| ==> parts[i][k] !in seps
    ensures |parts| == 1 + CountIn(s, seps)
    decreases |s|
  {
    if |s| == 0 then [""]
    else
      var rest := SplitAny(s[1..], seps);
      assert s == [s[0]] + s[1..];
      if s[0] in seps then [""] + rest
      else [[s[0]] + rest[0]] + rest[1..]
  }

  /** Number of characters of `s` that belong to `cs`. */
  function CountIn(s: string, cs: set<char>): nat
  {
    if |s| == 0 then 0 else (if s[0] in cs then 1 else 0) + CountIn(s[1..], cs)
  }

  // ---------------------------------------------------------------- Trim

  function TrimStart(s: string): string
  {
    if |s| > 0 && IsWhite(s[0]) then TrimStart(s[1..]) else s
  }

  function TrimEnd(s: string): string
  {
    if |s| > 0 && IsWhite(s[|s| - 1]) then TrimEnd(s[..|s| - 1]) else s
  }

  /** `s.Trim()` */
  function Trim(s: string): string
  {
    TrimEnd(TrimStart(s))
  }

  lemma {:induction false} TrimStartSpec(s: string)
    ensures |TrimStart(s)| <= |s| && TrimStart(s) == s[|s| - |TrimStart(s)|..]
    ensures |TrimStart(s)| > 0 ==> !IsWhite(TrimStart(s)[0])
    ensures forall k :: 0 <= k < |s| - |TrimStart(s)| ==> IsWhite(s[k])
  {
    if |s| > 0 && IsWhite(s[0]) {
      TrimStartSpec(s[1..]);
    }
  }

  lemma {:induction false} TrimEndSpec(s: string)
    ensures |TrimEnd(s)| <= |s| && TrimEnd(s) == s[..|TrimEnd(s)|]
    ensures |TrimEnd(s)| > 0 ==> !IsWhite(TrimEnd(s)[|TrimEnd(s)| - 1])
    ensures forall k :: |TrimEnd(s)| <= k < |s| ==> IsWhite(s[k])
  {
    if |s| > 0 && IsWhite(s[|s| - 1]) {
      TrimEndSpec(s[..|s| - 1]);
    }
  }

  /** `r` is `s` with the `i` characters before it and all characters after it white. */
  predicate TrimmedAt(s: string, r: string, i: nat) {
    && i + |r| <= |s| && r == s[i..i + |r|]
    && (forall k :: 0 <= k < i ==> IsWhite(s[k]))
    && (forall k :: i + |r| <= k < |s| ==> IsWhite(s[k]))
  }

  /** `Trim` removes the white space at both ends and nothing else. */
  lemma TrimSpec(s: string)
    ensures |TrimStart(s)| <= |s|
    ensures TrimmedAt(s, Trim(s), |s| - |TrimStart(s)|)
    ensures IsTrimmed(Trim(s))
  {
    var t := TrimStart(s);
    var r := TrimEnd(t);
    TrimStartSpec(s);
    TrimEndSpec(t);
    var i := |s| - |t|;
    assert r == s[i..i + |r|] by {
      assert t == s[i..];
      assert r == t[..|r|];
    }
    forall k | i + |r| <= k < |s|
      ensures IsWhite(s[k])
    {
      assert s[k] == t[k - i];
    }
  }

  /** A text without white space at its ends is its own trim. */
  lemma TrimTrimmed(s: string)
    requires |s| > 0 ==> !IsWhite(s[0]) && !IsWhite(s[|s| - 1])
    ensures Trim(s) == s
  {
  }

  /** No white space at either end. */
  predicate IsTrimmed(s: string) {
    |s| > 0 ==> !IsWhite(s[0]) && !IsWhite(s[|s| - 1])
  }

  // ---------------------------------------------------------------- case, prefix, search

  /** `char.ToLower` on the ASCII and Latin-1 capitals (U+00D7 is not a letter). */
  function LowerChar(c: char): char {
    if 'A' <= c <= 'Z' || ('\U{C0}' <= c <= '\U{DE}' && c != '\U{D7}') then (c as int + 32) as char else c
  }

  /** `s.ToLower()` on the ASCII and Latin-1 letters. */
  function ToLower(s: string): (r: string)
    ensures |r| == |s|
    ensures forall k :: 0 <= k < |s| ==> r[k] == LowerChar(s[k])
  {
    seq(|s|, k requires 0 <= k < |s| => LowerChar(s[k]))
  }

  /** Latin-1 capitals are lower-cased along with the ASCII ones; the
      multiplication sign is not a letter and stays. */
  lemma LatinCapitalsFold()
    ensures ToLower("BEYONC\U{C9}") == "beyonc\U{E9}"
    ensures ToLower("\U{D7}") == "\U{D7}"
  {
  }

  /** Case-insensitive equality (`StringComparer.OrdinalIgnoreCase`). */
  predicate EqualsIgnoreCase(a: string, b: string) {
    ToLower(a) == ToLower(b)
  }

  predicate StartsWith(s: string, prefix: string) {
    |prefix| <= |s| && s[..|prefix|] == prefix
  }

  /** `s.IndexOf(sub) >= 0`. */
  predicate Contains(s: string, sub: string)
    decreases |s|
  {
    StartsWith(s, sub) || (|s| > 0 && Contains(s[1..], sub))
  }

  /** The empty text contains no non-empty text. */
  lemma EmptyContainsNothing(sub: string)
    requires |sub| > 0
    ensures !Contains("", sub)
  {
  }

  // ---------------------------------------------------------------- integers

  predicate IsDigit(c: char) { '0' <= c <= '9' }

  function DigitChar(d: nat): (c: char)
    requires d < 10
    ensures IsDigit(c)
  {
    ('0' as int + d) as char
  }

  /** Decimal rendering of a natural number. */
  function NatToString(n: nat): (s: string)
    ensures |s| >= 1
    ensures forall k :: 0 <= k < |s| ==> IsDigit(s[k])
  {
    if n < 10 then [DigitChar(n)] else NatToString(n / 10) + [DigitChar(n % 10)]
  }

  /** `n.ToString()` for an integer (invariant culture: `-` as the sign). */
  function IntToString(n: int): (s: string)
    ensures |s| >= 1
    ensures forall k :: 0 <= k < |s| ==> IsDigit(s[k]) || s[k] == '-'
  {
    if n < 0 then "-" + NatToString(-n) else NatToString(n)
  }

  /** An integer's text holds only digits and the sign. */
  lemma IntTextHasNo(n: int, c: char)
    requires !IsDigit(c) && c != '-'
    ensures c !in IntToString(n)
  {
    var s := IntToString(n);
    forall k | 0 <= k < |s| ensures s[k] != c {
      assert IsDigit(s[k]) || s[k] == '-';
    }
  }

  /** An integer's text has no white space around it. */
  lemma IntTextTrimmed(n: int)
    ensures Trim(IntToString(n)) == IntToString(n)
  {
    var s := IntToString(n);
    assert IsDigit(s[0]) || s[0] == '-';
    assert IsDigit(s[|s| - 1]);
    TrimTrimmed(s);
  }

  function DigitValue(c: char): nat
    requires IsDigit(c)
  {
    c as int - '0' as int
  }

  /** Value of a text of decimal digits. */
  function DigitsValue(s: string): nat
    requires forall k :: 0 <= k < |s| ==> IsDigit(s[k])
  {
    if |s| == 0 then 0
    else DigitsValue(s[..|s| - 1]) * 10 + DigitValue(s[|s| - 1])
  }

  lemma {:induction false} DigitsOfNat(n: nat)
    ensures DigitsValue(NatToString(n)) == n
  {
    var s := NatToString(n);
    if n >= 10 {
      DigitsOfNat(n / 10);
      assert s[..|s| - 1] == NatToString(n / 10);
    }
  }

  const Int32Min: int := -0x8000_0000
  const Int32Max: int := 0x7FFF_FFFF

  /** The .NET `int`. */
  type Int32 = x: int | Int32Min <= x <= Int32Max

  predicate AllDigits(s: string) {
    |s| >= 1 && forall k :: 0 <= k < |s| ==> IsDigit(s[k])
  }

  /** `Convert.ToInt32(s)`: optional number white space around an optional sign and
      at least one digit; `None` stands for the `FormatException` or `OverflowException`.
      The number is what `Trim` leaves, provided every character `Trim` removed is one
      `Int32.Parse` skips as well. */
  function ParseInt32(s: string): (r: Option<Int32>)
    ensures r.Some? ==> SignedDigits(Trim(s))
    ensures r.Some? ==> forall k :: 0 <= k < |s| && IsWhite(s[k]) ==> NumberWhite(s[k])
  {
    var t := Trim(s);
    TrimSpec(s);
    var i := |s| - |TrimStart(s)|;
    if (forall k :: 0 <= k < i ==> NumberWhite(s[k])) && (forall k :: i + |t| <= k < |s| ==> NumberWhite(s[k]))
    then
      var r := ParseSigned(t);
      assert r.Some? ==> forall k :: i <= k < i + |t| ==> !IsWhite(s[k]) by {
        if r.Some? {
          forall k | i <= k < i + |t| ensures !IsWhite(s[k]) {
            assert s[k] == t[k - i];
          }
        }
      }
      r
    else None
  }

  /** Number white space around a number is skipped; any other white space, which
      `Trim` would remove, makes the text unparsable. */
  lemma ParseSkipsOnlyNumberWhite(t: string, c: char)
    requires ParseSigned(t).Some? && IsWhite(c)
    ensures ParseInt32([c] + t) == (if NumberWhite(c) then ParseSigned(t) else None)
  {
    var s := [c] + t;
    assert IsDigit(t[|t| - 1]) by {
      assert SignedDigits(t);
    }
    assert IsDigit(t[0]) || t[0] == '-' || t[0] == '+' by {
      assert SignedDigits(t);
    }
    assert s[1..] == t;
    assert TrimStart(s) == t;
    TrimTrimmed(t);
  }

  /** An optional sign followed by at least one digit. */
  predicate SignedDigits(t: string) {
    AllDigits(t) || (|t| > 0 && (t[0] == '-' || t[0] == '+') && AllDigits(t[1..]))
  }

  function ParseSigned(t: string): (r: Option<Int32>)
    ensures r.Some? ==> SignedDigits(t)
  {
    var signed := |t| > 0 && (t[0] == '-' || t[0] == '+');
    var body := if signed then t[1..] else t;
    if !AllDigits(body) then None
    else
      var v := if signed && t[0] == '-' then -(DigitsValue(body) as int) else DigitsValue(body) as int;
      if Int32Min <= v <= Int32Max then Some(v) else None
  }

  lemma ParseNatDigits(m: nat)
    requires m <= Int32Max
    ensures ParseSigned(NatToString(m)) == Some(m)
  {
    DigitsOfNat(m);
    var t := NatToString(m);
    assert IsDigit(t[0]);
  }

  lemma ParseNegatedDigits(m: nat)
    requires m <= -Int32Min
    ensures ParseSigned("-" + NatToString(m)) == Some(-(m as int))
  {
    DigitsOfNat(m);
    var t := "-" + NatToString(m);
    assert t[1..] == NatToString(m);
  }

  /** Formatting an `int` and parsing it back gives the same `int`. */
  lemma IntRoundTrip(n: Int32)
    ensures ParseInt32(IntToString(n)) == Some(n)
  {
    var s := IntToString(n);
    assert IsTrimmed(s) by {
      assert IsDigit(s[|s| - 1]);
    }
    TrimTrimmed(s);
    if n < 0 {
      ParseNegatedDigits(-(n as int));
    } else {
      ParseNatDigits(n);
    }
  }
}
