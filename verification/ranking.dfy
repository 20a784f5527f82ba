/** LINQ `OrderByDescending(key)`: a stable sort on an integer key. Both the
    predictor's top-K selection and the offline evaluation tool's confidence ranking use it. */
module Ranking {

  /** Keys never increase along `xs`. */
  predicate Descending<T>(xs: seq<T>, key: T -> int) {
    forall i, j :: 0 <= i < j < |xs| ==> key(xs[i]) >= key(xs[j])
  }

  /** Positions strictly increase along `xs`. */
  predicate Ascending<T>(xs: seq<T>, pos: T -> int) {
    forall i, j :: 0 <= i < j < |xs| ==> pos(xs[i]) < pos(xs[j])
  }

  /** Ordered by descending key, and among equal keys by ascending position. */
  predicate RankedBy<T>(xs: seq<T>, key: T -> int, pos: T -> int) {
    forall i, j :: 0 <= i < j < |xs| ==>
      key(xs[i]) > key(xs[j]) || (key(xs[i]) == key(xs[j]) && pos(xs[i]) < pos(xs[j]))
  }

  /** Puts `x` in front of the first element whose key is not larger than its own. */
  function Insert<T>(x: T, s: seq<T>, key: T -> int): (r: seq<T>)
    ensures |r| == |s| + 1
    ensures multiset(r) == multiset{x} + multiset(s)
  {
    if |s| == 0 || key(x) >= key(s[0]) then [x] + s
    else
      assert s == [s[0]] + s[1..];
      [s[0]] + Insert(x, s[1..], key)
  }

  /** `OrderByDescending(key)` by insertion from the back: an earlier element is
      inserted in front of later ones with the same key, so the sort is stable. */
  function SortDesc<T>(xs: seq<T>, key: T -> int): (r: seq<T>)
    ensures |r| == |xs|
    ensures multiset(r) == multiset(xs)
  {
    if |xs| == 0 then []
    else
      assert xs == [xs[0]] + xs[1..];
      Insert(xs[0], SortDesc(xs[1..], key), key)
  }

  /** Every element of `Insert(x, s, key)` is `x` or an element of `s`. */
  lemma InsertMember<T>(x: T, s: seq<T>, key: T -> int, y: T)
    requires y in Insert(x, s, key)
    ensures y == x || y in s
  {
    assert y in multiset(Insert(x, s, key));
  }

  /** Inserting into a ranked sequence an element that comes before all of its
      elements keeps it ranked. */
  lemma {:induction false} InsertRanked<T>(x: T, s: seq<T>, key: T -> int, pos: T -> int)
    requires RankedBy(s, key, pos)
    requires forall k :: 0 <= k < |s| ==> pos(x) < pos(s[k])
    ensures RankedBy(Insert(x, s, key), key, pos)
  {
    if |s| > 0 && key(x) < key(s[0]) {
      var tail := s[1..];
      var t := Insert(x, tail, key);
      InsertRanked(x, tail, key, pos);
      var r := [s[0]] + t;
      forall i, j | 0 <= i < j < |r|
        ensures key(r[i]) > key(r[j]) || (key(r[i]) == key(r[j]) && pos(r[i]) < pos(r[j]))
      {
        if i == 0 {
          var y := t[j - 1];
          InsertMember(x, tail, key, y);
          if y != x {
            var k :| 0 <= k < |tail| && tail[k] == y;
            assert s[k + 1] == y;
          }
        } else {
          assert r[i] == t[i - 1] && r[j] == t[j - 1];
        }
      }
    }
  }

  /** Sorting a sequence whose positions ascend ranks it by descending key and, among
      equal keys, in the original order: `OrderByDescending` is stable. */
  lemma {:induction false} SortRanked<T>(xs: seq<T>, key: T -> int, pos: T -> int)
    requires Ascending(xs, pos)
    ensures RankedBy(SortDesc(xs, key), key, pos)
  {
    if |xs| > 0 {
      var rest := SortDesc(xs[1..], key);
      SortRanked(xs[1..], key, pos);
      forall k | 0 <= k < |rest| ensures pos(xs[0]) < pos(rest[k]) {
        assert rest[k] in multiset(xs[1..]);
        var m :| 0 <= m < |xs[1..]| && xs[1..][m] == rest[k];
        assert xs[m + 1] == rest[k];
      }
      InsertRanked(xs[0], rest, key, pos);
    }
  }

  lemma {:induction false} InsertDescending<T>(x: T, s: seq<T>, key: T -> int)
    requires Descending(s, key)
    ensures Descending(Insert(x, s, key), key)
  {
    if |s| > 0 && key(x) < key(s[0]) {
      var tail := s[1..];
      var t := Insert(x, tail, key);
      InsertDescending(x, tail, key);
      var r := [s[0]] + t;
      forall i, j | 0 <= i < j < |r| ensures key(r[i]) >= key(r[j]) {
        if i == 0 {
          var y := t[j - 1];
          InsertMember(x, tail, key, y);
          if y != x {
            var k :| 0 <= k < |tail| && tail[k] == y;
            assert s[k + 1] == y;
          }
        } else {
          assert r[i] == t[i - 1] && r[j] == t[j - 1];
        }
      }
    }
  }

  /** Whatever the input, the sort yields keys in descending order. */
  lemma {:induction false} SortDescending<T>(xs: seq<T>, key: T -> int)
    ensures Descending(SortDesc(xs, key), key)
  {
    if |xs| > 0 {
      SortDescending(xs[1..], key);
      InsertDescending(xs[0], SortDesc(xs[1..], key), key);
    }
  }

  /** A ranked sequence is sorted by descending key. */
  lemma RankedDescending<T>(xs: seq<T>, key: T -> int, pos: T -> int)
    requires RankedBy(xs, key, pos)
    ensures Descending(xs, key)
  {
  }
}
