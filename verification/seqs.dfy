/** Generic sequence helpers mirroring the LINQ operators the harness uses. */
module Seqs {

  /** Number of elements of `xs` that satisfy `p`. */
  function CountIf<T>(xs: seq<T>, p: T -> bool): (n: nat)
    ensures n <= |xs|
  {
    if |xs| == 0 then 0
    else CountIf(xs[..|xs| - 1], p) + (if p(xs[|xs| - 1]) then 1 else 0)
  }

  /** Mapping a non-empty sequence maps its head, then its tail. */
  lemma MapCons<T, U>(xs: seq<T>, f: T -> U)
    requires |xs| > 0
    ensures Map(xs, f) == [f(xs[0])] + Map(xs[1..], f)
  {
  }

  /** A prefix is a shorter prefix followed by the elements between. */
  lemma PrefixSplit<T>(xs: seq<T>, a: nat, b: nat)
    requires a <= b <= |xs|
    ensures xs[..b] == xs[..a] + xs[..b][a..]
  {
    assert xs[..b][..a] == xs[..a];
  }

  lemma CountIfAppend<T>(xs: seq<T>, ys: seq<T>, p: T -> bool)
    ensures CountIf(xs + ys, p) == CountIf(xs, p) + CountIf(ys, p)
    decreases |ys|
  {
    if |ys| == 0 {
      assert xs + ys == xs;
    } else {
      assert (xs + ys)[..|xs + ys| - 1] == xs + ys[..|ys| - 1];
      CountIfAppend(xs, ys[..|ys| - 1], p);
    }
  }

  /** When every element satisfies `p`, all of them are counted. */
  lemma {:induction false} CountAll<T>(xs: seq<T>, p: T -> bool)
    requires forall i :: 0 <= i < |xs| ==> p(xs[i])
    ensures CountIf(xs, p) == |xs|
  {
    if |xs| > 0 {
      CountAll(xs[..|xs| - 1], p);
    }
  }

  /** LINQ `Where`: keeps the elements satisfying `p`, in order. */
  function Filter<T(!new)>(xs: seq<T>, p: T -> bool): (r: seq<T>)
    ensures |r| == CountIf(xs, p)
    ensures forall x :: x in r <==> x in xs && p(x)
  {
    if |xs| == 0 then []
    else Filter(xs[..|xs| - 1], p) + (if p(xs[|xs| - 1]) then [xs[|xs| - 1]] else [])
  }

  lemma FilterAppend<T(!new)>(xs: seq<T>, ys: seq<T>, p: T -> bool)
    ensures Filter(xs + ys, p) == Filter(xs, p) + Filter(ys, p)
    decreases |ys|
  {
    if |ys| == 0 {
      assert xs + ys == xs;
    } else {
      assert (xs + ys)[..|xs + ys| - 1] == xs + ys[..|ys| - 1];
      FilterAppend(xs, ys[..|ys| - 1], p);
    }
  }

  /** LINQ `Take`: the first `n` elements, or all of them; a non-positive count takes none. */
  function Take<T>(xs: seq<T>, n: int): (r: seq<T>)
    ensures |r| == if n <= 0 then 0 else if n < |xs| then n else |xs|
    ensures r <= xs
  {
    if n <= 0 then [] else if n < |xs| then xs[..n] else xs
  }

  /** LINQ `Select`. */
  function Map<T, U>(xs: seq<T>, f: T -> U): (r: seq<U>)
    ensures |r| == |xs|
    ensures forall i :: 0 <= i < |xs| ==> r[i] == f(xs[i])
  {
    seq(|xs|, i requires 0 <= i < |xs| => f(xs[i]))
  }

  lemma MapAppend<T, U>(xs: seq<T>, ys: seq<T>, f: T -> U)
    ensures Map(xs + ys, f) == Map(xs, f) + Map(ys, f)
  {
  }

  /** Index of the first occurrence of `x` in `xs`. */
  function IndexOf<T(==)>(xs: seq<T>, x: T): (i: nat)
    requires x in xs
    ensures i < |xs| && xs[i] == x
    ensures forall j :: 0 <= j < i ==> xs[j] != x
  {
    if xs[0] == x then 0 else 1 + IndexOf(xs[1..], x)
  }

  /** Number of occurrences of `x` in `xs`. */
  function Occurrences<T(==)>(xs: seq<T>, x: T): (n: nat)
    ensures n <= |xs|
    ensures n > 0 <==> x in xs
  {
    if |xs| == 0 then 0
    else Occurrences(xs[..|xs| - 1], x) + (if xs[|xs| - 1] == x then 1 else 0)
  }

  /** No two elements of `xs` have the same image under `f`. */
  ghost predicate DistinctImages<T, U>(xs: seq<T>, f: T -> U) {
    forall i, j :: 0 <= i < j < |xs| ==> f(xs[i]) != f(xs[j])
  }

  /** The images of the elements of `xs` under `f`. */
  ghost function Image<T, U>(xs: seq<T>, f: T -> U): set<U> {
    set i | 0 <= i < |xs| :: f(xs[i])
  }

  lemma ImageSnoc<T, U>(init: seq<T>, last: T, f: T -> U)
    ensures Image(init + [last], f) == Image(init, f) + {f(last)}
  {
    var xs := init + [last];
    forall u | u in Image(xs, f) ensures u in Image(init, f) + {f(last)} {
      var i :| 0 <= i < |xs| && f(xs[i]) == u;
      if i < |init| { assert xs[i] == init[i]; }
    }
    forall u | u in Image(init, f) ensures u in Image(xs, f) {
      var i :| 0 <= i < |init| && f(init[i]) == u;
      assert xs[i] == init[i];
      assert f(xs[i]) == u;
    }
    assert f(xs[|init|]) in Image(xs, f);
  }

  lemma DistinctImagesSnoc<T, U>(init: seq<T>, last: T, f: T -> U)
    ensures DistinctImages(init + [last], f) <==>
            DistinctImages(init, f) && f(last) !in Image(init, f)
  {
    var xs := init + [last];
    assert forall i :: 0 <= i < |init| ==> xs[i] == init[i];
    if DistinctImages(init, f) && f(last) !in Image(init, f) {
      forall i, j | 0 <= i < j < |xs|
        ensures f(xs[i]) != f(xs[j])
      {
        if j == |init| {
          assert f(init[i]) in Image(init, f);
        }
      }
    }
    if DistinctImages(xs, f) {
      forall i | 0 <= i < |init| ensures f(init[i]) != f(last) {
        assert f(xs[i]) != f(xs[|init|]);
      }
    }
  }

  /** The first occurrence of `x` is the one at `j` when no earlier element is `x`. */
  lemma IndexOfAt<T>(xs: seq<T>, x: T, j: nat)
    requires j < |xs| && xs[j] == x
    requires forall k :: 0 <= k < j ==> xs[k] != x
    ensures IndexOf(xs, x) == j
  {
  }

  /** Each element once, in order of first occurrence: the key order of LINQ `GroupBy`. */
  function Distinct<T(==,!new)>(xs: seq<T>): (d: seq<T>)
    ensures forall x :: x in d <==> x in xs
    ensures forall i, j :: 0 <= i < j < |d| ==> d[i] != d[j]
  {
    if |xs| == 0 then []
    else
      var d := Distinct(xs[..|xs| - 1]);
      if xs[|xs| - 1] in d then d else d + [xs[|xs| - 1]]
  }

  /** `Distinct` lists the elements in the order of their first occurrences. */
  lemma {:induction false} DistinctOrder<T(!new)>(xs: seq<T>)
    ensures forall i, j :: 0 <= i < j < |Distinct(xs)| ==>
              IndexOf(xs, Distinct(xs)[i]) < IndexOf(xs, Distinct(xs)[j])
  {
    if |xs| > 0 {
      var init := xs[..|xs| - 1];
      var last := xs[|xs| - 1];
      var d := Distinct(init);
      DistinctOrder(init);
      forall y | y in init ensures IndexOf(xs, y) == IndexOf(init, y) {
        IndexOfAt(xs, y, IndexOf(init, y));
      }
      if last !in d {
        IndexOfAt(xs, last, |init|);
        var e := d + [last];
        assert e == Distinct(xs);
        assert forall k :: 0 <= k < |e| ==> e[k] in xs;
        forall i, j | 0 <= i < j < |e| ensures IndexOf(xs, e[i]) < IndexOf(xs, e[j]) {
          assert e[i] == d[i] && d[i] in init;
          if j < |d| {
            assert e[j] == d[j] && d[j] in init;
          }
        }
      } else {
        forall i, j | 0 <= i < j < |d| ensures IndexOf(xs, d[i]) < IndexOf(xs, d[j]) {
          assert d[i] in init && d[j] in init;
        }
      }
    }
  }
}
