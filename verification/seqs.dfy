/** Order-preserving sequence operations shared by every filter and group-by of
    the model: `Array.prototype.filter`, `Array.prototype.map` and the notion of
    an order-preserving subsequence. */
module Seqs {

  /** `xs.filter(p)`: the elements satisfying `p`, in their original order. */
  function Filter<T(!new)>(xs: seq<T>, p: T -> bool): (r: seq<T>)
    ensures |r| <= |xs|
    ensures forall x :: x in r <==> x in xs && p(x)
    ensures IsSubsequence(r, xs)
  {
    if |xs| == 0 then []
    else
      var rest := Filter(xs[1..], p);
      SubsequenceCons(rest, xs[1..], xs[0]);
      if p(xs[0]) then [xs[0]] + rest else rest
  }

  /** `xs.map(f)`. */
  function Map<T, U>(xs: seq<T>, f: T -> U): (r: seq<U>)
    ensures |r| == |xs|
    ensures forall i :: 0 <= i < |xs| ==> r[i] == f(xs[i])
  {
    if |xs| == 0 then [] else [f(xs[0])] + Map(xs[1..], f)
  }

  /** `a` is obtained from `b` by deleting elements, keeping the order. */
  predicate IsSubsequence<T(==)>(a: seq<T>, b: seq<T>)
    decreases |b|
  {
    if |a| == 0 then true
    else if |b| == 0 then false
    else (a[0] == b[0] && IsSubsequence(a[1..], b[1..])) || IsSubsequence(a, b[1..])
  }

  lemma SubsequenceCons<T>(a: seq<T>, b: seq<T>, x: T)
    requires IsSubsequence(a, b)
    ensures IsSubsequence(a, [x] + b)
    ensures IsSubsequence([x] + a, [x] + b)
  {
    assert ([x] + b)[1..] == b;
    assert ([x] + a)[1..] == a;
  }

  lemma SubsequenceRefl<T>(a: seq<T>)
    ensures IsSubsequence(a, a)
  {
    if |a| > 0 {
      SubsequenceRefl(a[1..]);
    }
  }

  /** Filtering with two predicates that agree everywhere gives the same sequence. */
  lemma FilterExt<T(!new)>(xs: seq<T>, p: T -> bool, q: T -> bool)
    requires forall x :: p(x) == q(x)
    ensures Filter(xs, p) == Filter(xs, q)
  {
    if |xs| > 0 {
      FilterExt(xs[1..], p, q);
    }
  }

  /** A predicate that holds everywhere on `xs` keeps all of it. */
  lemma {:induction false} FilterAll<T(!new)>(xs: seq<T>, p: T -> bool)
    requires forall x :: x in xs ==> p(x)
    ensures Filter(xs, p) == xs
  {
    if |xs| > 0 {
      assert forall x :: x in xs[1..] ==> x in xs;
      FilterAll(xs[1..], p);
    }
  }

  /** The conjunction of two predicates. */
  function And<T(!new)>(p: T -> bool, q: T -> bool): (pq: T -> bool)
    ensures forall x :: pq(x) == (p(x) && q(x))
  {
    x => p(x) && q(x)
  }

  /** Two successive filters are one filter with the conjunction. */
  lemma {:induction false} FilterFilter<T(!new)>(xs: seq<T>, p: T -> bool, q: T -> bool)
    ensures Filter(Filter(xs, p), q) == Filter(xs, And(p, q))
  {
    if |xs| > 0 {
      FilterFilter(xs[1..], p, q);
      var rest := Filter(xs[1..], p);
      if p(xs[0]) {
        assert Filter(xs, p) == [xs[0]] + rest;
        assert ([xs[0]] + rest)[1..] == rest;
      }
    }
  }

  /** Filtering a concatenation filters each part. */
  lemma {:induction false} FilterAppend<T(!new)>(xs: seq<T>, ys: seq<T>, p: T -> bool)
    ensures Filter(xs + ys, p) == Filter(xs, p) + Filter(ys, p)
  {
    if |xs| == 0 {
      assert xs + ys == ys;
    } else {
      assert (xs + ys)[0] == xs[0];
      assert (xs + ys)[1..] == xs[1..] + ys;
      FilterAppend(xs[1..], ys, p);
    }
  }

  /** Count of the elements satisfying `p`. */
  function Count<T(!new)>(xs: seq<T>, p: T -> bool): (n: nat)
    ensures n <= |xs|
  {
    |Filter(xs, p)|
  }

  /** `d3.sum(xs, w)`. */
  function Sum<T>(xs: seq<T>, w: T -> int): int {
    if |xs| == 0 then 0 else w(xs[0]) + Sum(xs[1..], w)
  }

  lemma {:induction false} SumAppend<T>(xs: seq<T>, ys: seq<T>, w: T -> int)
    ensures Sum(xs + ys, w) == Sum(xs, w) + Sum(ys, w)
  {
    if |xs| == 0 {
      assert xs + ys == ys;
    } else {
      assert (xs + ys)[0] == xs[0];
      assert (xs + ys)[1..] == xs[1..] + ys;
      SumAppend(xs[1..], ys, w);
    }
  }

  /** No element occurs twice. */
  predicate Distinct<T(==)>(xs: seq<T>) {
    forall i, j :: 0 <= i < j < |xs| ==> xs[i] != xs[j]
  }

  /** A new element in front of distinct ones keeps them distinct. */
  lemma DistinctCons<T>(x: T, xs: seq<T>)
    requires Distinct(xs) && x !in xs
    ensures Distinct([x] + xs)
  {
    var ys := [x] + xs;
    forall i, j | 0 <= i < j < |ys|
      ensures ys[i] != ys[j]
    {
      assert ys[j] == xs[j - 1];
      if i > 0 {
        assert ys[i] == xs[i - 1];
      }
    }
  }

  /** Position of the first `v` in `xs`, or `|xs|` when there is none. */
  function First<T(==)>(xs: seq<T>, v: T): (i: nat)
    ensures i <= |xs|
    ensures i < |xs| ==> xs[i] == v
    ensures v !in xs[..i]
  {
    if |xs| == 0 then 0
    else if xs[0] == v then 0
    else
      var i := First(xs[1..], v);
      assert xs[..1 + i] == [xs[0]] + xs[1..][..i];
      1 + i
  }

  lemma {:induction false} FirstAppend<T>(xs: seq<T>, x: T, v: T)
    requires v in xs
    ensures First(xs + [x], v) == First(xs, v)
  {
    if xs[0] != v {
      assert (xs + [x])[1..] == xs[1..] + [x];
      FirstAppend(xs[1..], x, v);
    }
  }

  /** `Array.from(new Set(xs))`: the distinct elements, in the order they
      are first seen. */
  function Dedup<T(==, !new)>(xs: seq<T>): (d: seq<T>)
    ensures Distinct(d)
    ensures forall v :: v in d <==> v in xs
  {
    if |xs| == 0 then []
    else
      var prefix := xs[..|xs| - 1];
      var d := Dedup(prefix);
      var x := xs[|xs| - 1];
      assert xs == prefix + [x];
      if x in d then d else d + [x]
  }

  /** The distinct elements keep the order of their first appearance. */
  lemma {:induction false} DedupFirstSeen<T(!new)>(xs: seq<T>)
    ensures forall i, j :: 0 <= i < j < |Dedup(xs)| ==> First(xs, Dedup(xs)[i]) < First(xs, Dedup(xs)[j])
  {
    if |xs| > 0 {
      var prefix := xs[..|xs| - 1];
      var x := xs[|xs| - 1];
      assert xs == prefix + [x];
      DedupFirstSeen(prefix);
      var d := Dedup(prefix);
      forall v | v in d
        ensures First(xs, v) == First(prefix, v) < |prefix|
      {
        FirstAppend(prefix, x, v);
      }
      if x !in d {
        assert First(xs, x) == |prefix| by {
          assert x !in prefix;
          assert xs[|prefix|] == x;
          assert xs[..|prefix|] == prefix;
        }
      }
    }
  }
}
