/** Orders and sorts. `[...new Set(xs)].sort()` in JavaScript and
    `sorted(set(xs))` in Python both produce the strictly increasing sequence of
    the distinct values (`SortDistinct`); `Array.prototype.sort` with a
    comparator is a stable sort (`SortBy`). Strings compare lexicographically by
    character code. */
module Ordering {
  import opened Seqs
  import opened JsNumber

  ghost predicate IsStrictTotalOrder<T(!new)>(lt: (T, T) -> bool) {
    && (forall x :: !lt(x, x))
    && (forall x, y, z :: lt(x, y) && lt(y, z) ==> lt(x, z))
    && (forall x, y :: x != y ==> lt(x, y) || lt(y, x))
  }

  ghost predicate IsTotalPreorder<T(!new)>(le: (T, T) -> bool) {
    && (forall x, y :: le(x, y) || le(y, x))
    && (forall x, y, z :: le(x, y) && le(y, z) ==> le(x, z))
  }

  /** Lexicographic order on strings by character code. */
  predicate StrLt(a: string, b: string)
    decreases |a|
  {
    if |a| == 0 then |b| > 0
    else if |b| == 0 then false
    else if a[0] != b[0] then a[0] < b[0]
    else StrLt(a[1..], b[1..])
  }

  lemma {:induction false} StrLtIrreflexive(a: string)
    ensures !StrLt(a, a)
  {
    if |a| > 0 {
      StrLtIrreflexive(a[1..]);
    }
  }

  lemma {:induction false} StrLtTransitive(a: string, b: string, c: string)
    requires StrLt(a, b) && StrLt(b, c)
    ensures StrLt(a, c)
  {
    if |a| > 0 && |b| > 0 && |c| > 0 && a[0] == b[0] && b[0] == c[0] {
      StrLtTransitive(a[1..], b[1..], c[1..]);
    }
  }

  lemma {:induction false} StrLtTotal(a: string, b: string)
    requires a != b
    ensures StrLt(a, b) || StrLt(b, a)
  {
    if |a| > 0 && |b| > 0 && a[0] == b[0] {
      assert a == [a[0]] + a[1..] && b == [b[0]] + b[1..];
      StrLtTotal(a[1..], b[1..]);
    }
  }

  lemma StrLtIsStrictTotalOrder()
    ensures IsStrictTotalOrder(StrLt)
  {
    forall x: string
      ensures !StrLt(x, x)
    {
      StrLtIrreflexive(x);
    }
    forall x: string, y: string, z: string | StrLt(x, y) && StrLt(y, z)
      ensures StrLt(x, z)
    {
      StrLtTransitive(x, y, z);
    }
    forall x: string, y: string | x != y
      ensures StrLt(x, y) || StrLt(y, x)
    {
      StrLtTotal(x, y);
    }
  }

  lemma NumLtIsStrictTotalOrder()
    ensures IsStrictTotalOrder(NumLt)
  {
  }

  predicate StrictlySorted<T>(s: seq<T>, lt: (T, T) -> bool) {
    forall i, j :: 0 <= i < j < |s| ==> lt(s[i], s[j])
  }

  predicate SortedBy<T>(s: seq<T>, le: (T, T) -> bool) {
    forall i, j :: 0 <= i < j < |s| ==> le(s[i], s[j])
  }

  /** A strictly sorted sequence has no repeated element. */
  lemma StrictlySortedDistinct<T(!new)>(s: seq<T>, lt: (T, T) -> bool)
    requires IsStrictTotalOrder(lt) && StrictlySorted(s, lt)
    ensures forall i, j :: 0 <= i < j < |s| ==> s[i] != s[j]
  {
  }

  /** Adds `x` to a strictly sorted sequence unless it is already there. */
  function InsertDistinct<T(==, !new)>(s: seq<T>, x: T, lt: (T, T) -> bool): (r: seq<T>)
    requires IsStrictTotalOrder(lt) && StrictlySorted(s, lt)
    ensures StrictlySorted(r, lt)
    ensures forall y :: y in r <==> y in s || y == x
  {
    if |s| == 0 then [x]
    else if x == s[0] then s
    else if lt(x, s[0]) then [x] + s
    else
      var rest := InsertDistinct(s[1..], x, lt);
      assert forall y :: y in s[1..] ==> lt(s[0], y);
      [s[0]] + rest
  }

  /** The distinct values of `xs` in increasing order. */
  function SortDistinct<T(==, !new)>(xs: seq<T>, lt: (T, T) -> bool): (r: seq<T>)
    requires IsStrictTotalOrder(lt)
    ensures StrictlySorted(r, lt)
    ensures forall y :: y in r <==> y in xs
  {
    if |xs| == 0 then []
    else
      var r := InsertDistinct(SortDistinct(xs[..|xs| - 1], lt), xs[|xs| - 1], lt);
      assert xs == xs[..|xs| - 1] + [xs[|xs| - 1]];
      r
  }

  /** Two strictly sorted sequences with the same elements are equal, so
      `SortDistinct` is the only possible outcome of sorting a set. */
  lemma {:induction false} StrictlySortedUnique<T(!new)>(a: seq<T>, b: seq<T>, lt: (T, T) -> bool)
    requires IsStrictTotalOrder(lt)
    requires StrictlySorted(a, lt) && StrictlySorted(b, lt)
    requires forall y :: y in a <==> y in b
    ensures a == b
  {
    SameElementsEmpty(a, b);
    if |a| > 0 {
      assert a[0] in b && b[0] in a;
      assert a[0] == b[0];
      forall y
        ensures y in a[1..] <==> y in b[1..]
      {
        assert a == [a[0]] + a[1..] && b == [b[0]] + b[1..];
        if y in a[1..] {
          var k :| 1 <= k < |a| && a[k] == y;
          assert lt(a[0], y);
          assert y in b && y != b[0];
        }
        if y in b[1..] {
          var k :| 1 <= k < |b| && b[k] == y;
          assert lt(b[0], y);
          assert y in a && y != a[0];
        }
      }
      StrictlySortedUnique(a[1..], b[1..], lt);
      assert a == [a[0]] + a[1..] && b == [b[0]] + b[1..];
    }
  }

  lemma SameElementsEmpty<T>(a: seq<T>, b: seq<T>)
    requires forall y :: y in a <==> y in b
    ensures |a| == 0 <==> |b| == 0
  {
    if |a| > 0 {
      assert a[0] in b;
    }
    if |b| > 0 {
      assert b[0] in a;
    }
  }

  /** Inserts `x` after every element that is not greater than it, which
      keeps equal elements in arrival order. */
  function InsertBy<T(!new)>(s: seq<T>, x: T, le: (T, T) -> bool): (r: seq<T>)
    requires IsTotalPreorder(le) && SortedBy(s, le)
    ensures SortedBy(r, le)
    ensures multiset(r) == multiset(s) + multiset{x}
  {
    if |s| == 0 then [x]
    else if le(s[0], x) then
      var rest := InsertBy(s[1..], x, le);
      InsertByHead(s, x, le, rest);
      assert s == [s[0]] + s[1..];
      [s[0]] + rest
    else
      [x] + s
  }

  lemma InsertByHead<T(!new)>(s: seq<T>, x: T, le: (T, T) -> bool, rest: seq<T>)
    requires IsTotalPreorder(le) && SortedBy(s, le) && |s| > 0 && le(s[0], x)
    requires SortedBy(rest, le) && multiset(rest) == multiset(s[1..]) + multiset{x}
    ensures SortedBy([s[0]] + rest, le)
  {
    forall j | 0 <= j < |rest|
      ensures le(s[0], rest[j])
    {
      assert rest[j] in multiset(rest);
      if rest[j] != x {
        assert rest[j] in multiset(s[1..]);
        var k :| 0 <= k < |s[1..]| && s[1..][k] == rest[j];
        assert s[k + 1] == rest[j];
      }
    }
  }

  /** A stable sort: `xs.sort(cmp)` where `le(a, b)` means `cmp(a, b) <= 0`. */
  function SortBy<T(!new)>(xs: seq<T>, le: (T, T) -> bool): (r: seq<T>)
    requires IsTotalPreorder(le)
    ensures SortedBy(r, le)
    ensures multiset(r) == multiset(xs)
  {
    if |xs| == 0 then []
    else
      var r := InsertBy(SortBy(xs[..|xs| - 1], le), xs[|xs| - 1], le);
      assert xs == xs[..|xs| - 1] + [xs[|xs| - 1]];
      r
  }

  /** `a` and `b` compare equal: `cmp(a, b) == 0`. */
  predicate Tied<T>(le: (T, T) -> bool, a: T, b: T) {
    le(a, b) && le(b, a)
  }

  /** The elements of `xs` that compare equal to `y`, in order. */
  function Ties<T>(xs: seq<T>, le: (T, T) -> bool, y: T): (r: seq<T>)
    ensures forall e :: e in r ==> e in xs && Tied(le, e, y)
  {
    if |xs| == 0 then []
    else (if Tied(le, xs[0], y) then [xs[0]] else []) + Ties(xs[1..], le, y)
  }

  lemma {:induction false} TiesAppend<T>(xs: seq<T>, x: T, le: (T, T) -> bool, y: T)
    ensures Ties(xs + [x], le, y) == Ties(xs, le, y) + (if Tied(le, x, y) then [x] else [])
  {
    if |xs| > 0 {
      assert (xs + [x])[1..] == xs[1..] + [x];
      TiesAppend(xs[1..], x, le, y);
    }
  }

  lemma {:induction false} NoTies<T>(xs: seq<T>, le: (T, T) -> bool, y: T)
    requires forall i :: 0 <= i < |xs| ==> !Tied(le, xs[i], y)
    ensures Ties(xs, le, y) == []
  {
    if |xs| > 0 {
      assert forall i :: 1 <= i < |xs| ==> xs[1..][i - 1] == xs[i];
      NoTies(xs[1..], le, y);
    }
  }

  /** `InsertBy` puts `x` after every element tied with it. */
  lemma {:induction false} InsertByTies<T(!new)>(s: seq<T>, x: T, le: (T, T) -> bool, y: T)
    requires IsTotalPreorder(le) && SortedBy(s, le)
    ensures Ties(InsertBy(s, x, le), le, y) == Ties(s, le, y) + (if Tied(le, x, y) then [x] else [])
  {
    if |s| > 0 {
      var r := InsertBy(s, x, le);
      if le(s[0], x) {
        var rest := InsertBy(s[1..], x, le);
        assert r == [s[0]] + rest;
        InsertByTies(s[1..], x, le, y);
        var h := if Tied(le, s[0], y) then [s[0]] else [];
        assert r[1..] == rest;
        assert Ties(r, le, y) == h + Ties(rest, le, y);
        assert Ties(s, le, y) == h + Ties(s[1..], le, y);
        var tail := if Tied(le, x, y) then [x] else [];
        assert Ties(r, le, y) == h + (Ties(s[1..], le, y) + tail);
        assert h + (Ties(s[1..], le, y) + tail) == (h + Ties(s[1..], le, y)) + tail;
      } else {
        assert r == [x] + s;
        assert r[1..] == s;
        if Tied(le, x, y) {
          forall i | 0 <= i < |s|
            ensures !Tied(le, s[i], y)
          {
            if i > 0 {
              assert le(s[0], s[i]);
            }
          }
          NoTies(s, le, y);
        }
        assert Ties(r, le, y) == (if Tied(le, x, y) then [x] else []) + Ties(s, le, y);
      }
    } else {
      assert InsertBy(s, x, le) == [x];
      assert Ties([x], le, y) == (if Tied(le, x, y) then [x] else []) + Ties([], le, y);
    }
  }

  /** `SortBy` is stable: elements that compare equal keep their input
      order. */
  lemma {:induction false} SortByStable<T(!new)>(xs: seq<T>, le: (T, T) -> bool, y: T)
    requires IsTotalPreorder(le)
    ensures Ties(SortBy(xs, le), le, y) == Ties(xs, le, y)
  {
    if |xs| > 0 {
      var prefix := xs[..|xs| - 1];
      var last := xs[|xs| - 1];
      assert xs == prefix + [last];
      SortByStable(prefix, le, y);
      InsertByTies(SortBy(prefix, le), last, le, y);
      TiesAppend(prefix, last, le, y);
    }
  }

  /** `a` occurs somewhere before `b` in `xs`. */
  predicate Before<T(==)>(xs: seq<T>, a: T, b: T) {
    exists i, j :: 0 <= i < j < |xs| && xs[i] == a && xs[j] == b
  }

  lemma BeforeCons<T>(h: T, t: seq<T>, a: T, b: T)
    ensures Before([h] + t, a, b) <==> (h == a && b in t) || Before(t, a, b)
  {
    var xs := [h] + t;
    if Before(xs, a, b) {
      var i, j :| 0 <= i < j < |xs| && xs[i] == a && xs[j] == b;
      if i == 0 {
        assert t[j - 1] == b;
      } else {
        assert t[i - 1] == a && t[j - 1] == b;
      }
    }
    if h == a && b in t {
      var k :| 0 <= k < |t| && t[k] == b;
      assert xs[0] == a && xs[k + 1] == b;
    }
    if Before(t, a, b) {
      var i, j :| 0 <= i < j < |t| && t[i] == a && t[j] == b;
      assert xs[i + 1] == a && xs[j + 1] == b;
    }
  }

  /** Every element of `xs` tied with `y` is in the run of ties. */
  lemma {:induction false} InTies<T>(xs: seq<T>, le: (T, T) -> bool, y: T, e: T)
    requires e in xs && Tied(le, e, y)
    ensures e in Ties(xs, le, y)
  {
    if xs[0] != e {
      InTies(xs[1..], le, y, e);
    }
  }

  /** Two elements tied with `y` appear in the same order in `xs` as in
      its run of ties with `y`. */
  lemma {:induction false} TiesKeepOrder<T>(xs: seq<T>, le: (T, T) -> bool, y: T, a: T, b: T)
    requires Tied(le, a, y) && Tied(le, b, y)
    ensures Before(xs, a, b) <==> Before(Ties(xs, le, y), a, b)
  {
    if |xs| > 0 {
      var h, t := xs[0], xs[1..];
      assert xs == [h] + t;
      BeforeCons(h, t, a, b);
      TiesKeepOrder(t, le, y, a, b);
      if Tied(le, h, y) {
        assert Ties(xs, le, y) == [h] + Ties(t, le, y);
        BeforeCons(h, Ties(t, le, y), a, b);
        if b in t {
          InTies(t, le, y, b);
        }
      } else {
        assert Ties(xs, le, y) == Ties(t, le, y);
      }
    }
  }

  /** Reordering does not change a weighted sum, such as the total of the
      counts of a rollup. */
  lemma {:induction false} PermutationSum<T>(s: seq<T>, t: seq<T>, w: T -> int)
    requires multiset(s) == multiset(t)
    ensures Sum(s, w) == Sum(t, w)
  {
    if |s| == 0 {
      assert |t| == |multiset(t)| == 0;
    } else {
      var x := s[0];
      assert x in multiset(t);
      var i :| 0 <= i < |t| && t[i] == x;
      assert t == t[..i] + [x] + t[i + 1..];
      var rest := t[..i] + t[i + 1..];
      assert s == [x] + s[1..];
      assert multiset(s[1..]) == multiset(rest) by {
        assert multiset(t) == multiset(t[..i]) + multiset{x} + multiset(t[i + 1..]);
        assert multiset(s) == multiset{x} + multiset(s[1..]);
        assert multiset(rest) == multiset(t[..i]) + multiset(t[i + 1..]);
        assert multiset(s[1..]) == multiset(s) - multiset{x};
        assert multiset(rest) == multiset(t) - multiset{x};
      }
      PermutationSum(s[1..], rest, w);
      SumAppend(t[..i], t[i + 1..], w);
      SumAppend(t[..i] + [x], t[i + 1..], w);
      SumAppend(t[..i], [x], w);
    }
  }

  lemma {:induction false} DistinctMultiplicity<T>(s: seq<T>, x: T)
    requires Distinct(s)
    ensures multiset(s)[x] <= 1
  {
    if |s| > 0 {
      assert s == [s[0]] + s[1..];
      DistinctMultiplicity(s[1..], x);
      if s[0] == x {
        assert x !in s[1..];
      }
    }
  }

  /** Reordering keeps a sequence free of repetitions. */
  lemma PermutationDistinct<T>(s: seq<T>, t: seq<T>)
    requires multiset(s) == multiset(t) && Distinct(s)
    ensures Distinct(t)
  {
    forall i, j | 0 <= i < j < |t|
      ensures t[i] != t[j]
    {
      if t[i] == t[j] {
        assert t == t[..j] + [t[j]] + t[j + 1..];
        assert t[i] in multiset(t[..j]);
        assert multiset(t)[t[i]] >= 2;
        DistinctMultiplicity(s, t[i]);
        assert false;
      }
    }
  }

  /** A reordering has the same elements. */
  lemma PermutationSameElements<T>(s: seq<T>, t: seq<T>)
    requires multiset(s) == multiset(t)
    ensures forall x :: x in s <==> x in t
  {
    forall x
      ensures x in s <==> x in t
    {
      assert x in s <==> x in multiset(s);
      assert x in t <==> x in multiset(t);
    }
  }
}
