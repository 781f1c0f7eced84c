/** `d3.rollups(data, reduce, key)`: the records grouped by key, groups in the
    order their key is first seen, members in input order. The reductions the
    dashboard uses are `v => v` (the members) and `v => v.length` (their
    count). */
module Grouping {
  import opened Seqs

  datatype Group<K, T> = Group(key: K, members: seq<T>)

  /** The elements of `xs` whose key is `k`, in input order. */
  function Matching<T, K(==)>(xs: seq<T>, key: T -> K, k: K): (r: seq<T>)
    ensures |r| <= |xs|
    ensures forall x :: x in r ==> x in xs && key(x) == k
  {
    if |xs| == 0 then []
    else
      var last := xs[|xs| - 1];
      Matching(xs[..|xs| - 1], key, k) + (if key(last) == k then [last] else [])
  }

  /** Position of the group with key `k`, or `|gs|` when there is none. */
  function KeyIndex<K(==), T>(gs: seq<Group<K, T>>, k: K): (i: nat)
    ensures i <= |gs|
    ensures i < |gs| ==> gs[i].key == k
    ensures forall j :: 0 <= j < i ==> gs[j].key != k
  {
    if |gs| == 0 then 0
    else if gs[0].key == k then 0
    else 1 + KeyIndex(gs[1..], k)
  }

  /** Position of the first element of `xs` whose key is `k`, or `|xs|` when
      there is none. */
  function FirstWithKey<T, K(==)>(xs: seq<T>, key: T -> K, k: K): (i: nat)
    ensures i <= |xs|
    ensures i < |xs| ==> key(xs[i]) == k
    ensures forall j :: 0 <= j < i ==> key(xs[j]) != k
  {
    if |xs| == 0 then 0
    else if key(xs[0]) == k then 0
    else
      var i := FirstWithKey(xs[1..], key, k);
      assert forall j :: 1 <= j < 1 + i ==> xs[j] == xs[1..][j - 1];
      1 + i
  }

  /** Appending an element leaves every first position already reached. */
  lemma {:induction false} FirstWithKeyAppend<T, K>(xs: seq<T>, x: T, key: T -> K, k: K)
    ensures FirstWithKey(xs + [x], key, k) ==
      if FirstWithKey(xs, key, k) < |xs| then FirstWithKey(xs, key, k)
      else if key(x) == k then |xs| else |xs| + 1
  {
    if |xs| > 0 && key(xs[0]) != k {
      assert (xs + [x])[1..] == xs[1..] + [x];
      FirstWithKeyAppend(xs[1..], x, key, k);
    }
  }

  predicate HasKey<K(==), T>(gs: seq<Group<K, T>>, k: K) {
    KeyIndex(gs, k) < |gs|
  }

  predicate DistinctKeys<K(==), T>(gs: seq<Group<K, T>>) {
    forall i, j :: 0 <= i < j < |gs| ==> gs[i].key != gs[j].key
  }

  /** Sum of the group sizes. */
  function TotalSize<K, T>(gs: seq<Group<K, T>>): nat {
    if |gs| == 0 then 0 else |gs[0].members| + TotalSize(gs[1..])
  }

  lemma {:induction false} TotalSizeUpdate<K, T>(gs: seq<Group<K, T>>, i: nat, g: Group<K, T>)
    requires i < |gs|
    ensures TotalSize(gs[i := g]) == TotalSize(gs) - |gs[i].members| + |g.members|
  {
    if i > 0 {
      assert gs[i := g][1..] == gs[1..][i - 1 := g];
      TotalSizeUpdate(gs[1..], i - 1, g);
    }
  }

  lemma {:induction false} TotalSizeAppend<K, T>(gs: seq<Group<K, T>>, g: Group<K, T>)
    ensures TotalSize(gs + [g]) == TotalSize(gs) + |g.members|
  {
    if |gs| > 0 {
      assert (gs + [g])[1..] == gs[1..] + [g];
      TotalSizeAppend(gs[1..], g);
    }
  }

  /** One step of the rollup: `x` joins the group of key `k`, which is
      created at the end when it does not exist yet. */
  function AddMember<K(==), T>(gs: seq<Group<K, T>>, k: K, x: T): (r: seq<Group<K, T>>)
    requires DistinctKeys(gs)
    ensures DistinctKeys(r)
    ensures TotalSize(r) == TotalSize(gs) + 1
  {
    var i := KeyIndex(gs, k);
    if i < |gs| then
      TotalSizeUpdate(gs, i, Group(k, gs[i].members + [x]));
      gs[i := Group(k, gs[i].members + [x])]
    else
      TotalSizeAppend(gs, Group(k, [x]));
      gs + [Group(k, [x])]
  }

  /** `d3.rollups(xs, v => v, key)`. */
  function GroupBy<T, K(==)>(xs: seq<T>, key: T -> K): (r: seq<Group<K, T>>)
    ensures DistinctKeys(r)
    ensures TotalSize(r) == |xs|
  {
    if |xs| == 0 then []
    else
      var last := xs[|xs| - 1];
      AddMember(GroupBy(xs[..|xs| - 1], key), key(last), last)
  }

  /** The groups come in the order their keys are first seen in `xs`. */
  lemma {:induction false} GroupByFirstSeen<T, K>(xs: seq<T>, key: T -> K)
    ensures forall i :: 0 <= i < |GroupBy(xs, key)| ==> FirstWithKey(xs, key, GroupBy(xs, key)[i].key) < |xs|
    ensures forall i, j :: 0 <= i < j < |GroupBy(xs, key)| ==>
      FirstWithKey(xs, key, GroupBy(xs, key)[i].key) < FirstWithKey(xs, key, GroupBy(xs, key)[j].key)
  {
    if |xs| > 0 {
      var prefix := xs[..|xs| - 1];
      var last := xs[|xs| - 1];
      assert xs == prefix + [last];
      var gs := GroupBy(prefix, key);
      GroupByFirstSeen(prefix, key);
      var k := key(last);
      var r := GroupBy(xs, key);
      assert r == AddMember(gs, k, last);
      forall i | 0 <= i < |gs|
        ensures FirstWithKey(xs, key, gs[i].key) == FirstWithKey(prefix, key, gs[i].key)
      {
        FirstWithKeyAppend(prefix, last, key, gs[i].key);
      }
      if KeyIndex(gs, k) < |gs| {
        assert forall i :: 0 <= i < |r| ==> r[i].key == gs[i].key;
      } else {
        GroupByMembers(prefix, key);
        assert forall j :: 0 <= j < |prefix| ==> key(prefix[j]) != k;
        FirstWithKeyAppend(prefix, last, key, k);
        assert r == gs + [Group(k, [last])];
      }
    }
  }

  /** Each group holds exactly the elements with its key, in input order,
      and every element's key has a group. */
  lemma {:induction false} GroupByMembers<T, K>(xs: seq<T>, key: T -> K)
    ensures var r := GroupBy(xs, key);
      && (forall i :: 0 <= i < |r| ==> r[i].members == Matching(xs, key, r[i].key) && |r[i].members| > 0)
      && (forall j :: 0 <= j < |xs| ==> HasKey(r, key(xs[j])))
  {
    if |xs| > 0 {
      var prefix := xs[..|xs| - 1];
      var last := xs[|xs| - 1];
      var gs := GroupBy(prefix, key);
      GroupByMembers(prefix, key);
      var k := key(last);
      var r := GroupBy(xs, key);
      assert r == AddMember(gs, k, last);
      var i := KeyIndex(gs, k);
      assert xs[..|xs| - 1] == prefix;
      if i < |gs| {
        forall j | 0 <= j < |r|
          ensures r[j].members == Matching(xs, key, r[j].key) && |r[j].members| > 0
        {
          if j != i {
            assert r[j] == gs[j];
            assert gs[j].key != k;
          }
        }
        forall j | 0 <= j < |xs|
          ensures HasKey(r, key(xs[j]))
        {
          if j < |xs| - 1 {
            assert xs[j] == prefix[j];
            KeyIndexStable(gs, i, Group(k, gs[i].members + [last]), key(xs[j]));
          } else {
            KeyIndexStable(gs, i, Group(k, gs[i].members + [last]), k);
          }
        }
      } else {
        MatchingNone(prefix, key, k, gs);
        forall j | 0 <= j < |r|
          ensures r[j].members == Matching(xs, key, r[j].key) && |r[j].members| > 0
        {
          if j < |gs| {
            assert r[j] == gs[j];
            assert gs[j].key != k;
          }
        }
        forall j | 0 <= j < |xs|
          ensures HasKey(r, key(xs[j]))
        {
          if j < |xs| - 1 {
            assert xs[j] == prefix[j];
            KeyIndexAppend(gs, Group(k, [last]), key(xs[j]));
          } else {
            KeyIndexAppend(gs, Group(k, [last]), k);
          }
        }
      }
    }
  }

  lemma KeyIndexStable<K, T>(gs: seq<Group<K, T>>, i: nat, g: Group<K, T>, k: K)
    requires i < |gs| && g.key == gs[i].key && HasKey(gs, k)
    ensures HasKey(gs[i := g], k)
  {
    var j := KeyIndex(gs, k);
    var r := gs[i := g];
    assert r[j].key == k;
    KeyIndexFound(r, j, k);
  }

  lemma KeyIndexAppend<K, T>(gs: seq<Group<K, T>>, g: Group<K, T>, k: K)
    requires HasKey(gs, k) || g.key == k
    ensures HasKey(gs + [g], k)
  {
    var r := gs + [g];
    if HasKey(gs, k) {
      var j := KeyIndex(gs, k);
      assert r[j].key == k;
      KeyIndexFound(r, j, k);
    } else {
      KeyIndexFound(r, |gs|, k);
    }
  }

  lemma {:induction false} KeyIndexFound<K, T>(gs: seq<Group<K, T>>, j: nat, k: K)
    requires j < |gs| && gs[j].key == k
    ensures HasKey(gs, k)
  {
    if j > 0 && gs[0].key != k {
      KeyIndexFound(gs[1..], j - 1, k);
    }
  }

  /** No element has key `k` when no group does. */
  lemma {:induction false} MatchingNone<T, K>(xs: seq<T>, key: T -> K, k: K, gs: seq<Group<K, T>>)
    requires forall j :: 0 <= j < |xs| ==> HasKey(gs, key(xs[j]))
    requires !HasKey(gs, k)
    ensures Matching(xs, key, k) == []
  {
    if |xs| > 0 {
      assert forall j :: 0 <= j < |xs| - 1 ==> xs[..|xs| - 1][j] == xs[j];
      MatchingNone(xs[..|xs| - 1], key, k, gs);
      assert HasKey(gs, key(xs[|xs| - 1]));
    }
  }

  /** Sum of the sizes of the groups whose key satisfies `p`. */
  function SizeWhere<K, T>(gs: seq<Group<K, T>>, p: K -> bool): nat {
    if |gs| == 0 then 0 else (if p(gs[0].key) then |gs[0].members| else 0) + SizeWhere(gs[1..], p)
  }

  lemma {:induction false} SizeWhereUpdate<K, T>(gs: seq<Group<K, T>>, i: nat, g: Group<K, T>, p: K -> bool)
    requires i < |gs| && g.key == gs[i].key
    ensures SizeWhere(gs[i := g], p) + (if p(g.key) then |gs[i].members| else 0)
      == SizeWhere(gs, p) + (if p(g.key) then |g.members| else 0)
  {
    if i > 0 {
      assert gs[i := g][1..] == gs[1..][i - 1 := g];
      SizeWhereUpdate(gs[1..], i - 1, g, p);
    }
  }

  lemma {:induction false} SizeWhereAppend<K, T>(gs: seq<Group<K, T>>, g: Group<K, T>, p: K -> bool)
    ensures SizeWhere(gs + [g], p) == SizeWhere(gs, p) + (if p(g.key) then |g.members| else 0)
  {
    if |gs| > 0 {
      assert (gs + [g])[1..] == gs[1..] + [g];
      SizeWhereAppend(gs[1..], g, p);
    } else {
      assert (gs + [g])[1..] == [];
    }
  }

  /** `x => p(key(x))`. */
  function KeyHolds<T, K>(key: T -> K, p: K -> bool): T -> bool {
    x => p(key(x))
  }

  /** The groups whose key satisfies `p` hold exactly the elements whose key
      satisfies `p`. */
  lemma {:induction false} GroupBySizeWhere<T(!new), K>(xs: seq<T>, key: T -> K, p: K -> bool)
    ensures SizeWhere(GroupBy(xs, key), p) == |Filter(xs, KeyHolds(key, p))|
  {
    if |xs| > 0 {
      var prefix := xs[..|xs| - 1];
      var last := xs[|xs| - 1];
      GroupBySizeWhere(prefix, key, p);
      var gs := GroupBy(prefix, key);
      var k := key(last);
      var i := KeyIndex(gs, k);
      if i < |gs| {
        SizeWhereUpdate(gs, i, Group(k, gs[i].members + [last]), p);
      } else {
        SizeWhereAppend(gs, Group(k, [last]), p);
      }
      assert xs == prefix + [last];
      FilterAppend(prefix, [last], KeyHolds(key, p));
      assert [last][1..] == [];
    }
  }

  /** Filtering keeps group keys distinct. */
  lemma {:induction false} DistinctKeysFilter<K(!new), T(!new)>(gs: seq<Group<K, T>>, p: Group<K, T> -> bool)
    requires DistinctKeys(gs)
    ensures DistinctKeys(Filter(gs, p))
  {
    if |gs| > 0 {
      DistinctKeysFilter(gs[1..], p);
      var rest := Filter(gs[1..], p);
      if p(gs[0]) {
        forall j | 0 <= j < |rest|
          ensures gs[0].key != rest[j].key
        {
          assert rest[j] in gs[1..];
        }
      }
    }
  }

  /** The group with its key replaced by `dec(key)`. */
  function Rekey<J, K, T>(dec: J -> K): Group<J, T> -> Group<K, T> {
    (g: Group<J, T>) => Group(dec(g.key), g.members)
  }

  lemma {:induction false} KeyIndexRekey<J, K, T>(gs: seq<Group<J, T>>, hs: seq<Group<K, T>>, j: J, k: K)
    requires |gs| == |hs|
    requires forall i :: 0 <= i < |gs| ==> (gs[i].key == j <==> hs[i].key == k)
    ensures KeyIndex(gs, j) == KeyIndex(hs, k)
  {
    if |gs| > 0 && gs[0].key != j {
      KeyIndexRekey(gs[1..], hs[1..], j, k);
    }
  }

  lemma RekeyUpdate<J, K, T>(gs: seq<Group<J, T>>, hs: seq<Group<K, T>>, dec: J -> K, i: nat, j: J, k: K, x: T)
    requires Map(gs, Rekey(dec)) == hs && i < |gs| && dec(j) == k
    ensures Map(gs[i := Group(j, gs[i].members + [x])], Rekey(dec)) == hs[i := Group(k, hs[i].members + [x])]
  {
    var left := Map(gs[i := Group(j, gs[i].members + [x])], Rekey(dec));
    var right := hs[i := Group(k, hs[i].members + [x])];
    forall n | 0 <= n < |left|
      ensures left[n] == right[n]
    {
      assert hs[n] == Rekey(dec)(gs[n]);
    }
  }

  lemma RekeyAppend<J, K, T>(gs: seq<Group<J, T>>, hs: seq<Group<K, T>>, dec: J -> K, j: J, k: K, x: T)
    requires Map(gs, Rekey(dec)) == hs && dec(j) == k
    ensures Map(gs + [Group(j, [x])], Rekey(dec)) == hs + [Group(k, [x])]
  {
    var left := Map(gs + [Group(j, [x])], Rekey(dec));
    var right := hs + [Group(k, [x])];
    forall n | 0 <= n < |left|
      ensures left[n] == right[n]
    {
      if n < |gs| {
        assert hs[n] == Rekey(dec)(gs[n]);
      }
    }
  }

  /** The two groupings of a prefix find the next element's group at the
      same place. */
  lemma RekeyKeyIndex<T, J, K>(xs: seq<T>, key: T -> K, jkey: T -> J, dec: J -> K, x: T)
    requires forall y :: y in xs ==> dec(jkey(y)) == key(y)
    requires forall y, z :: y in xs + [x] && z in xs + [x] ==> (jkey(y) == jkey(z) <==> key(y) == key(z))
    requires Map(GroupBy(xs, jkey), Rekey(dec)) == GroupBy(xs, key)
    ensures KeyIndex(GroupBy(xs, jkey), jkey(x)) == KeyIndex(GroupBy(xs, key), key(x))
  {
    var gs := GroupBy(xs, jkey);
    var hs := GroupBy(xs, key);
    GroupByMembers(xs, jkey);
    forall i | 0 <= i < |gs|
      ensures gs[i].key == jkey(x) <==> hs[i].key == key(x)
    {
      var m := gs[i].members[0];
      assert m in Matching(xs, jkey, gs[i].key);
      assert hs[i] == Rekey(dec)(gs[i]);
    }
    KeyIndexRekey(gs, hs, jkey(x), key(x));
  }

  /** Grouping by another key that separates the elements the same way, then
      decoding the group keys, is grouping by the key itself. */
  lemma {:induction false} GroupByRekey<T, J, K>(xs: seq<T>, key: T -> K, jkey: T -> J, dec: J -> K)
    requires forall x :: x in xs ==> dec(jkey(x)) == key(x)
    requires forall x, y :: x in xs && y in xs ==> (jkey(x) == jkey(y) <==> key(x) == key(y))
    ensures Map(GroupBy(xs, jkey), Rekey(dec)) == GroupBy(xs, key)
  {
    if |xs| > 0 {
      var prefix := xs[..|xs| - 1];
      var last := xs[|xs| - 1];
      assert xs == prefix + [last];
      assert forall x :: x in prefix ==> x in xs;
      GroupByRekey(prefix, key, jkey, dec);
      var gs := GroupBy(prefix, jkey);
      var hs := GroupBy(prefix, key);
      RekeyKeyIndex(prefix, key, jkey, dec, last);
      var i := KeyIndex(gs, jkey(last));
      if i < |gs| {
        RekeyUpdate(gs, hs, dec, i, jkey(last), key(last), last);
      } else {
        RekeyAppend(gs, hs, dec, jkey(last), key(last), last);
      }
    }
  }
}
