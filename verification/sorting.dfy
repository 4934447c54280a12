/** The step `zip(xs, ys).sorted { a, b in a.0 < b.0 }` of `Interpol.swift`,
    with the projections `map { $0.0 }` and `map { $0.1 }`. The sort is
    modelled as an insertion sort on the key; `SortedPermutationUnique` shows
    that for distinct keys every correct sort returns the same sequence, so
    the choice of algorithm does not matter. */
module Sorting {

  function Keys<V>(s: seq<(real, V)>): (r: seq<real>)
    ensures |r| == |s| && forall k :: 0 <= k < |s| ==> r[k] == s[k].0
  {
    seq(|s|, k requires 0 <= k < |s| => s[k].0)
  }

  function Values<V>(s: seq<(real, V)>): (r: seq<V>)
    ensures |r| == |s| && forall k :: 0 <= k < |s| ==> r[k] == s[k].1
  {
    seq(|s|, k requires 0 <= k < |s| => s[k].1)
  }

  /** `zip(xs, ys)` for equally long sequences. */
  function Pair<V>(xs: seq<real>, vs: seq<V>): (r: seq<(real, V)>)
    requires |xs| == |vs|
    ensures |r| == |xs| && Keys(r) == xs && Values(r) == vs
  {
    seq(|xs|, k requires 0 <= k < |xs| => (xs[k], vs[k]))
  }

  predicate Distinct(xs: seq<real>)
  {
    forall i, j :: 0 <= i < |xs| && 0 <= j < |xs| && i != j ==> xs[i] != xs[j]
  }

  predicate StrictlyIncreasing(xs: seq<real>)
  {
    forall i, j :: 0 <= i < j < |xs| ==> xs[i] < xs[j]
  }

  ghost predicate KeysStrictlyIncreasing<V>(s: seq<(real, V)>)
  {
    forall i, j :: 0 <= i < j < |s| ==> s[i].0 < s[j].0
  }

  ghost predicate KeysNondecreasing<V>(s: seq<(real, V)>)
  {
    forall i, j :: 0 <= i < j < |s| ==> s[i].0 <= s[j].0
  }

  ghost predicate DistinctKeys<V>(s: seq<(real, V)>)
  {
    forall i, j :: 0 <= i < |s| && 0 <= j < |s| && i != j ==> s[i].0 != s[j].0
  }

  /** Inserts `p` in front of the first element whose key is not smaller. */
  function Insert<V>(p: (real, V), s: seq<(real, V)>): (r: seq<(real, V)>)
    ensures |r| == |s| + 1
    ensures multiset(r) == multiset(s) + multiset{p}
  {
    if |s| == 0 then
      [p]
    else if s[0].0 < p.0 then
      assert s == [s[0]] + s[1..];
      [s[0]] + Insert(p, s[1..])
    else
      [p] + s
  }

  lemma {:induction false} InsertKeepsOrder<V>(p: (real, V), s: seq<(real, V)>)
    requires KeysNondecreasing(s)
    ensures KeysNondecreasing(Insert(p, s))
    decreases |s|
  {
    if |s| > 0 && s[0].0 < p.0 {
      InsertKeepsOrder(p, s[1..]);
      var rest := Insert(p, s[1..]);
      forall k | 0 <= k < |rest|
        ensures s[0].0 <= rest[k].0
      {
        assert rest[k] in multiset(s[1..]) + multiset{p};
        if rest[k] in multiset(s[1..]) {
          var m :| 0 <= m < |s[1..]| && s[1..][m] == rest[k];
          assert s[m + 1] == rest[k];
        }
      }
    }
  }

  function SortByKey<V>(s: seq<(real, V)>): (r: seq<(real, V)>)
    ensures |r| == |s|
    ensures multiset(r) == multiset(s)
  {
    if |s| == 0 then []
    else
      assert s == [s[0]] + s[1..];
      Insert(s[0], SortByKey(s[1..]))
  }

  /** The sorted keys never decrease. */
  lemma {:induction false} SortByKeyOrdered<V>(s: seq<(real, V)>)
    ensures KeysNondecreasing(SortByKey(s))
    decreases |s|
  {
    if |s| > 0 {
      SortByKeyOrdered(s[1..]);
      InsertKeepsOrder(s[0], SortByKey(s[1..]));
    }
  }

  /** With distinct keys the sorted keys are strictly increasing. */
  lemma SortByKeyStrict<V>(s: seq<(real, V)>)
    requires Distinct(Keys(s))
    ensures KeysStrictlyIncreasing(SortByKey(s))
  {
    var r := SortByKey(s);
    SortByKeyOrdered(s);
    forall i, j | 0 <= i < j < |r|
      ensures r[i].0 < r[j].0
    {
      if r[i].0 == r[j].0 {
        assert r[i] in multiset(s) && r[j] in multiset(s);
        var a :| 0 <= a < |s| && s[a] == r[i];
        var b :| 0 <= b < |s| && s[b] == r[j];
        if a != b {
          assert false;
        } else {
          Duplicate(r, i, j);
          MultiplicityOfDistinctKeys(s, r[i]);
          assert false;
        }
      }
    }
  }

  lemma Duplicate<T>(s: seq<T>, i: nat, j: nat)
    requires i < j < |s| && s[i] == s[j]
    ensures multiset(s)[s[i]] >= 2
  {
    var a, b, c := s[..i], s[i..j], s[j..];
    assert s == a + b + c;
    assert b[0] == s[i] && c[0] == s[i];
    assert multiset(b)[s[i]] >= 1;
    assert multiset(c)[s[i]] >= 1;
  }

  lemma {:induction false} MultiplicityOfDistinctKeys<V>(s: seq<(real, V)>, v: (real, V))
    requires Distinct(Keys(s))
    ensures multiset(s)[v] <= 1
    decreases |s|
  {
    if |s| > 0 {
      var rest := s[1..];
      assert s == [s[0]] + rest;
      assert Keys(rest) == Keys(s)[1..];
      MultiplicityOfDistinctKeys(rest, v);
    }
  }

  /** Two sequences sorted by strictly increasing keys that hold the same pairs
      are the same sequence: the result of sorting does not depend on the
      sorting algorithm. */
  lemma {:induction false} SortedPermutationUnique<V>(a: seq<(real, V)>, b: seq<(real, V)>)
    requires KeysStrictlyIncreasing(a) && KeysStrictlyIncreasing(b)
    requires multiset(a) == multiset(b)
    ensures a == b
    decreases |a|
  {
    if |a| == 0 {
      assert |b| == |multiset(b)| == 0;
    } else {
      SameFirst(a, b);
      TailsSameMultiset(a, b);
      SortedPermutationUnique(a[1..], b[1..]);
    }
  }

  /** Both sequences start with the pair of least key. */
  lemma SameFirst<V>(a: seq<(real, V)>, b: seq<(real, V)>)
    requires KeysStrictlyIncreasing(a) && KeysStrictlyIncreasing(b)
    requires multiset(a) == multiset(b) && |a| > 0
    ensures |b| > 0 && b[0] == a[0]
  {
    assert |b| == |multiset(b)| == |a|;
    assert a[0] in multiset(b);
    assert b[0] in multiset(a);
    var i :| 0 <= i < |b| && b[i] == a[0];
    var j :| 0 <= j < |a| && a[j] == b[0];
    assert a[0].0 <= a[j].0 == b[0].0 <= b[i].0 == a[0].0;
  }

  lemma TailsSameMultiset<T>(a: seq<T>, b: seq<T>)
    requires |a| > 0 && |b| > 0 && a[0] == b[0]
    requires multiset(a) == multiset(b)
    ensures multiset(a[1..]) == multiset(b[1..])
  {
    assert a == [a[0]] + a[1..];
    assert b == [b[0]] + b[1..];
    assert multiset(a) == multiset{a[0]} + multiset(a[1..]);
    assert multiset(b) == multiset{a[0]} + multiset(b[1..]);
    forall v
      ensures multiset(a[1..])[v] == multiset(b[1..])[v]
    {
      assert multiset(a)[v] == multiset{a[0]}[v] + multiset(a[1..])[v];
      assert multiset(b)[v] == multiset{a[0]}[v] + multiset(b[1..])[v];
    }
  }

  /** Sorting leaves an already strictly sorted sequence unchanged. */
  lemma SortByKeyOfSorted<V>(s: seq<(real, V)>)
    requires KeysStrictlyIncreasing(s)
    ensures SortByKey(s) == s
  {
    var r := SortByKey(s);
    assert Distinct(Keys(s));
    SortByKeyStrict(s);
    SortedPermutationUnique(r, s);
  }

  /** Replaces the value of every pair, keeping the keys. */
  function MapValues<V, W>(s: seq<(real, V)>, f: V -> W): (r: seq<(real, W)>)
    ensures |r| == |s| && forall k :: 0 <= k < |s| ==> r[k] == (s[k].0, f(s[k].1))
  {
    seq(|s|, k requires 0 <= k < |s| => (s[k].0, f(s[k].1)))
  }

  /** The order chosen by the sort depends on the keys only, so sorting
      commutes with changing the values. */
  lemma {:induction false} SortByKeyMapValues<V, W>(s: seq<(real, V)>, f: V -> W)
    ensures SortByKey(MapValues(s, f)) == MapValues(SortByKey(s), f)
    decreases |s|
  {
    if |s| > 0 {
      assert MapValues(s, f)[1..] == MapValues(s[1..], f);
      SortByKeyMapValues(s[1..], f);
      InsertMapValues(s[0], SortByKey(s[1..]), f);
    }
  }

  lemma {:induction false} InsertMapValues<V, W>(p: (real, V), s: seq<(real, V)>, f: V -> W)
    ensures Insert((p.0, f(p.1)), MapValues(s, f)) == MapValues(Insert(p, s), f)
    decreases |s|
  {
    if |s| > 0 {
      var ms := MapValues(s, f);
      assert ms[1..] == MapValues(s[1..], f);
      if s[0].0 < p.0 {
        InsertMapValues(p, s[1..], f);
        MapValuesCons(s[0], Insert(p, s[1..]), f);
      } else {
        MapValuesCons(p, s, f);
      }
    }
  }

  lemma MapValuesCons<V, W>(p: (real, V), s: seq<(real, V)>, f: V -> W)
    ensures MapValues([p] + s, f) == [(p.0, f(p.1))] + MapValues(s, f)
  {
  }
}
