/** `Collection.binarySearch(predicate:)` of `Interpol.swift`: the partition
    point of a predicate that holds on a prefix of the collection and fails on
    the rest. */
module Search {

  /** The predicate is true on a prefix and false on the remaining suffix. */
  ghost predicate Partitioned<T>(s: seq<T>, p: T -> bool)
  {
    forall i, j :: 0 <= i < j < |s| && p(s[j]) ==> p(s[i])
  }

  /** One pass of the `while low != high` loop from `[low, high)`, with the
      midpoint `low + (high - low) / 2`. */
  function SearchRange<T>(s: seq<T>, p: T -> bool, low: nat, high: nat): (n: nat)
    requires low <= high <= |s|
    ensures low <= n <= high
    ensures Partitioned(s, p) ==> forall k :: low <= k < n ==> p(s[k])
    ensures Partitioned(s, p) ==> forall k :: n <= k < high ==> !p(s[k])
    decreases high - low
  {
    if low == high then low
    else
      var mid := low + (high - low) / 2;
      if p(s[mid]) then SearchRange(s, p, mid + 1, high) else SearchRange(s, p, low, mid)
  }

  /** `binarySearch`: always an index in `[0, |s|]`; for a partitioned
      predicate, the index that splits the elements satisfying it from the
      rest. */
  function BinarySearch<T>(s: seq<T>, p: T -> bool): (n: nat)
    ensures n <= |s|
    ensures Partitioned(s, p) ==> forall k :: 0 <= k < n ==> p(s[k])
    ensures Partitioned(s, p) ==> forall k :: n <= k < |s| ==> !p(s[k])
  {
    SearchRange(s, p, 0, |s|)
  }

  /** The same search written as the source's loop. It terminates for any
      predicate, partitioned or not, and finds the partition point when
      there is one. */
  method BinarySearchLoop<T>(s: seq<T>, p: T -> bool) returns (low: nat)
    ensures low <= |s|
    ensures Partitioned(s, p) ==> forall k :: 0 <= k < low ==> p(s[k])
    ensures Partitioned(s, p) ==> forall k :: low <= k < |s| ==> !p(s[k])
    ensures low == BinarySearch(s, p)
  {
    low := 0;
    var high := |s|;
    while low != high
      invariant low <= high <= |s|
      invariant SearchRange(s, p, low, high) == SearchRange(s, p, 0, |s|)
      decreases high - low
    {
      var mid := low + (high - low) / 2;
      if p(s[mid]) {
        low := mid + 1;
      } else {
        high := mid;
      }
    }
  }

  /** Partition point of `{ $0 <= x }` over a strictly increasing sequence. */
  lemma SearchLessEqual(xs: seq<real>, x: real, k: nat)
    requires forall i, j :: 0 <= i < j < |xs| ==> xs[i] < xs[j]
    requires k < |xs| && xs[k] <= x
    requires k + 1 < |xs| ==> x < xs[k + 1]
    ensures BinarySearch(xs, (v: real) => v <= x) == k + 1
  {
    var p := (v: real) => v <= x;
    assert Partitioned(xs, p);
  }
}
