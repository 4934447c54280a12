/** `createInterpolant(xs:ys:)` of `Interpol.swift`: a monotone cubic
    (Fritsch–Butland) interpolant through the knots `(xs[k], ys[k])`.

    The closure the Swift function returns is modelled as the datatype
    `Interpolant` together with `Evaluate`, which is the closure's body. */
module Interpolation {
  import opened RealMath
  import opened Sorting
  import Search

  /** The precomputed state captured by the returned closure: the knots sorted
      by abscissa and the per-segment coefficients. */
  datatype Spline = Spline(xs: seq<real>, ys: seq<real>, c1s: seq<real>, c2s: seq<real>, c3s: seq<real>)

  /** The closure: a constant for the degenerate inputs, a spline otherwise. */
  datatype Interpolant = Constant(value: real) | Cubic(spline: Spline)

  /** At least two knots with strictly increasing abscissae, one tangent per
      knot and one pair of higher coefficients per segment. */
  predicate WellFormed(s: Spline)
  {
    |s.xs| >= 2 && |s.ys| == |s.xs| && |s.c1s| == |s.xs|
    && |s.c2s| == |s.xs| - 1 && |s.c3s| == |s.xs| - 1
    && StrictlyIncreasing(s.xs)
  }

  predicate SameSign(a: real, b: real)
  {
    (a > 0.0 && b > 0.0) || (a < 0.0 && b < 0.0)
  }

  // ---------------------------------------------------------------------
  // Slopes and tangents

  /** `zip(s.dropFirst(), s.dropLast()).map(-)`. */
  function Differences(s: seq<real>): (r: seq<real>)
    requires |s| > 0
    ensures |r| == |s| - 1
    ensures forall k :: 0 <= k < |r| ==> s[k] + r[k] == s[k + 1]
    ensures StrictlyIncreasing(s) ==> forall k :: 0 <= k < |r| ==> r[k] > 0.0
  {
    seq(|s| - 1, k requires 0 <= k < |s| - 1 => s[k + 1] - s[k])
  }

  /** `zip(dys, dxs).map(/)`: the secant slope of every segment. */
  function Slopes(dys: seq<real>, dxs: seq<real>): (r: seq<real>)
    requires |dys| == |dxs| && forall k :: 0 <= k < |dxs| ==> dxs[k] != 0.0
    ensures |r| == |dys| && forall k :: 0 <= k < |r| ==> r[k] == dys[k] / dxs[k]
  {
    seq(|dys|, k requires 0 <= k < |dys| => dys[k] / dxs[k])
  }

  /** The weighted harmonic mean of two slopes of the same sign lies between
      them, whatever the (positive) weights. */
  lemma HarmonicMeanBounds(a: real, b: real, wa: real, wb: real)
    requires a > 0.0 && b > 0.0 && wa > 0.0 && wb > 0.0
    ensures wa / a + wb / b > 0.0
    ensures Min(a, b) <= (wa + wb) / (wa / a + wb / b) <= Max(a, b)
  {
  }

  /** The same mean for two negative slopes, which mirrors the positive case. */
  lemma HarmonicMeanBoundsNegative(a: real, b: real, wa: real, wb: real)
    requires a < 0.0 && b < 0.0 && wa > 0.0 && wb > 0.0
    ensures wa / a + wb / b < 0.0
    ensures Min(a, b) <= (wa + wb) / (wa / a + wb / b) <= Max(a, b)
  {
    HarmonicMeanBounds(-a, -b, wa, wb);
    DivideByNegated(wa, a);
    DivideByNegated(wb, b);
    var mirrored := wa / (-a) + wb / (-b);
    assert wa / a + wb / b == -mirrored;
    assert (wa + wb) / (-mirrored) == -((wa + wb) / mirrored);
  }

  lemma DivideByNegated(w: real, a: real)
    requires a != 0.0
    ensures w / a == -(w / (-a))
  {
  }

  /** The interior tangent at a knot, from the slope `mi` and width `di` of the
      segment after it and the slope `mi1` and width `di1` of the segment
      before it: zero where the data is not monotone, otherwise a weighted
      harmonic mean of the two slopes. */
  function Tangent(mi: real, mi1: real, di: real, di1: real): (r: real)
    requires di > 0.0 && di1 > 0.0
    ensures r == 0.0 <==> !SameSign(mi, mi1)
    ensures SameSign(mi, mi1) ==> Min(mi, mi1) <= r <= Max(mi, mi1)
  {
    ProductSign(mi, mi1);
    if mi * mi1 <= 0.0 then
      0.0
    else
      var c := di + di1;
      assert 3.0 * c == (c + di1) + (c + di);
      if mi > 0.0 then
        HarmonicMeanBounds(mi, mi1, c + di1, c + di);
        3.0 * c / ((c + di1) / mi + (c + di) / mi1)
      else
        HarmonicMeanBoundsNegative(mi, mi1, c + di1, c + di);
        3.0 * c / ((c + di1) / mi + (c + di) / mi1)
  }

  /** `c1s = [ms.first!] + aux3 + [ms.last!]`: one tangent per knot, the
      end slopes at the two ends and the interior tangent at every other
      knot. */
  function Tangents(ms: seq<real>, dxs: seq<real>): (r: seq<real>)
    requires |ms| == |dxs| > 0 && forall k :: 0 <= k < |dxs| ==> dxs[k] > 0.0
    ensures |r| == |ms| + 1
    ensures r[0] == ms[0] && r[|ms|] == ms[|ms| - 1]
  {
    seq(|ms| + 1, k requires 0 <= k <= |ms| =>
      if k == 0 then ms[0]
      else if k == |ms| then ms[|ms| - 1]
      else Tangent(ms[k], ms[k - 1], dxs[k], dxs[k - 1]))
  }

  /** The tangents follow the slopes: at an interior knot where the data
      turns the tangent is flat, and where it is monotone the tangent lies
      between the slopes on either side. That the spline itself keeps the
      shape of the data is `InterpolationBounds.SplineBetweenKnots`. */
  lemma TangentsFollowSlopes(ms: seq<real>, dxs: seq<real>, k: nat)
    requires |ms| == |dxs| > 0 && forall k :: 0 <= k < |dxs| ==> dxs[k] > 0.0
    requires 0 < k < |ms|
    ensures var c := Tangents(ms, dxs)[k];
            && (c == 0.0 <==> !SameSign(ms[k - 1], ms[k]))
            && (SameSign(ms[k - 1], ms[k]) ==> Min(ms[k - 1], ms[k]) <= c <= Max(ms[k - 1], ms[k]))
  {
    var t := Tangent(ms[k], ms[k - 1], dxs[k], dxs[k - 1]);
    TangentAt(ms, dxs, k);
  }

  /** The tangent at an interior knot `k` comes from the segments on either
      side of it. */
  lemma TangentAt(ms: seq<real>, dxs: seq<real>, k: nat)
    requires |ms| == |dxs| > 0 && forall k :: 0 <= k < |dxs| ==> dxs[k] > 0.0
    requires 0 < k < |ms|
    ensures Tangents(ms, dxs)[k] == Tangent(ms[k], ms[k - 1], dxs[k], dxs[k - 1])
  {
  }

  // ---------------------------------------------------------------------
  // Higher coefficients and the segment cubic

  /** The degree-2 and degree-3 coefficients of one segment, from the tangents
      `ci` and `ci1` at its ends, its slope `mi` and `invDx = 1.0 / di`. */
  function Coefficient(ci1: real, ci: real, mi: real, invDx: real): (real, real)
  {
    var common := ci + ci1 - mi - mi;
    ((mi - ci - common) * invDx, common * invDx * invDx)
  }

  /** `ys[i] + c1s[i]*diff + c2s[i]*diffSq + c3s[i]*diff*diffSq`. */
  function SegmentValue(y: real, c1: real, c2: real, c3: real, diff: real): real
  {
    var diffSq := diff * diff;
    y + c1 * diff + c2 * diffSq + c3 * diff * diffSq
  }

  /** `c2s`: the degree-2 coefficient of every segment. */
  function Degree2(c1s: seq<real>, ms: seq<real>, dxs: seq<real>): (r: seq<real>)
    requires |c1s| == |ms| + 1 && |dxs| == |ms| && forall k :: 0 <= k < |dxs| ==> dxs[k] != 0.0
    ensures |r| == |ms|
    ensures forall k :: 0 <= k < |ms| ==> r[k] == Coefficient(c1s[k + 1], c1s[k], ms[k], 1.0 / dxs[k]).0
  {
    seq(|ms|, k requires 0 <= k < |ms| => Coefficient(c1s[k + 1], c1s[k], ms[k], 1.0 / dxs[k]).0)
  }

  /** `c3s`: the degree-3 coefficient of every segment. */
  function Degree3(c1s: seq<real>, ms: seq<real>, dxs: seq<real>): (r: seq<real>)
    requires |c1s| == |ms| + 1 && |dxs| == |ms| && forall k :: 0 <= k < |dxs| ==> dxs[k] != 0.0
    ensures |r| == |ms|
    ensures forall k :: 0 <= k < |ms| ==> r[k] == Coefficient(c1s[k + 1], c1s[k], ms[k], 1.0 / dxs[k]).1
  {
    seq(|ms|, k requires 0 <= k < |ms| => Coefficient(c1s[k + 1], c1s[k], ms[k], 1.0 / dxs[k]).1)
  }

  /** A quotient times its divisor is the dividend. Products in the proofs
      below are always taken of the very same terms, which is what lets the
      solver use this fact. */
  lemma QuotientTimes(q: real, a: real, b: real)
    requires b != 0.0 && q == a / b
    ensures q * b == a
  {
  }

  /** A segment cubic whose coefficients come from `Coefficient` rises by
      `mi * d` over the width `d` of its segment. */
  lemma CubicRise(y: real, y1: real, ci: real, ci1: real, mi: real, d: real, c2: real, c3: real, w: real)
    requires d != 0.0 && mi == (y1 - y) / d && w == d
    requires c2 == Coefficient(ci1, ci, mi, 1.0 / d).0
    requires c3 == Coefficient(ci1, ci, mi, 1.0 / d).1
    ensures SegmentValue(y, ci, c2, c3, w) == y1
  {
    CubicRiseByCoefficients(y, ci, ci1, mi, d);
    QuotientTimes(mi, y1 - y, d);
  }

  lemma CubicRiseByCoefficients(y: real, ci: real, ci1: real, mi: real, d: real)
    requires d != 0.0
    ensures SegmentValue(y, ci, Coefficient(ci1, ci, mi, 1.0 / d).0, Coefficient(ci1, ci, mi, 1.0 / d).1, d) == y + mi * d
  {
    var inv := 1.0 / d;
    var common := ci + ci1 - mi - mi;
    assert inv * d == 1.0;
    calc {
      (mi - ci - common) * inv * (d * d);
      (mi - ci - common) * (inv * d) * d;
      (mi - ci - common) * d;
    }
    var a := common * inv;
    calc {
      common * inv * inv * d * (d * d);
      a * inv * d * (d * d);
      a * (inv * d) * (d * d);
      a * (d * d);
      common * (inv * d) * d;
      common * d;
    }
  }

  /** Every segment cubic ends at the next knot, whatever the tangents `c1s`
      are: the spline is continuous. */
  lemma SegmentsMeet(xs: seq<real>, ys: seq<real>, c1s: seq<real>)
    requires |xs| == |ys| == |c1s| >= 2 && StrictlyIncreasing(xs)
    ensures var ms := Slopes(Differences(ys), Differences(xs));
            forall i :: 0 <= i < |xs| - 1 ==>
              SegmentValue(ys[i], c1s[i], Degree2(c1s, ms, Differences(xs))[i], Degree3(c1s, ms, Differences(xs))[i],
                           xs[i + 1] - xs[i]) == ys[i + 1]
  {
    forall i | 0 <= i < |xs| - 1 {
      SegmentMeets(xs, ys, c1s, i);
    }
  }

  /** Segment `i` of the spline ends at knot `i + 1`. */
  lemma SegmentMeets(xs: seq<real>, ys: seq<real>, c1s: seq<real>, i: nat)
    requires |xs| == |ys| == |c1s| >= 2 && StrictlyIncreasing(xs) && i < |xs| - 1
    ensures var dxs := Differences(xs);
            var ms := Slopes(Differences(ys), dxs);
            SegmentValue(ys[i], c1s[i], Degree2(c1s, ms, dxs)[i], Degree3(c1s, ms, dxs)[i], xs[i + 1] - xs[i]) == ys[i + 1]
  {
    hide *;
    var dxs := Differences(xs);
    var ms := Slopes(Differences(ys), dxs);
    SegmentSlope(xs, ys, i);
    var c2, c3 := Degree2(c1s, ms, dxs)[i], Degree3(c1s, ms, dxs)[i];
    assert c2 == Coefficient(c1s[i + 1], c1s[i], ms[i], 1.0 / dxs[i]).0;
    assert c3 == Coefficient(c1s[i + 1], c1s[i], ms[i], 1.0 / dxs[i]).1;
    CubicRise(ys[i], ys[i + 1], c1s[i], c1s[i + 1], ms[i], dxs[i], c2, c3, xs[i + 1] - xs[i]);
  }

  /** The slope of segment `i` is its rise over its width. */
  lemma SegmentSlope(xs: seq<real>, ys: seq<real>, i: nat)
    requires |xs| == |ys| >= 2 && StrictlyIncreasing(xs) && i < |xs| - 1
    ensures var dxs := Differences(xs);
            && dxs[i] == xs[i + 1] - xs[i] && dxs[i] > 0.0
            && Slopes(Differences(ys), dxs)[i] == (ys[i + 1] - ys[i]) / dxs[i]
  {
    var dxs, dys := Differences(xs), Differences(ys);
    assert dys[i] == ys[i + 1] - ys[i];
  }

  /** The spline state for knots already sorted by abscissa. Every segment
      cubic ends at the next knot, so the spline is continuous. */
  function BuildSpline(xs: seq<real>, ys: seq<real>): (s: Spline)
    requires |xs| == |ys| >= 2 && StrictlyIncreasing(xs)
    ensures WellFormed(s) && s.xs == xs && s.ys == ys
    ensures forall i :: 0 <= i < |xs| - 1 ==>
              SegmentValue(ys[i], s.c1s[i], s.c2s[i], s.c3s[i], xs[i + 1] - xs[i]) == ys[i + 1]
  {
    var dxs := Differences(xs);
    var ms := Slopes(Differences(ys), dxs);
    var c1s := Tangents(ms, dxs);
    SegmentsMeet(xs, ys, c1s);
    Spline(xs, ys, c1s, Degree2(c1s, ms, dxs), Degree3(c1s, ms, dxs))
  }

  // ---------------------------------------------------------------------
  // Construction and evaluation

  /** The sorted pairs, written back as two sequences, are the sorted keys and
      values. */
  lemma PairKeysValues<V>(s: seq<(real, V)>)
    ensures Pair(Keys(s), Values(s)) == s
  {
  }

  /** The first key of a strictly sorted permutation is the least key. */
  lemma FirstKeyLeast<V>(a: seq<(real, V)>, b: seq<(real, V)>)
    requires KeysStrictlyIncreasing(a) && multiset(a) == multiset(b) && |a| > 0
    ensures forall k :: 0 <= k < |b| ==> a[0].0 <= b[k].0
  {
    forall k | 0 <= k < |b|
      ensures a[0].0 <= b[k].0
    {
      assert b[k] in multiset(a);
      var m :| 0 <= m < |a| && a[m] == b[k];
      if m > 0 {
        assert a[0].0 < a[m].0;
      }
    }
  }

  /** The knots sorted by abscissa, split back into abscissae and
      ordinates: a rearrangement of the knots with strictly increasing
      abscissae that starts at the least one. */
  function SortKnots<V>(xs: seq<real>, vs: seq<V>): (r: (seq<real>, seq<V>))
    requires |xs| == |vs| > 0 && Distinct(xs)
    ensures |r.0| == |r.1| == |xs| && StrictlyIncreasing(r.0)
    ensures multiset(Pair(r.0, r.1)) == multiset(Pair(xs, vs))
    ensures forall k :: 0 <= k < |xs| ==> r.0[0] <= xs[k]
    ensures r.0 == Keys(SortByKey(Pair(xs, vs))) && r.1 == Values(SortByKey(Pair(xs, vs)))
  {
    var pairs := Pair(xs, vs);
    var sorted := SortByKey(pairs);
    SortByKeyStrict(pairs);
    PairKeysValues(sorted);
    FirstKeyLeast(sorted, pairs);
    (Keys(sorted), Values(sorted))
  }

  /** `createInterpolant(xs:ys:)`. Mismatched lengths or no knots give the
      constant 0, a single knot the constant `ys[0]`; otherwise the knots are
      sorted by abscissa (they must be distinct, or the slopes divide by
      zero) and the spline is built on them. */
  function CreateInterpolant(xs: seq<real>, ys: seq<real>): (f: Interpolant)
    requires |xs| == |ys| && |xs| > 1 ==> Distinct(xs)
    ensures |xs| != |ys| || |xs| == 0 ==> f == Constant(0.0)
    ensures |xs| == |ys| == 1 ==> f == Constant(ys[0])
    ensures |xs| == |ys| > 1 ==>
              && f.Cubic? && WellFormed(f.spline)
              && multiset(Pair(f.spline.xs, f.spline.ys)) == multiset(Pair(xs, ys))
              && forall k :: 0 <= k < |xs| ==> f.spline.xs[0] <= xs[k]
  {
    if |xs| != |ys| || |xs| == 0 then
      Constant(0.0)
    else if |xs| == 1 then
      Constant(ys[0])
    else
      var (sxs, sys) := SortKnots(xs, ys);
      Cubic(BuildSpline(sxs, sys))
  }

  /** `let i = min(ofs, len) - 1` where `ofs` is the partition point of
      `$0 <= x`. On sorted knots with `x` at or above the first knot this is
      the segment holding `x`, or the last segment beyond the last knot. An
      `x` below the first knot gives index -1, on which the caller traps. */
  function SegmentIndex(xs: seq<real>, x: real): (i: int)
    requires |xs| >= 1
    ensures -1 <= i <= |xs| - 2
    ensures |xs| >= 2 && StrictlyIncreasing(xs) && xs[0] <= x ==>
              && 0 <= i
              && (x < xs[|xs| - 1] ==> xs[i] <= x < xs[i + 1])
              && (x >= xs[|xs| - 1] ==> i == |xs| - 2)
  {
    var p := (v: real) => v <= x;
    assert StrictlyIncreasing(xs) ==> Search.Partitioned(xs, p);
    MinNat(Search.BinarySearch(xs, p), |xs| - 1) - 1
  }

  /** The body of the returned closure. */
  function Evaluate(f: Interpolant, x: real): real
    requires f.Cubic? ==> WellFormed(f.spline) && f.spline.xs[0] <= x
  {
    match f
    case Constant(v) => v
    case Cubic(s) =>
      var len := |s.xs| - 1;
      if x == s.xs[len] then
        s.ys[len]
      else
        var i := SegmentIndex(s.xs, x);
        SegmentValue(s.ys[i], s.c1s[i], s.c2s[i], s.c3s[i], x - s.xs[i])
  }

  /** At every knot, the last one included, the spline returns the knot's
      ordinate exactly. */
  lemma EvaluateAtKnot(s: Spline, k: nat)
    requires WellFormed(s) && k < |s.xs|
    ensures Evaluate(Cubic(s), s.xs[k]) == s.ys[k]
  {
    if k < |s.xs| - 1 {
      EvaluateOnSegment(s, k, s.xs[k]);
      SegmentValueAtStart(s.ys[k], s.c1s[k], s.c2s[k], s.c3s[k]);
    } else {
      KnotsFromFirst(s.xs, k);
    }
  }

  /** Every segment cubic starts at its own knot. */
  lemma SegmentValueAtStart(y: real, c1: real, c2: real, c3: real)
    ensures SegmentValue(y, c1, c2, c3, 0.0) == y
  {
  }

  /** On strictly increasing knots, every knot but the last starts the
      segment the search finds for it. */
  lemma SegmentIndexAtKnot(xs: seq<real>, k: nat)
    requires StrictlyIncreasing(xs) && k < |xs| - 1
    ensures SegmentIndex(xs, xs[k]) == k
  {
    KnotsFromFirst(xs, k);
    assert xs[k] < xs[|xs| - 1];
  }

  /** No knot lies before the first. */
  lemma KnotsFromFirst(xs: seq<real>, k: nat)
    requires StrictlyIncreasing(xs) && k < |xs|
    ensures xs[0] <= xs[k]
  {
    if k > 0 {
      assert xs[0] < xs[k];
    }
  }

  /** Between two consecutive knots the spline is the cubic of that segment. */
  lemma EvaluateOnSegment(s: Spline, i: nat, x: real)
    requires WellFormed(s) && i < |s.xs| - 1 && s.xs[i] <= x < s.xs[i + 1]
    ensures Evaluate(Cubic(s), x) == SegmentValue(s.ys[i], s.c1s[i], s.c2s[i], s.c3s[i], x - s.xs[i])
  {
    var len := |s.xs| - 1;
    KnotsFromFirst(s.xs, i);
    assert x < s.xs[len] by {
      if i + 1 < len {
        assert s.xs[i + 1] < s.xs[len];
      }
    }
    var j := SegmentIndex(s.xs, x);
    assert j == i;
  }

  /** Beyond the last knot the cubic of the last segment is extrapolated. */
  lemma EvaluateBeyondLastKnot(s: Spline, x: real)
    requires WellFormed(s) && x > s.xs[|s.xs| - 1]
    ensures var i := |s.xs| - 2;
            Evaluate(Cubic(s), x) == SegmentValue(s.ys[i], s.c1s[i], s.c2s[i], s.c3s[i], x - s.xs[i])
  {
    assert s.xs[0] < s.xs[|s.xs| - 1];
  }

  /** The interpolant passes through every input knot, whatever their order. */
  lemma InterpolantFitsData(xs: seq<real>, ys: seq<real>, k: nat)
    requires |xs| == |ys| && k < |xs| && Distinct(xs)
    ensures Evaluate(CreateInterpolant(xs, ys), xs[k]) == ys[k]
  {
    if |xs| > 1 {
      var f := CreateInterpolant(xs, ys);
      var s := f.spline;
      var m := KnotAfterSorting(xs, ys, s.xs, s.ys, k);
      EvaluateAtKnot(s, m);
      assert f == Cubic(s);
    }
  }

  /** A knot of the input is a knot of any rearrangement of it. */
  lemma KnotAfterSorting(xs: seq<real>, ys: seq<real>, sxs: seq<real>, sys: seq<real>, k: nat) returns (m: nat)
    requires |xs| == |ys| && |sxs| == |sys| && k < |xs|
    requires multiset(Pair(sxs, sys)) == multiset(Pair(xs, ys))
    ensures m < |sxs| && sxs[m] == xs[k] && sys[m] == ys[k]
  {
    var pairs, spairs := Pair(xs, ys), Pair(sxs, sys);
    assert pairs[k] == (xs[k], ys[k]);
    assert pairs[k] in multiset(spairs);
    m :| 0 <= m < |spairs| && spairs[m] == pairs[k];
    assert spairs[m] == (sxs[m], sys[m]);
  }
}
