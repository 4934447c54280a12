/** The promise of the monotone cubic interpolant in `Interpol.swift`: between
    two neighbouring knots the curve never leaves the band spanned by their
    ordinates, so the palette has no overshoot between its control colours.

    The argument follows Fritsch and Butland. Every tangent of a segment lies
    in the box [0, 3m] of the segment's slope `m` (mirrored when `m` is
    negative), and a Hermite cubic whose end tangents lie in that box stays
    between its end values. */
module InterpolationBounds {
  import opened RealMath
  import opened Sorting
  import opened Interpolation
  import opened VectorInterpolation

  // ---------------------------------------------------------------------
  // Arithmetic helpers

  lemma ScaleLe(x: real, y: real, k: real)
    requires x <= y && k >= 0.0
    ensures x * k <= y * k
  {
  }

  lemma ProductOfThreeNonNegative(x: real, y: real, z: real)
    requires x >= 0.0 && y >= 0.0 && z >= 0.0
    ensures x * y * z >= 0.0
  {
    ScaleLe(0.0, x, y);
    ScaleLe(0.0, x * y, z);
  }

  /** `n / (p + q)` is at most `M` when `p * M` already reaches `n`. */
  lemma QuotientAtMost(n: real, p: real, q: real, M: real)
    requires n > 0.0 && p > 0.0 && q > 0.0 && M > 0.0 && p * M >= n
    ensures 0.0 < n / (p + q) <= M
  {
    var t := n / (p + q);
    assert t * (p + q) == n;
    assert q * M > 0.0;
    assert (p + q) * M > n;
    if t > M {
      ScaleLe(M, t, p + q);
      assert false;
    }
  }

  // ---------------------------------------------------------------------
  // The tangent box

  /** The tangent `c` lies in the box of slope `m`: between 0 and `3 * m`. */
  predicate InBox(c: real, m: real)
  {
    if m >= 0.0 then 0.0 <= c <= 3.0 * m else 3.0 * m <= c <= 0.0
  }

  /** Both slopes positive: the harmonic-mean tangent is at most three times
      either slope. */
  lemma TangentBoxPositive(mi: real, mi1: real, di: real, di1: real)
    requires di > 0.0 && di1 > 0.0 && mi > 0.0 && mi1 > 0.0
    ensures 0.0 <= Tangent(mi, mi1, di, di1) <= 3.0 * mi
    ensures Tangent(mi, mi1, di, di1) <= 3.0 * mi1
  {
    var c := di + di1;
    var p, q := (c + di1) / mi, (c + di) / mi1;
    QuotientTimes(p, c + di1, mi);
    QuotientTimes(q, c + di, mi1);
    assert mi * mi1 > 0.0 by { ProductPositive(mi, mi1); }
    assert Tangent(mi, mi1, di, di1) == 3.0 * c / (p + q);
    QuotientAtMost(3.0 * c, p, q, 3.0 * mi);
    QuotientAtMost(3.0 * c, q, p, 3.0 * mi1);
    assert q + p == p + q;
  }

  /** Negating both slopes negates the tangent. */
  lemma TangentNegated(mi: real, mi1: real, di: real, di1: real)
    requires di > 0.0 && di1 > 0.0 && mi < 0.0 && mi1 < 0.0
    ensures Tangent(mi, mi1, di, di1) == -Tangent(-mi, -mi1, di, di1)
  {
    var c := di + di1;
    ProductPositive(-mi, -mi1);
    assert mi * mi1 == (-mi) * (-mi1);
    DivideByNegated(c + di1, mi);
    DivideByNegated(c + di, mi1);
    var s := (c + di1) / (-mi) + (c + di) / (-mi1);
    assert s > 0.0;
    assert (c + di1) / mi + (c + di) / mi1 == -s;
    DivideByNegated(3.0 * c, -s);
  }

  /** Every interior tangent lies in the box of both neighbouring slopes. */
  lemma TangentInBox(mi: real, mi1: real, di: real, di1: real)
    requires di > 0.0 && di1 > 0.0
    ensures InBox(Tangent(mi, mi1, di, di1), mi) && InBox(Tangent(mi, mi1, di, di1), mi1)
  {
    if mi > 0.0 && mi1 > 0.0 {
      TangentBoxPositive(mi, mi1, di, di1);
    } else if mi < 0.0 && mi1 < 0.0 {
      TangentBoxPositive(-mi, -mi1, di, di1);
      TangentNegated(mi, mi1, di, di1);
    } else {
      assert !SameSign(mi, mi1);
    }
  }

  /** Both tangents of segment `i` lie in the box of its slope. The end
      tangents are the end slopes themselves. */
  lemma {:induction false} SegmentTangentsInBox(ms: seq<real>, dxs: seq<real>, i: nat)
    requires |ms| == |dxs| > 0 && forall k :: 0 <= k < |dxs| ==> dxs[k] > 0.0
    requires i < |ms|
    ensures InBox(Tangents(ms, dxs)[i], ms[i]) && InBox(Tangents(ms, dxs)[i + 1], ms[i])
  {
    hide Tangent;
    var c1s := Tangents(ms, dxs);
    if i > 0 {
      TangentAt(ms, dxs, i);
      TangentInBox(ms[i], ms[i - 1], dxs[i], dxs[i - 1]);
    }
    if i + 1 < |ms| {
      TangentAt(ms, dxs, i + 1);
      TangentInBox(ms[i + 1], ms[i], dxs[i + 1], dxs[i]);
    }
  }

  // ---------------------------------------------------------------------
  // The segment cubic on the unit interval

  /** The rise of a segment cubic over its start value, divided by the
      segment's width, as a polynomial in the position `t` in [0, 1]: the
      Hermite cubic with slope `m` and end tangents `a` and `b`. */
  function Hermite(m: real, a: real, b: real, t: real): real
  {
    a * t + (3.0 * m - 2.0 * a - b) * (t * t) + (a + b - 2.0 * m) * (t * t * t)
  }

  lemma HermiteLowForm(m: real, a: real, b: real, t: real, u: real)
    requires u == 1.0 - t
    ensures Hermite(m, a, b, t) == m * (t * t * t) + a * (t * u * u) + (3.0 * m - b) * (t * t * u)
  {
  }

  lemma HermiteHighForm(m: real, a: real, b: real, t: real, u: real)
    requires u == 1.0 - t
    ensures m - Hermite(m, a, b, t) == m * (u * u * u) + (3.0 * m - a) * (t * u * u) + b * (t * t * u)
  {
  }

  /** A sum of three products of non-negative factors is non-negative. */
  lemma WeightedSumNonNegative(c0: real, c1: real, c2: real, w0: real, w1: real, w2: real)
    requires c0 >= 0.0 && c1 >= 0.0 && c2 >= 0.0 && w0 >= 0.0 && w1 >= 0.0 && w2 >= 0.0
    ensures c0 * w0 + c1 * w1 + c2 * w2 >= 0.0
  {
    ScaleLe(0.0, c0, w0);
    ScaleLe(0.0, c1, w1);
    ScaleLe(0.0, c2, w2);
  }

  /** The three cubic weights on [0, 1] are non-negative. */
  lemma CubicWeightsNonNegative(t: real, u: real)
    requires 0.0 <= t <= 1.0 && u == 1.0 - t
    ensures t * t * t >= 0.0 && u * u * u >= 0.0 && t * u * u >= 0.0 && t * t * u >= 0.0
  {
    ProductOfThreeNonNegative(t, t, t);
    ProductOfThreeNonNegative(u, u, u);
    ProductOfThreeNonNegative(t, u, u);
    ProductOfThreeNonNegative(t, t, u);
  }

  /** With both tangents in the box of a non-negative slope `m`, the cubic
      stays within [0, m] on [0, 1]. */
  lemma HermiteBounds(m: real, a: real, b: real, t: real)
    requires m >= 0.0 && InBox(a, m) && InBox(b, m) && 0.0 <= t <= 1.0
    ensures 0.0 <= Hermite(m, a, b, t) <= m
  {
    HermiteAtLeastZero(m, a, b, t);
    HermiteAtMostSlope(m, a, b, t);
  }

  lemma HermiteAtLeastZero(m: real, a: real, b: real, t: real)
    requires m >= 0.0 && 0.0 <= a && b <= 3.0 * m && 0.0 <= t <= 1.0
    ensures 0.0 <= Hermite(m, a, b, t)
  {
    var u := 1.0 - t;
    HermiteLowForm(m, a, b, t, u);
    CubicWeightsNonNegative(t, u);
    WeightedSumNonNegative(m, a, 3.0 * m - b, t * t * t, t * u * u, t * t * u);
  }

  lemma HermiteAtMostSlope(m: real, a: real, b: real, t: real)
    requires m >= 0.0 && a <= 3.0 * m && 0.0 <= b && 0.0 <= t <= 1.0
    ensures Hermite(m, a, b, t) <= m
  {
    var u := 1.0 - t;
    HermiteHighForm(m, a, b, t, u);
    CubicWeightsNonNegative(t, u);
    WeightedSumNonNegative(m, 3.0 * m - a, b, u * u * u, t * u * u, t * t * u);
  }

  lemma HermiteNegated(m: real, a: real, b: real, t: real)
    ensures Hermite(-m, -a, -b, t) == -Hermite(m, a, b, t)
  {
  }

  /** The segment cubic built by `Coefficient`, at offset `d` into a segment
      of width `h`, is its start value plus `h` times the Hermite cubic at
      `d / h`. */
  lemma SegmentValueNormalised(y: real, m: real, h: real, a: real, b: real, d: real)
    requires h > 0.0
    ensures var c := Coefficient(b, a, m, 1.0 / h);
            SegmentValue(y, a, c.0, c.1, d) == y + h * Hermite(m, a, b, d / h)
  {
    var inv := 1.0 / h;
    var t := d / h;
    assert inv * h == 1.0;
    assert d == t * h;
    var common := a + b - m - m;
    var (c2, c3) := Coefficient(b, a, m, inv);
    assert c2 * (d * d) == (m - a - common) * (t * t) * h by {
      calc {
        c2 * (d * d);
        (m - a - common) * inv * ((t * h) * (t * h));
        (m - a - common) * (t * t) * (inv * h) * h;
      }
    }
    assert c3 * d * (d * d) == common * (t * t * t) * h by {
      calc {
        c3 * d * (d * d);
        common * inv * inv * (t * h) * ((t * h) * (t * h));
        common * (t * t * t) * (inv * h) * (inv * h) * h;
      }
    }
    assert a * d == a * t * h;
  }

  /** With both tangents in the box of the slope `m`, of either sign, the
      cubic stays between 0 and `m` on [0, 1]. */
  lemma HermiteBetween(m: real, a: real, b: real, t: real)
    requires InBox(a, m) && InBox(b, m) && 0.0 <= t <= 1.0
    ensures Min(0.0, m) <= Hermite(m, a, b, t) <= Max(0.0, m)
  {
    if m >= 0.0 {
      HermiteBounds(m, a, b, t);
    } else {
      HermiteBounds(-m, -a, -b, t);
      HermiteNegated(m, a, b, t);
    }
  }

  /** An offset into a segment, over the segment's width, is in [0, 1]. */
  lemma PositionInUnit(d: real, h: real)
    requires h > 0.0 && 0.0 <= d <= h
    ensures 0.0 <= d / h <= 1.0
  {
    var t := d / h;
    assert t * h == d;
    if t > 1.0 {
      ScaleLe(1.0, t, h);
    }
  }

  /** Scaling by a positive width keeps a value between 0 and `m` between
      0 and the scaled `m`. */
  lemma ScaledBetween(e: real, m: real, h: real)
    requires h > 0.0 && Min(0.0, m) <= e <= Max(0.0, m)
    ensures Min(0.0, h * m) <= h * e <= Max(0.0, h * m)
  {
    if m >= 0.0 {
      ScaleLe(0.0, e, h);
      ScaleLe(e, m, h);
    } else {
      ScaleLe(e, 0.0, h);
      ScaleLe(m, e, h);
    }
  }

  /** A segment cubic from `y` to `y1` over width `h`, with both tangents in
      the box of its slope, stays between `y` and `y1` on the segment. */
  lemma SegmentBetween(y: real, y1: real, m: real, h: real, a: real, b: real, d: real)
    requires h > 0.0 && m == (y1 - y) / h && 0.0 <= d <= h
    requires InBox(a, m) && InBox(b, m)
    ensures var c := Coefficient(b, a, m, 1.0 / h);
            Min(y, y1) <= SegmentValue(y, a, c.0, c.1, d) <= Max(y, y1)
  {
    SegmentValueNormalised(y, m, h, a, b, d);
    hide SegmentValue, Coefficient, Hermite;
    QuotientTimes(m, y1 - y, h);
    PositionInUnit(d, h);
    HermiteBetween(m, a, b, d / h);
    ScaledBetween(Hermite(m, a, b, d / h), m, h);
    assert h * m == y1 - y;
  }

  // ---------------------------------------------------------------------
  // No overshoot between knots

  /** On sorted knots, the spline between knots `i` and `i + 1` (both
      included) stays between their ordinates. */
  lemma SplineBetweenKnots(xs: seq<real>, ys: seq<real>, i: nat, x: real)
    requires |xs| == |ys| >= 2 && StrictlyIncreasing(xs)
    requires i < |xs| - 1 && xs[i] <= x <= xs[i + 1]
    ensures Min(ys[i], ys[i + 1]) <= Evaluate(Cubic(BuildSpline(xs, ys)), x) <= Max(ys[i], ys[i + 1])
  {
    var s := BuildSpline(xs, ys);
    KnotsFromFirst(xs, i);
    if x == xs[i + 1] {
      EvaluateAtKnot(s, i + 1);
    } else {
      EvaluateOnSegment(s, i, x);
      BuildSplineParts(xs, ys);
      SegmentTangentsOfKnots(xs, ys, i);
      var dxs := Differences(xs);
      var ms := Slopes(Differences(ys), dxs);
      SegmentOfCoefficientsBetween(ys, s.c1s, s.c2s, s.c3s, ms, dxs, i, x - xs[i]);
    }
  }

  /** The coefficients `BuildSpline` keeps: the tangents and the degree-2
      and degree-3 coefficients computed from them. */
  lemma BuildSplineParts(xs: seq<real>, ys: seq<real>)
    requires |xs| == |ys| >= 2 && StrictlyIncreasing(xs)
    ensures var dxs := Differences(xs);
            var ms := Slopes(Differences(ys), dxs);
            var s := BuildSpline(xs, ys);
            && s.c1s == Tangents(ms, dxs)
            && s.c2s == Degree2(s.c1s, ms, dxs) && s.c3s == Degree3(s.c1s, ms, dxs)
  {
  }

  /** The same bound for segment `i` of any coefficient sequences that
      satisfy what `BuildSpline` guarantees of that segment. */
  lemma SegmentOfCoefficientsBetween(ys: seq<real>, c1s: seq<real>, c2s: seq<real>, c3s: seq<real>,
                                     ms: seq<real>, dxs: seq<real>, i: nat, d: real)
    requires i < |ms| && |dxs| == |ms| && |ys| == |c1s| == |ms| + 1 && |c2s| == |c3s| == |ms|
    requires dxs[i] > 0.0 && ms[i] == (ys[i + 1] - ys[i]) / dxs[i] && 0.0 <= d <= dxs[i]
    requires InBox(c1s[i], ms[i]) && InBox(c1s[i + 1], ms[i])
    requires c2s[i] == Coefficient(c1s[i + 1], c1s[i], ms[i], 1.0 / dxs[i]).0
    requires c3s[i] == Coefficient(c1s[i + 1], c1s[i], ms[i], 1.0 / dxs[i]).1
    ensures Min(ys[i], ys[i + 1]) <= SegmentValue(ys[i], c1s[i], c2s[i], c3s[i], d) <= Max(ys[i], ys[i + 1])
  {
    SegmentBetween(ys[i], ys[i + 1], ms[i], dxs[i], c1s[i], c1s[i + 1], d);
  }

  /** Segment `i` of sorted knots: its width and slope, and both of its
      tangents in the box of the slope. */
  lemma SegmentTangentsOfKnots(xs: seq<real>, ys: seq<real>, i: nat)
    requires |xs| == |ys| >= 2 && StrictlyIncreasing(xs) && i < |xs| - 1
    ensures var dxs := Differences(xs);
            var ms := Slopes(Differences(ys), dxs);
            && |ms| == |dxs| == |xs| - 1 && (forall k :: 0 <= k < |dxs| ==> dxs[k] > 0.0)
            && dxs[i] == xs[i + 1] - xs[i] && dxs[i] > 0.0 && ms[i] == (ys[i + 1] - ys[i]) / dxs[i]
            && InBox(Tangents(ms, dxs)[i], ms[i]) && InBox(Tangents(ms, dxs)[i + 1], ms[i])
  {
    hide Tangent, Tangents;
    var dxs := Differences(xs);
    var ms := Slopes(Differences(ys), dxs);
    SegmentSlope(xs, ys, i);
    SegmentTangentsInBox(ms, dxs, i);
  }

  // ---------------------------------------------------------------------
  // No overshoot for the constructed interpolants

  /** Two input knots are neighbours when no other input abscissa lies
      strictly between them. */
  predicate Neighbours(xs: seq<real>, j: nat, k: nat)
    requires j < |xs| && k < |xs|
  {
    xs[j] < xs[k] && forall m :: 0 <= m < |xs| ==> !(xs[j] < xs[m] < xs[k])
  }

  /** `createInterpolant(xs:ys:)`, whatever the order of its knots, never
      leaves the band of two neighbouring knots' ordinates between them:
      the curve never overshoots its data. */
  lemma InterpolantBetweenNeighbours(xs: seq<real>, ys: seq<real>, j: nat, k: nat, x: real)
    requires |xs| == |ys| && Distinct(xs) && j < |xs| && k < |xs| && Neighbours(xs, j, k)
    requires xs[j] <= x <= xs[k]
    ensures CreateInterpolant(xs, ys).Cubic?
    ensures Min(ys[j], ys[k]) <= Evaluate(CreateInterpolant(xs, ys), x) <= Max(ys[j], ys[k])
  {
    var (sxs, sys) := SortKnots(xs, ys);
    assert CreateInterpolant(xs, ys) == Cubic(BuildSpline(sxs, sys));
    hide *;
    var m := NeighboursAfterSorting(xs, ys, sxs, sys, j, k);
    SplineBetweenKnots(sxs, sys, m, x);
    assert Min(ys[j], ys[k]) <= Evaluate(CreateInterpolant(xs, ys), x) <= Max(ys[j], ys[k]);
  }

  /** Neighbouring input knots are consecutive knots once sorted. */
  lemma NeighboursAfterSorting(xs: seq<real>, ys: seq<real>, sxs: seq<real>, sys: seq<real>, j: nat, k: nat)
    returns (m: nat)
    requires |xs| == |ys| && |sxs| == |sys| && j < |xs| && k < |xs| && Neighbours(xs, j, k)
    requires StrictlyIncreasing(sxs) && multiset(Pair(sxs, sys)) == multiset(Pair(xs, ys))
    ensures m + 1 < |sxs|
    ensures sxs[m] == xs[j] && sys[m] == ys[j] && sxs[m + 1] == xs[k] && sys[m + 1] == ys[k]
  {
    m := KnotAfterSorting(xs, ys, sxs, sys, j);
    var mk := KnotAfterSorting(xs, ys, sxs, sys, k);
    assert m < mk by {
      if mk <= m {
        KnotsOrdered(sxs, mk, m);
      }
    }
    if m + 1 < mk {
      var n := KnotAfterSorting(sxs, sys, xs, ys, m + 1);
      assert false;
    }
  }

  lemma KnotsOrdered(xs: seq<real>, i: nat, k: nat)
    requires StrictlyIncreasing(xs) && i <= k < |xs|
    ensures xs[i] <= xs[k]
  {
    if i < k {
      assert xs[i] < xs[k];
    }
  }

  /** Every channel of `createInterpolant2(xs:ys:)` stays in the band of two
      neighbouring knots' values of that channel between them. */
  lemma ChannelBetweenNeighbours(xs: seq<real>, ys: seq<Row>, w: nat, c: nat, j: nat, k: nat, x: real)
    requires |xs| == |ys| && Distinct(xs) && Rectangular(ys, w) && c < w
    requires j < |xs| && k < |xs| && Neighbours(xs, j, k) && xs[j] <= x <= xs[k]
    ensures var r := EvaluateVector(CreateVectorInterpolant(xs, ys), x);
            |r| == w && Min(ys[j][c], ys[k][c]) <= r[c] <= Max(ys[j][c], ys[k][c])
  {
    ChannelIsScalarInterpolant(xs, ys, w, c, x);
    InterpolantBetweenNeighbours(xs, Column(ys, c), j, k, x);
  }
}
