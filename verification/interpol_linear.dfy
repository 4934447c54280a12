/** `createInterpolant3(xs:ys:)` of `Interpol.swift`: piecewise linear
    interpolation of vector-valued knots. The closure as written does not
    sort the knots, has no guards, and blends the two rows of the segment by
    the absolute `x` instead of the position of `x` inside the segment
    (`EvaluateLinearAsWritten`, `LinearAsWrittenMissesKnot`).
    `EvaluateLinear` is the segment-local blend the comments describe. */
module LinearInterpolation {
  import opened RealMath
  import opened Sorting
  import opened Zips
  import opened Interpolation
  import opened VectorInterpolation

  /** The closure as written: the last knot's row at the last knot, otherwise
      `zip(ys[i], ys[i + 1]).map { a, b in x * (b - a) + a }`. The
      preconditions are exactly the index checks on which Swift traps: an
      empty `xs`, a row index past the end of `ys`, and index -1 for an `x`
      the search places before every knot. */
  function EvaluateLinearAsWritten(xs: seq<real>, ys: seq<Row>, x: real): (r: Row)
    requires |xs| >= 1
    requires x == xs[|xs| - 1] ==> |xs| <= |ys|
    requires x != xs[|xs| - 1] ==> 0 <= SegmentIndex(xs, x) && SegmentIndex(xs, x) + 1 < |ys|
  {
    var len := |xs| - 1;
    if x == xs[len] then
      ys[len]
    else
      var i := SegmentIndex(xs, x);
      var z := Zip2(ys[i], ys[i + 1]);
      seq(|z|, t requires 0 <= t < |z| => x * (z[t].1 - z[t].0) + z[t].0)
  }

  /** Halfway along the knots 0, 0.5, 1 with rows [0], [10], [20], the middle
      knot should give its own row [10]; the closure as written gives [15]. */
  lemma LinearAsWrittenMissesKnot()
    ensures var xs, ys := [0.0, 0.5, 1.0], [[0.0], [10.0], [20.0]];
            EvaluateLinearAsWritten(xs, ys, xs[1]) == [15.0] != ys[1]
  {
    var xs := [0.0, 0.5, 1.0];
    assert SegmentIndex(xs, 0.5) == 1;
  }

  /** The blend with the position of `x` inside its segment. */
  function EvaluateLinear(xs: seq<real>, ys: seq<Row>, x: real): (r: Row)
    requires |xs| >= 1 && |ys| == |xs| && StrictlyIncreasing(xs)
    requires x != xs[|xs| - 1] ==> |xs| >= 2 && xs[0] <= x
  {
    var len := |xs| - 1;
    if x == xs[len] then
      ys[len]
    else
      var i := SegmentIndex(xs, x);
      var u := (x - xs[i]) / (xs[i + 1] - xs[i]);
      var z := Zip2(ys[i], ys[i + 1]);
      seq(|z|, t requires 0 <= t < |z| => Blend(z[t].0, z[t].1, u))
  }

  /** `u * (b - a) + a`: the point a fraction `u` of the way from `a` to `b`. */
  function Blend(a: real, b: real, u: real): real
  {
    u * (b - a) + a
  }

  /** On rows of one width the corrected blend passes through every knot. */
  lemma LinearAtKnot(xs: seq<real>, ys: seq<Row>, w: nat, k: nat)
    requires |ys| == |xs| && StrictlyIncreasing(xs) && Rectangular(ys, w) && k < |xs|
    ensures EvaluateLinear(xs, ys, xs[k]) == ys[k]
  {
    if k < |xs| - 1 {
      KnotsFromFirst(xs, k);
      SegmentIndexAtKnot(xs, k);
      var u := (xs[k] - xs[k]) / (xs[k + 1] - xs[k]);
      assert u == 0.0;
      var r := EvaluateLinear(xs, ys, xs[k]);
      assert |r| == w;
      forall t | 0 <= t < w
        ensures r[t] == ys[k][t]
      {
        assert r[t] == Blend(ys[k][t], ys[k + 1][t], u);
        BlendBetween(ys[k][t], ys[k + 1][t], u);
      }
    }
  }

  /** A position `n` inside a segment of width `d` is a fraction in [0, 1). */
  lemma FractionInUnit(n: real, d: real)
    requires 0.0 <= n < d
    ensures 0.0 <= n / d < 1.0
  {
  }

  /** A blend with a fraction in [0, 1] lies between its end points, and the
      fraction 0 gives the first. */
  lemma BlendBetween(a: real, b: real, u: real)
    requires 0.0 <= u <= 1.0
    ensures Min(a, b) <= Blend(a, b, u) <= Max(a, b)
    ensures u == 0.0 ==> Blend(a, b, u) == a
  {
    ProductNonNegative(u, if a <= b then b - a else a - b);
    ProductNonNegative(1.0 - u, if a <= b then b - a else a - b);
  }

  lemma ProductNonNegative(a: real, b: real)
    requires a >= 0.0 && b >= 0.0
    ensures a * b >= 0.0
  {
  }

  /** Between two knots every channel of the corrected blend lies between the
      two knots' values of that channel. */
  lemma LinearStaysBetweenKnots(xs: seq<real>, ys: seq<Row>, i: nat, x: real, t: nat)
    requires |ys| == |xs| && StrictlyIncreasing(xs)
    requires i + 1 < |xs| && xs[i] <= x < xs[i + 1]
    requires t < |ys[i]| && t < |ys[i + 1]|
    ensures var r := EvaluateLinear(xs, ys, x);
            t < |r| && Min(ys[i][t], ys[i + 1][t]) <= r[t] <= Max(ys[i][t], ys[i + 1][t])
  {
    var len := |xs| - 1;
    assert xs[0] <= xs[i] && x < xs[i + 1] <= xs[len];
    assert SegmentIndex(xs, x) == i;
    var u := (x - xs[i]) / (xs[i + 1] - xs[i]);
    FractionInUnit(x - xs[i], xs[i + 1] - xs[i]);
    BlendBetween(ys[i][t], ys[i + 1][t], u);
  }

  /** On the two-knot segment [0, 1] the absolute and the segment-local
      position coincide, so there the closure as written is the intended
      blend. */
  lemma LinearAsWrittenOnUnitSegment(ys: seq<Row>, x: real)
    requires |ys| == 2 && 0.0 <= x <= 1.0
    ensures EvaluateLinearAsWritten([0.0, 1.0], ys, x) == EvaluateLinear([0.0, 1.0], ys, x)
  {
    var xs := [0.0, 1.0];
    if x < 1.0 {
      assert SegmentIndex(xs, x) == 0;
      assert (x - xs[0]) / (xs[1] - xs[0]) == x;
      var a, b := EvaluateLinearAsWritten(xs, ys, x), EvaluateLinear(xs, ys, x);
      assert |a| == |b|;
      forall t | 0 <= t < |a|
        ensures a[t] == b[t]
      {
      }
    }
  }
}
