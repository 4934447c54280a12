/** `createInterpolant2(xs:ys:)` of `Interpol.swift`: the monotone cubic
    interpolant of `Interpolation`, computed on every channel of
    vector-valued knots at once. Every per-channel step combines rows with
    `zip`, so rows of different widths are cut to the shorter one. For rows
    of one common width each channel is exactly the scalar interpolant of
    that channel (`ChannelIsScalarInterpolant`). */
module VectorInterpolation {
  import opened RealMath
  import opened Sorting
  import opened Zips
  import opened Interpolation

  type Row = seq<real>

  /** Component `j` of a row, or 0 beyond its end. */
  function Channel(row: Row, j: nat): real
  {
    if j < |row| then row[j] else 0.0
  }

  /** Component `j` of every row. */
  function Column(rows: seq<Row>, j: nat): (r: seq<real>)
    ensures |r| == |rows| && forall k :: 0 <= k < |rows| ==> r[k] == Channel(rows[k], j)
  {
    seq(|rows|, k requires 0 <= k < |rows| => Channel(rows[k], j))
  }

  predicate Rectangular(rows: seq<Row>, w: nat)
  {
    forall k :: 0 <= k < |rows| ==> |rows[k]| == w
  }

  /** Every row has width `w` and, if the rows are that wide, component `j`
      of the rows is `col`. */
  predicate ColumnIs(rows: seq<Row>, w: nat, j: nat, col: seq<real>)
  {
    && |rows| == |col| && Rectangular(rows, w)
    && (j < w ==> forall k :: 0 <= k < |rows| ==> rows[k][j] == col[k])
  }

  // The construction steps

  /** `zip(a, b).map(-)`. */
  function RowDifference(a: Row, b: Row): (r: Row)
    ensures |r| == MinNat(|a|, |b|)
    ensures forall t :: 0 <= t < |r| ==> r[t] == a[t] - b[t]
  {
    var z := Zip2(a, b);
    seq(|z|, t requires 0 <= t < |z| => z[t].0 - z[t].1)
  }

  /** `dys`: the difference of every pair of consecutive rows. */
  function RowDifferences(ys: seq<Row>): (r: seq<Row>)
    requires |ys| > 0
    ensures |r| == |ys| - 1
  {
    seq(|ys| - 1, k requires 0 <= k < |ys| - 1 => RowDifference(ys[k + 1], ys[k]))
  }

  /** `ms`: every row of differences divided by its abscissa step. */
  function RowSlopes(dys: seq<Row>, dxs: seq<real>): (r: seq<Row>)
    requires |dys| == |dxs| && forall k :: 0 <= k < |dxs| ==> dxs[k] != 0.0
    ensures |r| == |dys| && forall k :: 0 <= k < |r| ==> |r[k]| == |dys[k]|
  {
    seq(|dys|, k requires 0 <= k < |dys| =>
      seq(|dys[k]|, t requires 0 <= t < |dys[k]| => dys[k][t] / dxs[k]))
  }

  /** One row of `aux3`: the tangent of every channel at an interior knot. */
  function TangentRow(mi: Row, mi1: Row, di: real, di1: real): (r: Row)
    requires di > 0.0 && di1 > 0.0
    ensures |r| == if |mi| <= |mi1| then |mi| else |mi1|
  {
    var z := Zip2(mi, mi1);
    seq(|z|, t requires 0 <= t < |z| => Tangent(z[t].0, z[t].1, di, di1))
  }

  /** `c1s`: the end slopes around the interior tangent rows. */
  function RowTangents(ms: seq<Row>, dxs: seq<real>): (r: seq<Row>)
    requires |ms| == |dxs| > 0 && forall k :: 0 <= k < |dxs| ==> dxs[k] > 0.0
    ensures |r| == |ms| + 1 && r[0] == ms[0] && r[|ms|] == ms[|ms| - 1]
  {
    [ms[0]]
    + seq(|ms| - 1, k requires 0 <= k < |ms| - 1 => TangentRow(ms[k + 1], ms[k], dxs[k + 1], dxs[k]))
    + [ms[|ms| - 1]]
  }

  /** One row of `aux6`: the degree-2 and degree-3 coefficients of every
      channel of one segment, over the three-way `zip`. */
  function CoefficientRow(ci1: Row, ci: Row, mi: Row, di: real): (r: seq<(real, real)>)
    requires di != 0.0
    ensures |r| == Min3(|ci1|, |ci|, |mi|)
  {
    var z := Zip3(ci1, ci, mi);
    var invDx := 1.0 / di;
    seq(|z|, t requires 0 <= t < |z| => Coefficient(z[t].0, z[t].1, z[t].2, invDx))
  }

  /** `aux6`. */
  function RowCoefficients(c1s: seq<Row>, ms: seq<Row>, dxs: seq<real>): (r: seq<seq<(real, real)>>)
    requires |c1s| == |ms| + 1 && |dxs| == |ms| && forall k :: 0 <= k < |dxs| ==> dxs[k] != 0.0
    ensures |r| == |ms|
  {
    seq(|ms|, k requires 0 <= k < |ms| => CoefficientRow(c1s[k + 1], c1s[k], ms[k], dxs[k]))
  }

  /** `c2s`: `aux6.map { $0.map { $0.0 } }`. */
  function Degree2Rows(aux: seq<seq<(real, real)>>): (r: seq<Row>)
    ensures |r| == |aux| && forall k :: 0 <= k < |aux| ==> |r[k]| == |aux[k]|
  {
    seq(|aux|, k requires 0 <= k < |aux| => seq(|aux[k]|, t requires 0 <= t < |aux[k]| => aux[k][t].0))
  }

  /** `c3s`: `aux6.map { $0.map { $0.1 } }`. */
  function Degree3Rows(aux: seq<seq<(real, real)>>): (r: seq<Row>)
    ensures |r| == |aux| && forall k :: 0 <= k < |aux| ==> |r[k]| == |aux[k]|
  {
    seq(|aux|, k requires 0 <= k < |aux| => seq(|aux[k]|, t requires 0 <= t < |aux[k]| => aux[k][t].1))
  }

  /** `zips`: one four-way `zip` per segment, as many as there are rows of
      degree-3 coefficients. */
  function ZipRows(ys: seq<Row>, c1s: seq<Row>, c2s: seq<Row>, c3s: seq<Row>): (r: seq<seq<(real, real, real, real)>>)
    requires |c3s| <= |ys| && |c3s| <= |c1s| && |c3s| <= |c2s|
    ensures |r| == |c3s|
  {
    seq(|c3s|, i requires 0 <= i < |c3s| => Zip4(ys[i], c1s[i], c2s[i], c3s[i]))
  }

  datatype VectorSpline = VectorSpline(xs: seq<real>, ys: seq<Row>, zips: seq<seq<(real, real, real, real)>>)

  datatype VectorInterpolant = VectorConstant(value: Row) | VectorCubic(spline: VectorSpline)

  predicate VectorWellFormed(s: VectorSpline)
  {
    && |s.xs| >= 2 && |s.ys| == |s.xs| && |s.zips| == |s.xs| - 1
    && StrictlyIncreasing(s.xs)
  }

  /** The spline on knots already sorted by abscissa. */
  function BuildVectorSpline(xs: seq<real>, ys: seq<Row>): (s: VectorSpline)
    requires |xs| == |ys| >= 2 && StrictlyIncreasing(xs)
    ensures VectorWellFormed(s) && s.xs == xs && s.ys == ys
  {
    var dxs := Differences(xs);
    var ms := RowSlopes(RowDifferences(ys), dxs);
    var c1s := RowTangents(ms, dxs);
    var aux := RowCoefficients(c1s, ms, dxs);
    VectorSpline(xs, ys, ZipRows(ys, c1s, Degree2Rows(aux), Degree3Rows(aux)))
  }

  /** `createInterpolant2(xs:ys:)`. Mismatched lengths or no knots give the
      constant empty row, a single knot the constant `ys[0]`; otherwise the
      knots are sorted by abscissa and the spline is built on them. */
  function CreateVectorInterpolant(xs: seq<real>, ys: seq<Row>): (f: VectorInterpolant)
    requires |xs| == |ys| && |xs| > 1 ==> Distinct(xs)
    ensures |xs| != |ys| || |xs| == 0 ==> f == VectorConstant([])
    ensures |xs| == |ys| == 1 ==> f == VectorConstant(ys[0])
    ensures |xs| == |ys| > 1 ==>
              && f.VectorCubic? && VectorWellFormed(f.spline)
              && multiset(Pair(f.spline.xs, f.spline.ys)) == multiset(Pair(xs, ys))
              && forall k :: 0 <= k < |xs| ==> f.spline.xs[0] <= xs[k]
  {
    if |xs| != |ys| || |xs| == 0 then
      VectorConstant([])
    else if |xs| == 1 then
      VectorConstant(ys[0])
    else
      var (sxs, sys) := SortKnots(xs, ys);
      VectorCubic(BuildVectorSpline(sxs, sys))
  }

  /** The body of the returned closure: the last knot's row at the last knot,
      otherwise the segment polynomial of every channel of the segment. */
  function EvaluateVector(f: VectorInterpolant, x: real): Row
    requires f.VectorCubic? ==> VectorWellFormed(f.spline) && f.spline.xs[0] <= x
  {
    match f
    case VectorConstant(v) => v
    case VectorCubic(s) =>
      var len := |s.xs| - 1;
      if x == s.xs[len] then
        s.ys[len]
      else
        var i := SegmentIndex(s.xs, x);
        var diff := x - s.xs[i];
        var z := s.zips[i];
        seq(|z|, t requires 0 <= t < |z| => SegmentValue(z[t].0, z[t].1, z[t].2, z[t].3, diff))
  }

  // Every channel is the scalar interpolant of that channel

  lemma DifferencesColumn(ys: seq<Row>, w: nat, j: nat, col: seq<real>)
    requires |ys| > 0 && ColumnIs(ys, w, j, col)
    ensures ColumnIs(RowDifferences(ys), w, j, Differences(col))
  {
    var d, dc := RowDifferences(ys), Differences(col);
    forall k | 0 <= k < |d|
      ensures |d[k]| == w && (j < w ==> d[k][j] == dc[k])
    {
      assert d[k] == RowDifference(ys[k + 1], ys[k]);
    }
  }

  lemma SlopesColumn(dys: seq<Row>, dxs: seq<real>, w: nat, j: nat, col: seq<real>)
    requires |dys| == |dxs| && forall k :: 0 <= k < |dxs| ==> dxs[k] != 0.0
    requires ColumnIs(dys, w, j, col)
    ensures ColumnIs(RowSlopes(dys, dxs), w, j, Slopes(col, dxs))
  {
  }

  lemma TangentsColumn(ms: seq<Row>, dxs: seq<real>, w: nat, j: nat, col: seq<real>)
    requires |ms| == |dxs| > 0 && forall k :: 0 <= k < |dxs| ==> dxs[k] > 0.0
    requires ColumnIs(ms, w, j, col)
    ensures ColumnIs(RowTangents(ms, dxs), w, j, Tangents(col, dxs))
  {
    hide Tangent, Tangents;
    var c, cc := RowTangents(ms, dxs), Tangents(col, dxs);
    forall k | 0 < k < |ms|
      ensures |c[k]| == w && (j < w ==> c[k][j] == cc[k])
    {
      assert c[k] == TangentRow(ms[k], ms[k - 1], dxs[k], dxs[k - 1]);
      if j < w {
        TangentAt(col, dxs, k);
        TangentRowChannel(ms[k], ms[k - 1], dxs[k], dxs[k - 1], j);
      }
    }
  }

  lemma TangentRowChannel(mi: Row, mi1: Row, di: real, di1: real, j: nat)
    requires di > 0.0 && di1 > 0.0 && j < |mi| && j < |mi1|
    ensures TangentRow(mi, mi1, di, di1)[j] == Tangent(mi[j], mi1[j], di, di1)
  {
  }

  lemma CoefficientsColumn(c1s: seq<Row>, ms: seq<Row>, dxs: seq<real>, w: nat, j: nat,
                           c1col: seq<real>, mcol: seq<real>)
    requires |c1s| == |ms| + 1 && |dxs| == |ms| && forall k :: 0 <= k < |dxs| ==> dxs[k] != 0.0
    requires ColumnIs(c1s, w, j, c1col) && ColumnIs(ms, w, j, mcol)
    ensures ColumnIs(Degree2Rows(RowCoefficients(c1s, ms, dxs)), w, j, Degree2(c1col, mcol, dxs))
    ensures ColumnIs(Degree3Rows(RowCoefficients(c1s, ms, dxs)), w, j, Degree3(c1col, mcol, dxs))
  {
    var aux := RowCoefficients(c1s, ms, dxs);
    var c2, c3 := Degree2Rows(aux), Degree3Rows(aux);
    var c2c, c3c := Degree2(c1col, mcol, dxs), Degree3(c1col, mcol, dxs);
    forall k | 0 <= k < |ms|
      ensures |c2[k]| == w && (j < w ==> c2[k][j] == c2c[k])
      ensures |c3[k]| == w && (j < w ==> c3[k][j] == c3c[k])
    {
      assert aux[k] == CoefficientRow(c1s[k + 1], c1s[k], ms[k], dxs[k]);
      if j < w {
        assert aux[k][j] == Coefficient(c1col[k + 1], c1col[k], mcol[k], 1.0 / dxs[k]);
      }
    }
  }

  /** The vector spline's segment `i` holds, in channel `j`, the coefficients
      of segment `i` of the scalar spline `s`. */
  predicate SplineColumn(v: VectorSpline, w: nat, j: nat, s: Spline)
    requires VectorWellFormed(v) && WellFormed(s)
  {
    && v.xs == s.xs && ColumnIs(v.ys, w, j, s.ys)
    && forall i :: 0 <= i < |v.zips| ==>
         |v.zips[i]| == w && (j < w ==> v.zips[i][j] == (s.ys[i], s.c1s[i], s.c2s[i], s.c3s[i]))
  }

  lemma BuildSplineColumn(xs: seq<real>, ys: seq<Row>, w: nat, j: nat)
    requires |xs| == |ys| >= 2 && StrictlyIncreasing(xs) && Rectangular(ys, w)
    ensures SplineColumn(BuildVectorSpline(xs, ys), w, j, BuildSpline(xs, Column(ys, j)))
  {
    hide Tangent, Tangents, RowTangents, Coefficient, SegmentValue, Slopes, RowSlopes;
    hide Degree2, Degree3, RowCoefficients, Degree2Rows, Degree3Rows;
    var col := Column(ys, j);
    var dxs := Differences(xs);
    DifferencesColumn(ys, w, j, col);
    var ms := RowSlopes(RowDifferences(ys), dxs);
    var mcol := Slopes(Differences(col), dxs);
    SlopesColumn(RowDifferences(ys), dxs, w, j, Differences(col));
    var c1s := RowTangents(ms, dxs);
    var c1col := Tangents(mcol, dxs);
    TangentsColumn(ms, dxs, w, j, mcol);
    CoefficientsColumn(c1s, ms, dxs, w, j, c1col, mcol);
    var aux := RowCoefficients(c1s, ms, dxs);
    var c2s, c3s := Degree2Rows(aux), Degree3Rows(aux);
    var v, s := BuildVectorSpline(xs, ys), BuildSpline(xs, col);
    assert v.zips == ZipRows(ys, c1s, c2s, c3s);
    assert s.c1s == c1col && s.c2s == Degree2(c1col, mcol, dxs) && s.c3s == Degree3(c1col, mcol, dxs);
    ZipsColumn(ys, c1s, c2s, c3s, w, j, col, c1col, s.c2s, s.c3s);
  }

  /** Channel `j` of the per-segment four-way `zip`s is the four columns. */
  lemma ZipsColumn(ys: seq<Row>, c1s: seq<Row>, c2s: seq<Row>, c3s: seq<Row>, w: nat, j: nat,
                   col: seq<real>, c1col: seq<real>, c2col: seq<real>, c3col: seq<real>)
    requires ColumnIs(ys, w, j, col) && ColumnIs(c1s, w, j, c1col)
    requires ColumnIs(c2s, w, j, c2col) && ColumnIs(c3s, w, j, c3col)
    requires |c3s| <= |ys| && |c3s| <= |c1s| && |c3s| <= |c2s|
    ensures var z := ZipRows(ys, c1s, c2s, c3s);
            forall i :: 0 <= i < |z| ==>
              |z[i]| == w && (j < w ==> z[i][j] == (col[i], c1col[i], c2col[i], c3col[i]))
  {
    var z := ZipRows(ys, c1s, c2s, c3s);
    forall i | 0 <= i < |z|
      ensures |z[i]| == w && (j < w ==> z[i][j] == (col[i], c1col[i], c2col[i], c3col[i]))
    {
      ZipRowChannel(ys[i], c1s[i], c2s[i], c3s[i], w, j);
    }
  }

  /** Channel `j` of a four-way `zip` of rows of width `w`. */
  lemma ZipRowChannel(a: Row, b: Row, c: Row, d: Row, w: nat, j: nat)
    requires |a| == |b| == |c| == |d| == w
    ensures |Zip4(a, b, c, d)| == w
    ensures j < w ==> Zip4(a, b, c, d)[j] == (a[j], b[j], c[j], d[j])
  {
  }

  lemma EvaluateColumn(v: VectorSpline, w: nat, j: nat, s: Spline, x: real)
    requires VectorWellFormed(v) && WellFormed(s) && SplineColumn(v, w, j, s) && s.xs[0] <= x
    ensures |EvaluateVector(VectorCubic(v), x)| == w
    ensures j < w ==> EvaluateVector(VectorCubic(v), x)[j] == Evaluate(Cubic(s), x)
  {
  }

  /** Sorting the rows and then taking a channel is taking the channel and
      then sorting. */
  lemma SortColumn(xs: seq<real>, ys: seq<Row>, j: nat)
    requires |xs| == |ys|
    ensures var sorted := SortByKey(Pair(xs, ys));
            SortByKey(Pair(xs, Column(ys, j))) == Pair(Keys(sorted), Column(Values(sorted), j))
  {
    var f := (row: Row) => Channel(row, j);
    var pairs := Pair(xs, ys);
    assert Pair(xs, Column(ys, j)) == MapValues(pairs, f);
    SortByKeyMapValues(pairs, f);
  }

  /** Sorting keeps the rows, so it keeps a common width. */
  lemma SortRectangular(xs: seq<real>, ys: seq<Row>, w: nat)
    requires |xs| == |ys| && Rectangular(ys, w)
    ensures Rectangular(Values(SortByKey(Pair(xs, ys))), w)
  {
    var pairs := Pair(xs, ys);
    var sorted := SortByKey(pairs);
    forall k | 0 <= k < |sorted|
      ensures |sorted[k].1| == w
    {
      assert sorted[k] in multiset(pairs);
      var m :| 0 <= m < |pairs| && pairs[m] == sorted[k];
      assert pairs[m].1 == ys[m];
    }
  }

  /** For rows of one width `w`, the vector interpolant yields rows of width
      `w` whose every channel `j` is the scalar interpolant of channel `j` of
      the knots. */
  lemma ChannelIsScalarInterpolant(xs: seq<real>, ys: seq<Row>, w: nat, j: nat, x: real)
    requires |xs| == |ys| > 0 && Distinct(xs) && Rectangular(ys, w)
    requires exists k :: 0 <= k < |xs| && xs[k] <= x
    ensures |EvaluateVector(CreateVectorInterpolant(xs, ys), x)| == w
    ensures j < w ==>
              EvaluateVector(CreateVectorInterpolant(xs, ys), x)[j]
              == Evaluate(CreateInterpolant(xs, Column(ys, j)), x)
  {
    if |xs| > 1 {
      hide BuildSpline, BuildVectorSpline, Evaluate, EvaluateVector, SegmentValue, SortByKey;
      var (sxs, sys) := SortKnots(xs, ys);
      var (cxs, cys) := SortKnots(xs, Column(ys, j));
      SortColumn(xs, ys, j);
      assert cxs == sxs && cys == Column(sys, j);
      SortRectangular(xs, ys, w);
      BuildSplineColumn(sxs, sys, w, j);
      EvaluateColumn(BuildVectorSpline(sxs, sys), w, j, BuildSpline(sxs, cys), x);
    }
  }

  /** For rows of one width the vector interpolant passes through every knot. */
  lemma VectorInterpolantFitsData(xs: seq<real>, ys: seq<Row>, w: nat, k: nat)
    requires |xs| == |ys| && k < |xs| && Distinct(xs) && Rectangular(ys, w)
    ensures EvaluateVector(CreateVectorInterpolant(xs, ys), xs[k]) == ys[k]
  {
    var r := EvaluateVector(CreateVectorInterpolant(xs, ys), xs[k]);
    forall j | 0 <= j < w
      ensures |r| == w && r[j] == ys[k][j]
    {
      ChannelIsScalarInterpolant(xs, ys, w, j, xs[k]);
      InterpolantFitsData(xs, Column(ys, j), k);
    }
    ChannelIsScalarInterpolant(xs, ys, w, 0, xs[k]);
  }
}
