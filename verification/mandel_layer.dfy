/** `MandelLayer.swift`: the tiled layer that draws the set at every zoom
    level. Drawing one tile widens the world rectangle to the aspect ratio of
    the layer's bounds, picks the part of it the tile covers, and renders
    that part with the layer's own rasterizer, which differs from the free
    function only in how a pixel becomes a point of the plane. */
module MandelLayer {
  import opened RealMath
  import opened Wrappers
  import opened ComplexNumbers
  import opened Pixels
  import opened Escape
  import opened Mandelbrot

  /** `min` and `max`: the world rectangle (-2.5, -1.5)-(1.5, 1.5). */
  const WorldMin: Complex := Complex(-2.5, -1.5)
  const WorldMax: Complex := Complex(1.5, 1.5)

  // ---------------------------------------------------------------------
  // Aspect-ratio correction

  /** `inc`: half the amount by which the rectangle `lo`-`hi` grows along one
      axis so that its width over its height becomes the bounds' ratio `rb`.
      Only the axis that is too short grows, and it never shrinks. */
  function AspectCorrection(rb: real, lo: Complex, hi: Complex): (inc: Complex)
    requires rb > 0.0 && hi.x - lo.x > 0.0 && hi.y - lo.y > 0.0
    ensures inc.x == 0.0 || inc.y == 0.0
    ensures inc.x >= 0.0 && inc.y >= 0.0
  {
    var sc := Subtract(hi, lo);
    var rc := sc.x / sc.y;
    if rb < rc then
      TallerWhenNarrower(rb, sc.x, sc.y);
      Complex(0.0, ((1.0 / rb) * sc.x - sc.y) / 2.0)
    else
      WiderWhenBroader(rb, sc.x, sc.y);
      Complex((rb * sc.y - sc.x) / 2.0, 0.0)
  }

  /** A ratio `r` below `p / q` asks for a height `p / r` above `q`. */
  lemma TallerWhenNarrower(r: real, p: real, q: real)
    requires r > 0.0 && q > 0.0 && r < p / q
    ensures (1.0 / r) * p - q > 0.0
  {
    assert r * q < (p / q) * q == p;
    assert (1.0 / r) * (r * q) == q;
    assert (1.0 / r) * p > (1.0 / r) * (r * q);
  }

  /** A ratio `r` at or above `p / q` asks for a width `r * q` at or above `p`. */
  lemma WiderWhenBroader(r: real, p: real, q: real)
    requires q > 0.0 && r >= p / q
    ensures r * q - p >= 0.0
  {
    assert r * q >= (p / q) * q == p;
  }

  /** `(self.min - inc, self.max + inc)`: the widened rectangle. It contains
      the original one and has the same centre. */
  function Corrected(rb: real, lo: Complex, hi: Complex): (r: (Complex, Complex))
    requires rb > 0.0 && hi.x - lo.x > 0.0 && hi.y - lo.y > 0.0
    ensures r.0.x <= lo.x && r.0.y <= lo.y && hi.x <= r.1.x && hi.y <= r.1.y
    ensures Add(r.0, r.1) == Add(lo, hi)
  {
    var inc := AspectCorrection(rb, lo, hi);
    (Subtract(lo, inc), Add(hi, inc))
  }

  /** The widened rectangle has exactly the bounds' aspect ratio. */
  lemma CorrectedAspect(rb: real, lo: Complex, hi: Complex)
    requires rb > 0.0 && hi.x - lo.x > 0.0 && hi.y - lo.y > 0.0
    ensures var (a, b) := Corrected(rb, lo, hi);
            b.y - a.y > 0.0 && (b.x - a.x) / (b.y - a.y) == rb
  {
    var sc := Subtract(hi, lo);
    var (a, b) := Corrected(rb, lo, hi);
    if rb < sc.x / sc.y {
      assert b.x - a.x == sc.x;
      assert b.y - a.y == (1.0 / rb) * sc.x;
      RatioOfScaled(rb, sc.x);
    } else {
      assert b.y - a.y == sc.y;
      assert b.x - a.x == rb * sc.y;
    }
  }

  lemma RatioOfScaled(r: real, p: real)
    requires r > 0.0 && p > 0.0
    ensures (1.0 / r) * p > 0.0 && p / ((1.0 / r) * p) == r
  {
    assert (1.0 / r) * p * r == p;
  }

  // ---------------------------------------------------------------------
  // Tile corners

  /** `a = mix(min, max, t: (u, v))` and `b = mix(min, max, t: (u, v) + (i, j))`:
      the corners of the part of the rectangle that a tile at fraction
      (u, v) of the bounds, (i, j) of them in size, covers. */
  function TileCorners(lo: Complex, hi: Complex, u: real, v: real, i: real, j: real): (r: (Complex, Complex))
    ensures r.0 == Lerp(Complex(u, v), lo, hi)
    ensures r.1 == Lerp(Add(Complex(u, v), Complex(i, j)), lo, hi)
  {
    LerpIsMix(Complex(u, v), lo, hi);
    LerpIsMix(Add(Complex(u, v), Complex(i, j)), lo, hi);
    (Mix(lo, hi, Complex(u, v)), Mix(lo, hi, Add(Complex(u, v), Complex(i, j))))
  }

  /** A tile that covers the whole bounds gets the whole rectangle. */
  lemma WholeTile(lo: Complex, hi: Complex)
    ensures TileCorners(lo, hi, 0.0, 0.0, 1.0, 1.0) == (lo, hi)
  {
    assert Add(Complex(0.0, 0.0), Complex(1.0, 1.0)) == Complex(1.0, 1.0);
  }

  // ---------------------------------------------------------------------
  // The layer's rasterizer

  /** The point of the plane pixel `i` samples in the layer:
      `(Double(x) / Double(width), Double(y) / Double(height))`, then
      `lerp(min: a, max: b)`. */
  function LayerPoint(i: nat, a: Complex, b: Complex, size: (real, real)): Complex
    requires Width(size) != 0 && Height(size) != 0
  {
    var (x, y) := Coordinates(i, Width(size), Height(size));
    Lerp(Complex(x as real / Width(size) as real, y as real / Height(size) as real), a, b)
  }

  /** `mandelbrot(min:max:size:maxiter:)` of the layer: one value in [0, 1]
      per pixel, 1.0 for the pixels whose orbit does not escape. */
  method LayerMandelbrot(a: Complex, b: Complex, size: (real, real), maxiter: int, logLogRadius: Complex -> real)
    returns (result: seq<real>)
    requires Width(size) * Height(size) >= 0
    requires Width(size) * Height(size) > 0 ==> maxiter >= 0
    ensures |result| == Width(size) * Height(size)
    ensures forall i :: 0 <= i < |result| ==> 0.0 <= result[i] <= 1.0
    ensures forall i :: 0 <= i < |result| ==>
              result[i] == SlotValue(LayerPoint(i, a, b, size), maxiter, logLogRadius)
  {
    var count := Width(size) * Height(size);
    var point := (i: nat) requires Width(size) != 0 && Height(size) != 0 => LayerPoint(i, a, b, size);
    result := EscapeValues(point, count, maxiter, logLogRadius);
  }

  /** `draw(in:)` for one tile: `bounds` is the layer's size, `origin` and
      `extent` the tile's rectangle in the same units, `tileSize` the tile in
      pixels and `maxiter` the iteration budget for the current zoom. The
      tile's image comes back exactly when it is at least one pixel wide and
      high, and pixel `i` is the palette entry of its point's slot value. */
  method Draw(bounds: (real, real), origin: (real, real), extent: (real, real), tileSize: (real, real),
              maxiter: int, logLogRadius: Complex -> real)
    returns (image: Option<Bitmap<Pixel>>)
    requires bounds.0 > 0.0 && bounds.1 > 0.0
    requires Width(tileSize) * Height(tileSize) >= 0
    requires Width(tileSize) * Height(tileSize) > 0 ==> maxiter >= 0
    ensures image.Some? <==> Width(tileSize) > 0 && Height(tileSize) > 0
    ensures image.Some? ==>
              var (lo, hi) := Corrected(bounds.0 / bounds.1, WorldMin, WorldMax);
              var (a, b) := TileCorners(lo, hi, origin.0 / bounds.0, origin.1 / bounds.1,
                                        extent.0 / bounds.0, extent.1 / bounds.1);
              && image.value.width == Width(tileSize) && image.value.height == Height(tileSize)
              && |image.value.elements| == Width(tileSize) * Height(tileSize)
              && forall i :: 0 <= i < |image.value.elements| ==>
                   image.value.elements[i]
                   == Palette()[PaletteIndex(PaletteSize, SlotValue(LayerPoint(i, a, b, tileSize), maxiter, logLogRadius))]
  {
    var u, v := origin.0 / bounds.0, origin.1 / bounds.1;
    var i, j := extent.0 / bounds.0, extent.1 / bounds.1;
    var rb := bounds.0 / bounds.1;
    var (lo, hi) := Corrected(rb, WorldMin, WorldMax);
    var (a, b) := TileCorners(lo, hi, u, v, i, j);
    var result := LayerMandelbrot(a, b, tileSize, maxiter, logLogRadius);
    var palette := Palette();
    var pixels := seq(|result|, k requires 0 <= k < |result| => palette[PaletteIndex(|palette|, result[k])]);
    image := CgImage(pixels, PixelSize, tileSize);
  }
}
