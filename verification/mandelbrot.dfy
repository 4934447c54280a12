/** `Mandelbrot.swift`: the 512-entry colour palette and the free function
    `mandelbrot(min:max:size:maxiter:)`, which renders one tile of the set
    into a bitmap. The palette is shared with `MandelLayer.swift`, which
    builds the same one from the same control points. */
module Mandelbrot {
  import opened RealMath
  import opened Wrappers
  import opened ComplexNumbers
  import opened Sorting
  import opened Interpolation
  import opened VectorInterpolation
  import opened Pixels
  import opened Escape
  import opened InterpolationBounds

  // ---------------------------------------------------------------------
  // The palette

  /** The hue positions of the five control colours. */
  const ControlHues: seq<real> := [0.0, 0.16, 0.42, 0.6425, 0.8575]

  /** The five control colours as RGB channels. */
  const ControlColours: seq<Row> :=
    [[0.0, 7.0, 100.0], [32.0, 107.0, 203.0], [237.0, 255.0, 255.0], [255.0, 170.0, 0.0], [0.0, 2.0, 0.0]]

  /** `pal_size`. */
  const PaletteSize: nat := 512

  /** `Double(i) / Double(pal_size - 1)`: the hue sampled by entry `i`. */
  function Hue(i: nat): (h: real)
    ensures i < PaletteSize ==> 0.0 <= h <= 1.0
    ensures i == 0 ==> h == 0.0
  {
    i as real / (PaletteSize - 1) as real
  }

  /** What the palette asks of its control points: as many colours as hues,
      distinct hues, three channels per colour and a hue at or below 0, so
      that every sample lies at or beyond the first knot. */
  predicate PaletteControls(xs: seq<real>, ys: seq<Row>)
  {
    && |xs| == |ys| > 0 && Distinct(xs) && Rectangular(ys, 3)
    && exists k :: 0 <= k < |xs| && xs[k] <= 0.0
  }

  /** Entry `i` of the palette: the colour interpolant at `Hue(i)`, packed. */
  function PaletteEntry(xs: seq<real>, ys: seq<Row>, i: nat): (p: Pixel)
    requires PaletteControls(xs, ys) && i < PaletteSize
    ensures p.a == 255
  {
    var k :| 0 <= k < |xs| && xs[k] <= 0.0;
    ChannelIsScalarInterpolant(xs, ys, 3, 0, Hue(i));
    MakePixel(EvaluateVector(CreateVectorInterpolant(xs, ys), Hue(i)))
  }

  /** `(0..<pal_size).map { Pixel(interpol(hue)) }`. */
  function PaletteFrom(xs: seq<real>, ys: seq<Row>): (p: seq<Pixel>)
    requires PaletteControls(xs, ys)
    ensures |p| == PaletteSize
    ensures forall i :: 0 <= i < PaletteSize ==> p[i].a == 255
  {
    seq(PaletteSize, i requires 0 <= i < PaletteSize => PaletteEntry(xs, ys, i))
  }

  /** The control points satisfy what the palette asks of them. */
  lemma ControlsWellFormed()
    ensures PaletteControls(ControlHues, ControlColours)
  {
    assert ControlHues[0] <= 0.0;
  }

  /** `palette`. */
  function Palette(): (p: seq<Pixel>)
    ensures |p| == PaletteSize
  {
    ControlsWellFormed();
    PaletteFrom(ControlHues, ControlColours)
  }

  /** Channel `j` of a palette entry is the scalar cubic interpolant of the
      control values of that channel, clamped to a byte. */
  lemma PaletteChannel(xs: seq<real>, ys: seq<Row>, i: nat, j: nat)
    requires PaletteControls(xs, ys) && i < PaletteSize && j < 3
    ensures var p, v := PaletteFrom(xs, ys)[i], Evaluate(CreateInterpolant(xs, Column(ys, j)), Hue(i));
            && (j == 0 ==> p.r == ClampChannel(v))
            && (j == 1 ==> p.g == ClampChannel(v))
            && (j == 2 ==> p.b == ClampChannel(v))
  {
    hide EvaluateVector, CreateVectorInterpolant, Evaluate, CreateInterpolant, ClampChannel;
    var k :| 0 <= k < |xs| && xs[k] <= 0.0;
    assert xs[k] <= Hue(i);
    ChannelIsScalarInterpolant(xs, ys, 3, j, Hue(i));
    var v := EvaluateVector(CreateVectorInterpolant(xs, ys), Hue(i));
    assert PaletteFrom(xs, ys)[i] == PaletteEntry(xs, ys, i) == MakePixel(v);
  }

  /** An entry whose hue is a control hue has that control colour. */
  lemma PaletteAtControl(xs: seq<real>, ys: seq<Row>, i: nat, k: nat)
    requires PaletteControls(xs, ys) && i < PaletteSize && k < |xs| && Hue(i) == xs[k]
    ensures PaletteFrom(xs, ys)[i] == MakePixel(ys[k])
  {
    hide EvaluateVector, CreateVectorInterpolant, ClampChannel;
    VectorInterpolantFitsData(xs, ys, 3, k);
  }

  /** The first entry is the first control colour, opaque. */
  lemma PaletteStartsWithFirstControl()
    ensures Palette()[0] == Pixel(255, 0, 7, 100)
  {
    hide PaletteEntry, EvaluateVector, CreateVectorInterpolant, ClampChannel, MakePixel;
    ControlsWellFormed();
    PaletteAtControl(ControlHues, ControlColours, 0, 0);
    MakePixelOfBytes(0, 7, 100, []);
    assert [0 as Byte as real, 7 as Byte as real, 100 as Byte as real] + [] == ControlColours[0];
  }

  /** Between two neighbouring control hues every channel of the palette
      stays between the two control colours' values of that channel: the
      palette has no overshoot. The bounds are clamped to bytes like the
      entry itself; the control values are already bytes. */
  lemma PaletteBetweenControls(i: nat, k: nat, c: nat)
    requires i < PaletteSize && k + 1 < |ControlHues| && c < 3
    requires ControlHues[k] <= Hue(i) <= ControlHues[k + 1]
    ensures var p := Palette()[i];
            var lo := ClampChannel(Min(Channel(ControlColours[k], c), Channel(ControlColours[k + 1], c)));
            var hi := ClampChannel(Max(Channel(ControlColours[k], c), Channel(ControlColours[k + 1], c)));
            && (c == 0 ==> lo <= p.r <= hi)
            && (c == 1 ==> lo <= p.g <= hi)
            && (c == 2 ==> lo <= p.b <= hi)
  {
    ControlsWellFormed();
    ControlHuesNeighbours(k);
    assert Palette() == PaletteFrom(ControlHues, ControlColours);
    hide *;
    PaletteFromBetween(ControlHues, ControlColours, i, k, k + 1, c);
    var p := Palette()[i];
    var lo := ClampChannel(Min(Channel(ControlColours[k], c), Channel(ControlColours[k + 1], c)));
    var hi := ClampChannel(Max(Channel(ControlColours[k], c), Channel(ControlColours[k + 1], c)));
    assert (c == 0 ==> lo <= p.r <= hi) && (c == 1 ==> lo <= p.g <= hi) && (c == 2 ==> lo <= p.b <= hi);
  }

  /** The same for a palette built from any well-formed control points. */
  lemma PaletteFromBetween(xs: seq<real>, ys: seq<Row>, i: nat, k: nat, m: nat, c: nat)
    requires PaletteControls(xs, ys) && i < PaletteSize && c < 3
    requires k < |xs| && m < |xs| && Neighbours(xs, k, m) && xs[k] <= Hue(i) <= xs[m]
    ensures var p := PaletteFrom(xs, ys)[i];
            var lo := ClampChannel(Min(Channel(ys[k], c), Channel(ys[m], c)));
            var hi := ClampChannel(Max(Channel(ys[k], c), Channel(ys[m], c)));
            && (c == 0 ==> lo <= p.r <= hi)
            && (c == 1 ==> lo <= p.g <= hi)
            && (c == 2 ==> lo <= p.b <= hi)
  {
    hide EvaluateVector, CreateVectorInterpolant, Evaluate, CreateInterpolant, ClampChannel, PaletteEntry;
    var col := Column(ys, c);
    PaletteChannel(xs, ys, i, c);
    InterpolantBetweenNeighbours(xs, col, k, m, Hue(i));
    var v := Evaluate(CreateInterpolant(xs, col), Hue(i));
    ClampChannelMonotone(Min(col[k], col[m]), v);
    ClampChannelMonotone(v, Max(col[k], col[m]));
  }

  /** Consecutive control hues are neighbours: the hues increase. */
  lemma ControlHuesNeighbours(k: nat)
    requires k + 1 < |ControlHues|
    ensures Neighbours(ControlHues, k, k + 1)
  {
  }

  /** `Int(Double(palette.count - 1) * t)`: the entry a value in [0, 1]
      selects, always inside a palette of `n` entries. */
  function PaletteIndex(n: nat, t: real): (k: int)
    requires n > 0 && 0.0 <= t <= 1.0
    ensures 0 <= k < n
    ensures t == 0.0 ==> k == 0
    ensures t == 1.0 ==> k == n - 1
  {
    ScaleWithinUnit((n - 1) as real, t);
    Truncate((n - 1) as real * t)
  }

  lemma ScaleWithinUnit(m: real, t: real)
    requires m >= 0.0 && 0.0 <= t <= 1.0
    ensures 0.0 <= m * t <= m
  {
    assert m * t <= m * 1.0;
  }

  // ---------------------------------------------------------------------
  // Pixel indices

  /** Swift's `Int` division, which truncates toward zero, of an index by a
      non-zero divisor: for a dividend that is never negative, the quotient
      leaves a remainder in [0, |d|) for either sign of the divisor. */
  function IndexDiv(i: nat, d: int): (q: int)
    requires d != 0
    ensures 0 <= i - q * d < (if d > 0 then d else -d)
  {
    if d > 0 then i / d else -(i / -d)
  }

  /** Swift's `%` on `Int`, whose result has the sign of the dividend. */
  function IndexRem(i: nat, d: int): (r: int)
    requires d != 0
    ensures 0 <= r < if d > 0 then d else -d
    ensures i == IndexDiv(i, d) * d + r
  {
    if d > 0 then i % d else i % -d
  }

  /** `(i % width, height - (i / width))`: pixel `i` in row-major order,
      counted from the top row, drawn flipped. */
  function Coordinates(i: nat, width: int, height: int): (int, int)
    requires width != 0
  {
    (IndexRem(i, width), height - IndexDiv(i, width))
  }

  /** Every index of a `width * height` tile lands inside it, with `x` in
      [0, width) and `y` in [1, height]. */
  lemma CoordinatesInTile(i: nat, width: int, height: int)
    requires width > 0 && height > 0 && i < width * height
    ensures var (x, y) := Coordinates(i, width, height);
            0 <= x < width && 1 <= y <= height
  {
    QuotientBelow(i, width, height);
  }

  lemma QuotientBelow(i: nat, width: int, height: int)
    requires width > 0 && height > 0 && i < width * height
    ensures i / width < height
  {
  }

  /** Distinct indices are distinct pixels. */
  lemma CoordinatesInjective(i: nat, k: nat, width: int, height: int)
    requires width != 0 && Coordinates(i, width, height) == Coordinates(k, width, height)
    ensures i == k
  {
  }

  // ---------------------------------------------------------------------
  // Rendering

  /** `Int(size.width)` and `Int(size.height)`. */
  function Width(size: (real, real)): int
  {
    Truncate(size.0)
  }

  function Height(size: (real, real)): int
  {
    Truncate(size.1)
  }

  /** The point of the plane pixel `i` samples: `Complex(x, y) * recip(Complex(size))`,
      which simd evaluates lane by lane as `(x / size.width, y / size.height)`,
      then `uv.lerp(min: a, max: b)`. */
  function PixelPoint(i: nat, a: Complex, b: Complex, size: (real, real)): (c: Complex)
    requires Width(size) != 0 && Height(size) != 0
  {
    SizeNonZero(size);
    var (x, y) := Coordinates(i, Width(size), Height(size));
    Lerp(Complex(x as real / size.0, y as real / size.1), a, b)
  }

  /** A non-zero truncation comes from a non-zero size. */
  lemma SizeNonZero(size: (real, real))
    requires Width(size) != 0 && Height(size) != 0
    ensures size.0 != 0.0 && size.1 != 0.0
  {
  }

  /** `mandelbrot(min:max:size:maxiter:)`: the escape value of every pixel,
      each looked up in the palette, handed to `cgImage(size:)`. The tile
      comes back exactly when both sides are at least one pixel, and then
      pixel `i` is the palette entry of the slot value of its point. */
  method Render(a: Complex, b: Complex, size: (real, real), maxiter: int, logLogRadius: Complex -> real)
    returns (image: Option<Bitmap<Pixel>>)
    requires Width(size) * Height(size) >= 0
    requires Width(size) * Height(size) > 0 ==> maxiter >= 0
    ensures image.Some? <==> Width(size) > 0 && Height(size) > 0
    ensures image.Some? ==>
              && image.value.width == Width(size) && image.value.height == Height(size)
              && |image.value.elements| == Width(size) * Height(size)
    ensures image.Some? ==>
              forall i :: 0 <= i < |image.value.elements| ==>
                image.value.elements[i]
                == Palette()[PaletteIndex(PaletteSize, SlotValue(PixelPoint(i, a, b, size), maxiter, logLogRadius))]
  {
    var count := Width(size) * Height(size);
    var point := (i: nat) requires Width(size) != 0 && Height(size) != 0 => PixelPoint(i, a, b, size);
    var result := EscapeValues(point, count, maxiter, logLogRadius);
    var palette := Palette();
    var pixels := seq(count, i requires 0 <= i < count => palette[PaletteIndex(|palette|, result[i])]);
    image := CgImage(pixels, PixelSize, size);
  }
}
