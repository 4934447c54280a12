/** `Pixel.swift`: packing colour channels into 32-bit ARGB pixels and the
    input checks made before a pixel buffer becomes an image. */
module Pixels {
  import opened RealMath
  import opened Wrappers

  /** `UInt8`. */
  newtype Byte = b: int | 0 <= b < 256

  /** `clamp`: the channel value limited to [0, 255], then converted to
      `UInt8`, which drops the fraction. */
  function ClampChannel(c: real): (r: Byte)
    ensures c <= 0.0 ==> r == 0
    ensures c >= 255.0 ==> r == 255
    ensures 0.0 <= c <= 255.0 ==> r as real <= c < r as real + 1.0
  {
    Truncate(Min(255.0, Max(c, 0.0))) as Byte
  }

  /** A channel that already holds a byte value is kept. */
  lemma ClampChannelOfByte(v: Byte)
    ensures ClampChannel(v as real) == v
  {
    var r := ClampChannel(v as real);
    assert r as real <= v as real < r as real + 1.0;
  }

  /** Clamping never decreases when the channel grows. */
  lemma ClampChannelMonotone(c: real, d: real)
    requires c <= d
    ensures ClampChannel(c) <= ClampChannel(d)
  {
  }

  datatype Pixel = Pixel(a: Byte, r: Byte, g: Byte, b: Byte)

  /** `Pixel.init(_:)`: opaque, with the first three channels clamped; a
      colour with fewer than three channels traps. */
  function MakePixel(c: seq<real>): (p: Pixel)
    requires |c| >= 3
    ensures p.a == 255
    ensures p.r == ClampChannel(c[0]) && p.g == ClampChannel(c[1]) && p.b == ClampChannel(c[2])
  {
    Pixel(255, ClampChannel(c[0]), ClampChannel(c[1]), ClampChannel(c[2]))
  }

  /** A colour given as bytes becomes the opaque pixel of those bytes. */
  lemma MakePixelOfBytes(r: Byte, g: Byte, b: Byte, rest: seq<real>)
    ensures MakePixel([r as real, g as real, b as real] + rest) == Pixel(255, r, g, b)
  {
    ClampChannelOfByte(r);
    ClampChannelOfByte(g);
    ClampChannelOfByte(b);
  }

  /** `Pixel.black`. */
  const Black: Pixel := MakePixel([0.0, 0.0, 0.0])

  lemma BlackIsOpaqueBlack()
    ensures Black == Pixel(255, 0, 0, 0)
  {
    MakePixelOfBytes(0, 0, 0, []);
    assert [0 as Byte as real, 0 as Byte as real, 0 as Byte as real] + [] == [0.0, 0.0, 0.0];
  }

  /** The size of one `Pixel` in memory: four `UInt8`. */
  const PixelSize: int := 4

  /** What `cgImage(size:)` hands to CoreGraphics: 8 bits per component, 32
      bits per pixel, rows of `width * pixelSize` bytes. */
  datatype Bitmap<T> = Bitmap(width: nat, height: nat, bytesPerRow: nat, elements: seq<T>)

  /** The checks of `cgImage(size:)`: the size is truncated to whole pixels,
      both sides must be positive, the elements must be four bytes wide and
      there must be exactly one element per pixel. */
  function CgImage<T>(elements: seq<T>, elementSize: int, size: (real, real)): (r: Option<Bitmap<T>>)
    ensures var width, height := Truncate(size.0), Truncate(size.1);
            r.Some? <==> width > 0 && height > 0 && elementSize == 4 && |elements| == width * height
    ensures r.Some? ==>
              && r.value.width as real <= size.0 < r.value.width as real + 1.0
              && r.value.height as real <= size.1 < r.value.height as real + 1.0
              && r.value.bytesPerRow == 4 * r.value.width
              && r.value.elements == elements
  {
    var width := Truncate(size.0);
    var height := Truncate(size.1);
    if width <= 0 || height <= 0 then
      None
    else if elementSize != 4 then
      None
    else if |elements| != width * height then
      None
    else
      Some(Bitmap(width, height, width * elementSize, elements))
  }
}
