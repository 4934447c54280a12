# Mandelbrot tile renderer, modelled in Dafny

The model covers the deterministic core of a Swift Mandelbrot viewer:

- **Palette.** The monotone cubic (Fritsch–Butland) interpolation behind its 512-entry colour palette, with its no-overshoot property: between two neighbouring knots the curve stays between their values.
- **Complex numbers.** The complex value type and the playground's `double2` helpers.
- **Pixels.** Pixel packing and the checks made before a pixel buffer becomes an image.
- **Rasterizer.** The escape-time rasterizer, which comes in two forms:
  - the free function `mandelbrot(min:max:size:maxiter:)`;
  - the `MandelLayer` tile drawer, with its aspect-ratio correction.

Swift `Double` is modelled as exact `real`. `Int(_:)` of a `Double` is written out as truncation toward zero, and Swift's truncating `Int` division and remainder are written out as well. `nil` becomes `Option`, and a trap becomes a precondition.

| file | module | models |
|---|---|---|
| `wrappers.dfy` | `Wrappers` | `Option` |
| `real_math.dfy` | `RealMath` | `min`, `max`, `simd_clamp`, `Int(Double)` |
| `complex.dfy` | `ComplexNumbers` | `Complex.swift`, and the playground's `square`, `radiusSquare`, `lerp` |
| `zips.dfy` | `Zips` | `Zip3Generator`, `Zip4Generator` and the file-private `zip`s |
| `search.dfy` | `Search` | `Collection.binarySearch(predicate:)` |
| `sorting.dfy` | `Sorting` | `zip(xs, ys).sorted { a.0 < b.0 }` and its projections |
| `interpol.dfy` | `Interpolation` | `createInterpolant(xs:ys:)` |
| `interpol_vector.dfy` | `VectorInterpolation` | `createInterpolant2(xs:ys:)` |
| `interpol_linear.dfy` | `LinearInterpolation` | `createInterpolant3(xs:ys:)`, as written and corrected |
| `interpol_bounds.dfy` | `InterpolationBounds` | the no-overshoot promise of `createInterpolant` and `createInterpolant2` |
| `pixel.dfy` | `Pixels` | `clamp`, `Pixel`, the guards of `cgImage(size:)` |
| `escape.dfy` | `Escape` | the escape loop, the slot values, the playground's first-escape search |
| `mandelbrot.dfy` | `Mandelbrot` | `palette`, the pixel-index mapping, `mandelbrot(min:max:size:maxiter:)` |
| `mandel_layer.dfy` | `MandelLayer` | the aspect correction, the tile corners, the layer's `mandelbrot` and `draw(in:)` |

Each closure returned by an interpolant constructor is modelled in two parts:

- a datatype (`Interpolant`, `VectorInterpolant`) that holds what the closure captures;
- an evaluation function (`Evaluate`, `EvaluateVector`) that is the closure's body.

The smoothing term `log2(log(z.radius))` is transcendental. It enters as a parameter `logLogRadius: Complex -> real`, and the proofs are about everything around it:

- which slots are written;
- how the loop stops;
- the clamp to [0, 1];
- the palette lookup.

## Model

| member | source | states |
|---|---|---|
| ComplexNumbers.Less | Mandelbrot/Complex.swift:14-16 | the order compares `x` first and `y` on a tie; `LessIrreflexive`, `LessTransitive` and `LessTrichotomy` show it is a strict total order |
| ComplexNumbers.Conjugate | Mandelbrot/Complex.swift:98-100 | negates the imaginary part; `ConjugateInvolution` and `MultiplyConjugate` state its laws |
| ComplexNumbers.Add | Mandelbrot/Complex.swift:103-105 | componentwise sum; `AddCommutative` and `SubtractAddCancel` state its laws |
| ComplexNumbers.Subtract | Mandelbrot/Complex.swift:108-110 | componentwise difference; `SubtractAddCancel` shows adding back undoes it |
| ComplexNumbers.Scale | Mandelbrot/Complex.swift:113-115 | product with a real; `DivideRealScaleCancel` shows it undoes division by that real |
| ComplexNumbers.Multiply | Mandelbrot/Complex.swift:118-120 | `(xa - yb, xb + ya)`; `MultiplyCommutative`, `MultiplyAssociative`, `MultiplyOne` and `RadiusSquareMultiply` state its laws |
| ComplexNumbers.Divide | Mandelbrot/Complex.swift:123-125 | multiplication by `conj(n) / radiusSquare(n)`; `DivideMultiplyCancel` shows multiplying by `n` undoes it |
| ComplexNumbers.DivideReal | Mandelbrot/Complex.swift:128-130 | componentwise quotient by a non-zero real; `DivideRealScaleCancel` shows scaling undoes it |
| ComplexNumbers.Equal | Mandelbrot/Complex.swift:91-93 | `==` holds exactly when both numbers are the same value |
| ComplexNumbers.LessIrreflexive | Mandelbrot/Complex.swift:14-16 | no number is below itself in the lexicographic order |
| ComplexNumbers.LessTransitive | Mandelbrot/Complex.swift:14-16 | the lexicographic order is transitive |
| ComplexNumbers.LessTrichotomy | Mandelbrot/Complex.swift:14-16 | exactly one of `a < b`, `a == b`, `b < a` holds |
| ComplexNumbers.Component | Mandelbrot/Complex.swift:55-61 | index 0 reads the real part and index 1 the imaginary part: putting the result back in that place rebuilds the number; other indices trap |
| ComplexNumbers.RadiusSquare | Mandelbrot/Complex.swift:63 | the squared radius is never negative |
| ComplexNumbers.AddCommutative | Mandelbrot/Complex.swift:103-105 | addition is commutative |
| ComplexNumbers.SubtractAddCancel | Mandelbrot/Complex.swift:103-110 | subtracting `b` and then adding it back gives the original number |
| ComplexNumbers.MultiplyCommutative | Mandelbrot/Complex.swift:118-120 | multiplication is commutative |
| ComplexNumbers.MultiplyOne | Mandelbrot/Complex.swift:118-120 | 1 is the identity of multiplication |
| ComplexNumbers.MultiplyAssociative | Mandelbrot/Complex.swift:118-120 | multiplication is associative |
| ComplexNumbers.ConjugateInvolution | Mandelbrot/Complex.swift:98-100 | conjugating twice gives the number back |
| ComplexNumbers.MultiplyConjugate | Mandelbrot/Complex.swift:98-120 | a number times its conjugate is the real number `radiusSquare` |
| ComplexNumbers.RadiusSquareMultiply | Mandelbrot/Complex.swift:118-120 | the squared radius of a product is the product of the squared radii |
| ComplexNumbers.DivideRealScaleCancel | Mandelbrot/Complex.swift:113-130 | multiplying by a non-zero real undoes dividing by it |
| ComplexNumbers.InverseTimesSelf | Mandelbrot/Complex.swift:123-125 | `conj(n) / radiusSquare(n)` times `n` is 1 for every non-zero `n` |
| ComplexNumbers.DivideMultiplyCancel | Mandelbrot/Complex.swift:123-125 | `a.divide(n).multiply(n) == a` for every non-zero `n` |
| ComplexNumbers.Power | Mandelbrot/Complex.swift:138-147 | power 0 is 1, power 1 the number, power 2 its square; powers -1 and -2 are the inverses of the number and of its square |
| ComplexNumbers.ConjugateInPlace | Mandelbrot/Complex.swift:149-151 | negating `y` in place leaves the conjugate |
| ComplexNumbers.AddInPlace | Mandelbrot/Complex.swift:153-156 | the two field updates leave the sum |
| ComplexNumbers.SubtractInPlace | Mandelbrot/Complex.swift:158-161 | the two field updates leave the difference |
| ComplexNumbers.ScaleInPlace | Mandelbrot/Complex.swift:163-166 | the two field updates leave the product with the real |
| ComplexNumbers.MultiplyInPlace | Mandelbrot/Complex.swift:168-170 | the mutation leaves the product |
| ComplexNumbers.DivideInPlace | Mandelbrot/Complex.swift:172-174 | the value left behind, multiplied by `n`, gives the original number back |
| ComplexNumbers.DivideRealInPlace | Mandelbrot/Complex.swift:176-179 | the two field updates leave the quotient by the real |
| ComplexNumbers.Lerp | Mandelbrot/Complex.swift:181-183 | `t = 0` gives `min` and `t = (1, 1)` gives `max`; the offset from `min` is `t` times the extent, component by component |
| ComplexNumbers.LerpIsMix | Mandelbrot/MyPlayground.playground/Contents.swift:18-21 | the struct's `lerp` and the playground's simd `mix` agree on every input |
| ComplexNumbers.Square | Mandelbrot/MyPlayground.playground/Contents.swift:16 | `square` is the number multiplied by itself |
| ComplexNumbers.SquareRadiusSquare | Mandelbrot/MyPlayground.playground/Contents.swift:13-16 | squaring squares the squared radius |
| RealMath.Clamp | Mandelbrot/Mandelbrot.swift:50 | the result lies in [lo, hi]; a value inside is kept and one outside goes to the nearer end |
| RealMath.Truncate | Mandelbrot/Mandelbrot.swift:32-33 | `Int(d)` is the integer next to `d` on the side of zero |
| RealMath.ProductSign | Mandelbrot/Interpol.swift:33 | a product is positive exactly when both factors are non-zero and share their sign |
| Pixels.ClampChannel | Mandelbrot/Pixel.swift:12-14 | values at or below 0 give 0, values at or above 255 give 255, and values in between give their whole part |
| Pixels.ClampChannelOfByte | Mandelbrot/Pixel.swift:12-14 | a channel that already holds a byte value is kept |
| Pixels.ClampChannelMonotone | Mandelbrot/Pixel.swift:12-14 | clamping preserves order |
| Pixels.MakePixel | Mandelbrot/Pixel.swift:21-26 | alpha is 255 and red, green and blue are the clamps of the first three channels; fewer channels trap |
| Pixels.MakePixelOfBytes | Mandelbrot/Pixel.swift:21-26 | a colour given as bytes becomes the opaque pixel of exactly those bytes |
| Pixels.BlackIsOpaqueBlack | Mandelbrot/Pixel.swift:19 | `black` is (a 255, r 0, g 0, b 0) |
| Pixels.CgImage | Mandelbrot/Pixel.swift:31-52 | an image is made exactly when both truncated sides are positive, elements are 4 bytes wide and there is one element per pixel; it then has those sides, `4 * width` bytes per row and the elements unchanged |
| Zips.Next3 | Mandelbrot/Interpol.swift:198-203 | `next()` yields a triple exactly when all three iterators have an element; the triple holds their heads and all three advance |
| Zips.Next3StaysExhausted | Mandelbrot/Interpol.swift:198-203 | once `next()` has returned `nil` it returns `nil` again |
| Zips.Collect3 | Mandelbrot/Interpol.swift:184-208 | the zip yields exactly as many triples as the shortest input has elements, and triple `k` holds the `k`-th elements |
| Zips.Next4 | Mandelbrot/Interpol.swift:226-231 | `next()` yields a quadruple exactly when all four iterators have an element; the quadruple holds their heads and all four advance |
| Zips.Next4StaysExhausted | Mandelbrot/Interpol.swift:226-231 | once `next()` has returned `nil` it returns `nil` again |
| Zips.Collect4 | Mandelbrot/Interpol.swift:210-236 | the zip yields exactly as many quadruples as the shortest input has elements, and quadruple `k` holds the `k`-th elements |
| Zips.Zip3 | Mandelbrot/Interpol.swift:206-208 | the three-way `zip` has as many triples as the shortest input, and triple `k` holds the `k`-th elements |
| Zips.Zip4 | Mandelbrot/Interpol.swift:234-236 | the four-way `zip` has as many quadruples as the shortest input, and quadruple `k` holds the `k`-th elements |
| Zips.Zip2 | Mandelbrot/Interpol.swift:159 | the standard two-way `zip` has as many pairs as the shorter input, and pair `k` holds the `k`-th elements |
| Search.SearchRange | Mandelbrot/Interpol.swift:169-181 | the search from `[low, high)` stays in that range and, for a partitioned predicate, splits it into the elements that satisfy the predicate and those that do not |
| Search.BinarySearch | Mandelbrot/Interpol.swift:169-181 | the result is in `[0, count]`; for a partitioned predicate it is the partition point |
| Search.BinarySearchLoop | Mandelbrot/Interpol.swift:169-181 | the `while` loop terminates for any predicate and agrees with `BinarySearch`; for a partitioned predicate it stops at the partition point |
| Search.SearchLessEqual | Mandelbrot/Interpol.swift:61 | over strictly increasing knots, the partition point of `$0 <= x` is one past the last knot at or below `x` |
| Sorting.Pair | Mandelbrot/Interpol.swift:19-21 | projecting the zipped pairs gives back both sequences |
| Sorting.SortByKey | Mandelbrot/Interpol.swift:19 | the sort returns a permutation of its input |
| Sorting.SortByKeyOrdered | Mandelbrot/Interpol.swift:19 | the sorted keys never decrease |
| Sorting.SortByKeyStrict | Mandelbrot/Interpol.swift:19 | with distinct keys the sorted keys strictly increase |
| Sorting.SortedPermutationUnique | Mandelbrot/Interpol.swift:19 | two strictly key-sorted permutations of the same pairs are equal, so any correct sort gives this result |
| Sorting.SortByKeyOfSorted | Mandelbrot/Interpol.swift:19 | sorting leaves a strictly sorted sequence unchanged |
| Sorting.SortByKeyMapValues | Mandelbrot/Interpol.swift:79-81 | the order depends on the keys only: changing the values commutes with sorting |
| Interpolation.Differences | Mandelbrot/Interpol.swift:24-25 | adding a difference to its element gives the next element; strictly increasing input gives positive differences |
| Interpolation.Tangent | Mandelbrot/Interpol.swift:31-39 | an interior tangent is 0 exactly when the two slopes do not share a sign; otherwise it lies between them |
| Interpolation.Tangents | Mandelbrot/Interpol.swift:40 | there is one tangent per knot, and the two end tangents are the end slopes |
| Interpolation.TangentsFollowSlopes | Mandelbrot/Interpol.swift:24-40 | at every interior knot the tangent is flat exactly where the data turns, and otherwise lies between the neighbouring secant slopes |
| Interpolation.CubicRise | Mandelbrot/Interpol.swift:45-49 | with these coefficients the segment cubic rises by `slope * width` over its segment, whatever the end tangents |
| Interpolation.SegmentsMeet | Mandelbrot/Interpol.swift:43-52 | every segment cubic ends at the next knot's ordinate, so the spline is continuous |
| Interpolation.BuildSpline | Mandelbrot/Interpol.swift:23-52 | the spline keeps the sorted knots, is well formed, and each segment meets the next knot |
| Interpolation.SortKnots | Mandelbrot/Interpol.swift:19-21 | the sorted knots are a permutation of the input pairs with strictly increasing abscissae starting at the least one |
| Interpolation.CreateInterpolant | Mandelbrot/Interpol.swift:11-52 | mismatched or empty input gives the constant 0 and one knot the constant `ys[0]`; otherwise the spline is built on a permutation of the knots |
| Interpolation.SegmentIndex | Mandelbrot/Interpol.swift:61-62 | from the first knot on, the index names the segment holding `x`, or the last segment beyond the last knot; below the first knot it is -1 |
| Interpolation.Evaluate | Mandelbrot/Interpol.swift:55-68 | the closure's body; `EvaluateAtKnot`, `EvaluateOnSegment` and `EvaluateBeyondLastKnot` show it returns each knot's ordinate, the segment cubic between knots and the last cubic beyond the end; `InterpolationBounds.SplineBetweenKnots` shows it never overshoots between two knots |
| Interpolation.EvaluateAtKnot | Mandelbrot/Interpol.swift:55-68 | the spline returns every knot's ordinate exactly, the last knot included |
| Interpolation.EvaluateOnSegment | Mandelbrot/Interpol.swift:61-67 | between two consecutive knots the closure evaluates that segment's cubic |
| Interpolation.EvaluateBeyondLastKnot | Mandelbrot/Interpol.swift:57-67 | beyond the last knot the last segment's cubic is extrapolated |
| Interpolation.InterpolantFitsData | Mandelbrot/Interpol.swift:11-69 | the interpolant passes through every input knot, in whatever order the knots were given |
| InterpolationBounds.TangentBoxPositive | Mandelbrot/Interpol.swift:31-39 | for two positive slopes the interior tangent is at least 0 and at most three times either slope |
| InterpolationBounds.TangentNegated | Mandelbrot/Interpol.swift:31-39 | negating both slopes negates the interior tangent |
| InterpolationBounds.TangentInBox | Mandelbrot/Interpol.swift:31-39 | every interior tangent lies between 0 and three times each neighbouring slope, on the side of that slope |
| InterpolationBounds.SegmentTangentsInBox | Mandelbrot/Interpol.swift:28-40 | both end tangents of every segment, the end slopes included, lie between 0 and three times the segment's slope |
| InterpolationBounds.HermiteBounds | Mandelbrot/Interpol.swift:45-50 | with both tangents in that band, the normalised segment cubic stays within [0, m] on [0, 1] |
| InterpolationBounds.SegmentValueNormalised | Mandelbrot/Interpol.swift:45-67 | the segment cubic at offset `d` equals its start value plus the width times the normalised cubic at `d / width` |
| InterpolationBounds.SegmentBetween | Mandelbrot/Interpol.swift:45-67 | a segment cubic whose tangents lie in the band of its slope stays between its two end values |
| InterpolationBounds.SplineBetweenKnots | Mandelbrot/Interpol.swift:55-68 | on sorted knots the closure's value between two consecutive knots, both included, lies between their ordinates |
| InterpolationBounds.NeighboursAfterSorting | Mandelbrot/Interpol.swift:19-21 | two input knots with no other abscissa between them are consecutive once sorted |
| InterpolationBounds.InterpolantBetweenNeighbours | Mandelbrot/Interpol.swift:11-68 | whatever the input order, `createInterpolant` between two neighbouring knots stays between their ordinates |
| InterpolationBounds.ChannelBetweenNeighbours | Mandelbrot/Interpol.swift:129-145 | every channel of `createInterpolant2` between two neighbouring knots stays between their values of that channel |
| VectorInterpolation.RowTangents | Mandelbrot/Interpol.swift:106 | there is one tangent row per knot, and the end rows are the end slope rows |
| VectorInterpolation.BuildSplineColumn | Mandelbrot/Interpol.swift:84-126 | for rows of one width, channel `j` of every per-segment zip holds the scalar spline's coefficients for channel `j` |
| VectorInterpolation.BuildVectorSpline | Mandelbrot/Interpol.swift:83-126 | the spline keeps the sorted knots and holds one zip per segment; `BuildSplineColumn` shows channel `j` of each zip is the scalar coefficients |
| VectorInterpolation.CreateVectorInterpolant | Mandelbrot/Interpol.swift:71-126 | mismatched or empty input gives the constant `[]` and one knot the constant `ys[0]`; otherwise the spline is built on a permutation of the knots |
| VectorInterpolation.SortColumn | Mandelbrot/Interpol.swift:79-81 | sorting rows and then taking a channel equals taking the channel and then sorting |
| VectorInterpolation.EvaluateVector | Mandelbrot/Interpol.swift:129-145 | the closure's body; `ChannelIsScalarInterpolant` shows every channel is the scalar closure on that channel, and `VectorInterpolantFitsData` that it returns each knot's row |
| VectorInterpolation.ChannelIsScalarInterpolant | Mandelbrot/Interpol.swift:71-145 | for rows of one width `w` the result has width `w`, and channel `j` equals `createInterpolant` run on channel `j` alone |
| VectorInterpolation.VectorInterpolantFitsData | Mandelbrot/Interpol.swift:71-145 | for rows of one width the vector interpolant passes through every knot |
| LinearInterpolation.EvaluateLinearAsWritten | Mandelbrot/Interpol.swift:149-161 | the closure as written, defined exactly where Swift does not trap; `LinearAsWrittenMissesKnot` shows it misses a middle knot and `LinearAsWrittenOnUnitSegment` that it is right on the two-knot segment [0, 1] |
| LinearInterpolation.LinearAsWrittenMissesKnot | Mandelbrot/Interpol.swift:148-162 | the closure as written misses a middle knot: knots 0, 0.5, 1 with rows [0], [10], [20] give [15] at 0.5 |
| LinearInterpolation.LinearAtKnot | Mandelbrot/Interpol.swift:148-162 | the segment-local blend passes through every knot |
| LinearInterpolation.LinearStaysBetweenKnots | Mandelbrot/Interpol.swift:154-160 | between two knots each channel of the segment-local blend lies between the knots' values |
| LinearInterpolation.LinearAsWrittenOnUnitSegment | Mandelbrot/Interpol.swift:158-159 | on the single segment [0, 1], the closure as written and the segment-local blend agree |
| Escape.Next | Mandelbrot/Mandelbrot.swift:47 | one step `z = z.square + c`, with `square` equal to `z * z` by `Square`; `RealOrbit` and `OriginNeverEscapes` follow orbits under it |
| Escape.Escaped | Mandelbrot/Mandelbrot.swift:48 | the negated guard `radiusSquare < 256`; `RealAxisEscape` characterizes it on the real axis |
| Escape.Smooth | Mandelbrot/Mandelbrot.swift:49 | the smooth value, with the transcendental term as a parameter; `SlotValue` clamps it into [0, 1] |
| Escape.FirstStop | Mandelbrot/Mandelbrot.swift:46-48 | the first loop index whose state passes the stop test, or `maxiter` if none does; no earlier state passes |
| Escape.StopLoop | Mandelbrot/Mandelbrot.swift:45-53 | the loop takes at most `maxiter` steps and breaks at the first state that passes the stop test |
| Escape.FirstStopIsLeast | Mandelbrot/Mandelbrot.swift:46-48 | any index with the defining properties is the one `FirstStop` returns |
| Escape.FixedPointNeverStops | Mandelbrot/Mandelbrot.swift:45-53 | from a fixed point of the step that does not stop the loop, the loop runs to the end |
| Escape.FirstEscapeSearch | Mandelbrot/MyPlayground.playground/Contents.swift:24-31 | the first offset whose iterate has `radiusSquare >= 256`, with that iterate, where no earlier iterate escapes; `(max, 1.0)` when none does |
| Escape.SlotValue | Mandelbrot/Mandelbrot.swift:36-51 | every slot value lies in [0, 1] |
| Escape.PixelValue | Mandelbrot/Mandelbrot.swift:36-53 | a pixel's slot is written exactly when its orbit escapes within `maxiter` steps; otherwise it stays 1.0 |
| Escape.EscapeValues | Mandelbrot/Mandelbrot.swift:36-54 | there is one slot per pixel, slot `i` is set by pixel `i` alone, every slot lies in [0, 1], and a slot whose orbit does not escape keeps 1.0 |
| Escape.OriginNeverEscapes | Mandelbrot/Mandelbrot.swift:45-53 | the orbit of 0 never escapes |
| Escape.OriginSlot | Mandelbrot/Mandelbrot.swift:36-53 | the slot of the point 0 keeps the value 1.0 |
| Escape.RealOrbit | Mandelbrot/Mandelbrot.swift:47 | an orbit that starts on the real axis stays on it, following `a * a + c` |
| Escape.RealAxisEscape | Mandelbrot/Mandelbrot.swift:48 | a real iterate `a` has escaped exactly when `a * a >= 256` |
| Mandelbrot.Hue | Mandelbrot/Mandelbrot.swift:25 | every sampled hue lies in [0, 1], and the first is 0 |
| Mandelbrot.PaletteEntry | Mandelbrot/Mandelbrot.swift:24-28 | every palette entry is opaque |
| Mandelbrot.PaletteFrom | Mandelbrot/Mandelbrot.swift:23-28 | the palette has exactly 512 entries, all opaque |
| Mandelbrot.ControlsWellFormed | Mandelbrot/Mandelbrot.swift:13-20 | the control points have distinct hues, three channels each, and a hue at 0 |
| Mandelbrot.Palette | Mandelbrot/Mandelbrot.swift:12-29 | the palette has exactly 512 entries |
| Mandelbrot.PaletteChannel | Mandelbrot/Mandelbrot.swift:19-28 | each channel of entry `i` is the scalar cubic interpolant of that channel's control values at hue `i / 511`, clamped to a byte |
| Mandelbrot.PaletteAtControl | Mandelbrot/Mandelbrot.swift:12-29 | an entry whose hue is a control hue has that control colour |
| Mandelbrot.PaletteStartsWithFirstControl | Mandelbrot/Mandelbrot.swift:12-29 | the first entry is the first control colour, (255, 0, 7, 100) |
| Mandelbrot.PaletteFromBetween | Mandelbrot/Mandelbrot.swift:12-29 | for any well-formed control points, an entry whose hue lies between two neighbouring control hues has every channel between those two control values, clamped to bytes |
| Mandelbrot.PaletteBetweenControls | Mandelbrot/Mandelbrot.swift:12-29 | between neighbouring control hues the palette's red, green and blue stay between the two control colours: no overshoot |
| Mandelbrot.PaletteIndex | Mandelbrot/Mandelbrot.swift:56 | for a value in [0, 1] the index is inside the palette; 0 picks the first entry and 1 the last |
| Mandelbrot.IndexDiv | Mandelbrot/Mandelbrot.swift:41 | the quotient truncates toward zero for either sign of the divisor: it leaves a remainder at least 0 and below the magnitude of the divisor |
| Mandelbrot.IndexRem | Mandelbrot/Mandelbrot.swift:41 | the remainder lies below the divisor's magnitude and recombines with the quotient to the index |
| Mandelbrot.Coordinates | Mandelbrot/Mandelbrot.swift:41 | `(i % width, height - i / width)` with Swift's operators; `CoordinatesInTile` and `CoordinatesInjective` show it maps the tile's indices one to one into the tile |
| Mandelbrot.CoordinatesInTile | Mandelbrot/Mandelbrot.swift:41 | every index of the tile maps to `x` in [0, width) and `y` in [1, height] |
| Mandelbrot.CoordinatesInjective | Mandelbrot/Mandelbrot.swift:41 | distinct indices map to distinct pixels |
| Mandelbrot.PixelPoint | Mandelbrot/Mandelbrot.swift:42-43 | the pixel's coordinates over the untruncated size, `lerp`ed into the rectangle; `Render` ties each pixel's colour to it |
| Mandelbrot.Render | Mandelbrot/Mandelbrot.swift:31-57 | an image comes back exactly when both sides are at least one pixel; it has one pixel per slot, and pixel `i` is the palette entry of the slot value of its point |
| MandelLayer.AspectCorrection | Mandelbrot/MandelLayer.swift:50-58 | at most one component of the correction is non-zero, and neither is negative |
| MandelLayer.Corrected | Mandelbrot/MandelLayer.swift:59-60 | the widened rectangle contains the world rectangle and has the same centre |
| MandelLayer.CorrectedAspect | Mandelbrot/MandelLayer.swift:51-60 | the widened rectangle's width over height is exactly the bounds' ratio |
| MandelLayer.TileCorners | Mandelbrot/MandelLayer.swift:65-66 | the corners are the rectangle's `lerp` at `(u, v)` and at `(u + i, v + j)` |
| MandelLayer.WholeTile | Mandelbrot/MandelLayer.swift:65-66 | a tile covering the whole bounds gets the whole rectangle |
| MandelLayer.LayerPoint | Mandelbrot/MandelLayer.swift:91-93 | the pixel's coordinates over the truncated sides, `lerp`ed into the tile's rectangle; `LayerMandelbrot` and `Draw` tie each pixel's value to it |
| MandelLayer.LayerMandelbrot | Mandelbrot/MandelLayer.swift:81-107 | one value in [0, 1] per pixel, which is the slot value of the pixel's point |
| MandelLayer.Draw | Mandelbrot/MandelLayer.swift:37-79 | a tile image comes back exactly when the tile is at least one pixel each way; it has the tile's truncated width and height, and pixel `i` is the palette entry of the slot value of its point in the corrected tile |

## Left out

- The smoothing term `log2(log(z.radius))` is transcendental. It is the parameter `logLogRadius`, so nothing is stated about its value.
- `radius`, `arg`, `power(_: Double)` and the default branch of `power(_: Int)` need `sqrt`, `atan2`, `pow`, `sin` and `cos`, so they are left out. The same goes for the `∠` operators.
- ComplexNumbers.Power: covers only the exponents -2 to 2, the ones the source handles without `pow`.
- `hashValue` (which uses the overflowing `&+`) and `description` (formatting of `Double`) are left out.
- `CGExtensions.swift` and `ViewController.swift` are not part of this model. They hold the view setup, the gesture handling, the cache keys and the `CGSize` scaling.
- In `draw(in:)`, several inputs become parameters of `MandelLayer.Draw`:
  - the conversion of the tile rectangle to user space;
  - the read of `ctx.ctm`;
  - the division by `contentsScale`;
  - `maxiter = 48 * Int(log2(zoom))`.

  The call `ctx.draw` is left out.
- Creating the `CGImage` is left out: the data provider, the buffer copy and the colour space. `Pixels.CgImage` keeps the guards and the layout values. It treats the CoreGraphics calls, which can also fail, as succeeding.
- `DispatchQueue.concurrentPerform` is modelled as a sequential loop over the pixel indices. Every pass writes only its own slot, so the order does not matter.
- IEEE-754 behaviour (infinities, NaN, rounding, overflow) is not modelled. Inputs that would divide by zero are excluded by preconditions instead:
  - duplicate abscissae in an interpolant;
  - a zero divisor;
  - an empty tile bound.
- `Interpolation.Evaluate` and `VectorInterpolation.EvaluateVector` require `x` at or above the first knot. Below it the search gives index -1, and the Swift closure traps on `xs[-1]`.
- The palette calls `createInterpolant(xs:ys:type:)`, which is not defined in `Interpol.swift`. The call is modelled as `createInterpolant2(xs:ys:)` on the three-channel colours.
- `Mandelbrot.swift` and `MandelLayer.swift` each build the same palette from the same control points. It is defined once, as `Mandelbrot.Palette`.
- The free function computes `Complex(x, y) * recip(Complex(size))` in simd. This is read lane by lane as `(x / width, y / height)`, with the untruncated size.
- Swift's `sorted` is modelled by an insertion sort on the key. `Sorting.SortedPermutationUnique` shows that, for the distinct keys the model requires, every correct sort gives the same result.
- RealMath.Truncate: does not model the trap of `Int(_:)` on a `Double` outside the range of `Int`, so the model converts every size.
- Swift's `Int` arithmetic traps on overflow. The model does not model the overflow of `width * height` at `Mandelbrot.swift:34` and `MandelLayer.swift:84`, because its integers are unbounded.
- Escape.FirstEscapeSearch: the fallback element `1.0` is read as the vector (1.0, 1.0). This follows the model's reading of the simd literal, which no file of the program shows.
- The playground's `print` of the search result at `c = -2.5` is not evaluated. Only the search itself, `Escape.FirstEscapeSearch`, is modelled.
- VectorInterpolation.RowTangents: states the count and the two end rows. The interior rows are related to the scalar tangents through `VectorInterpolation.BuildSplineColumn`.

## Findings

| source | as written | input that shows it | evidently intended | confidence | as-written member | corrected member |
|---|---|---|---|---|---|---|
| Mandelbrot/Interpol.swift:158-159 | each channel is `x * (b - a) + a`, which blends the segment's rows by the absolute `x` | knots 0, 0.5, 1 with rows [0], [10], [20], evaluated at `x = 0.5`, give [15] | blend by the position inside the segment, `(x - xs[i]) / (xs[i+1] - xs[i])`, which gives [10] at the knot 0.5 | not executed | LinearInterpolation.LinearAsWrittenMissesKnot | LinearInterpolation.LinearAtKnot |
