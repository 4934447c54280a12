/** The escape-time iteration shared by `Mandelbrot.swift`, `MandelLayer.swift`
    and the playground: `z` starts at 0 and is replaced by `z.square + c`
    until its squared radius reaches 256 or the step budget runs out. The
    smoothing term `log2(log(z.radius))` is transcendental and enters as the
    parameter `logLogRadius`. */
module Escape {
  import opened RealMath
  import opened ComplexNumbers

  /** `escape = 256.0`, compared with `radiusSquare`. */
  const EscapeRadiusSquare: real := 256.0

  /** The state after `n` applications of `step` to `start`. */
  function Iterate<S>(step: S -> S, start: S, n: nat): S
  {
    if n == 0 then start else step(Iterate(step, start, n - 1))
  }

  /** The first loop index `k` in [from, max) whose state (the one after
      `k + 1` steps) satisfies `stop`, or `max` if there is none. */
  function FirstStop<S>(step: S -> S, stop: S -> bool, start: S, from: nat, max: nat): (k: nat)
    requires from <= max
    ensures from <= k <= max
    ensures k < max ==> stop(Iterate(step, start, k + 1))
    ensures forall n :: from < n <= k ==> !stop(Iterate(step, start, n))
    decreases max - from
  {
    if from == max then max
    else if stop(Iterate(step, start, from + 1)) then from
    else FirstStop(step, stop, start, from + 1, max)
  }

  /** The inner loop of both `mandelbrot` functions, for any step and stop
      test: `for iter in 0..<maxiter` with one step per pass and a `break` at
      the first state that passes the test. */
  method StopLoop<S>(step: S -> S, stop: S -> bool, start: S, maxiter: nat) returns (iter: nat, s: S)
    ensures iter == FirstStop(step, stop, start, 0, maxiter)
    ensures iter < maxiter ==> s == Iterate(step, start, iter + 1) && stop(s)
  {
    s := start;
    iter := 0;
    while iter < maxiter
      invariant iter <= maxiter
      invariant s == Iterate(step, start, iter)
      invariant FirstStop(step, stop, start, iter, maxiter) == FirstStop(step, stop, start, 0, maxiter)
    {
      s := step(s);
      if stop(s) {
        return;
      }
      iter := iter + 1;
    }
  }

  /** `FirstStop` is the least such index: any `k` with the defining
      properties is the one it returns. */
  lemma {:induction false} FirstStopIsLeast<S>(step: S -> S, stop: S -> bool, start: S, from: nat, max: nat, k: nat)
    requires from <= k <= max
    requires k < max ==> stop(Iterate(step, start, k + 1))
    requires forall n :: from < n <= k ==> !stop(Iterate(step, start, n))
    ensures FirstStop(step, stop, start, from, max) == k
    decreases max - from
  {
    if from < k {
      assert !stop(Iterate(step, start, from + 1));
      FirstStopIsLeast(step, stop, start, from + 1, max, k);
    }
  }

  /** A start state that the step leaves unchanged and that does not stop
      the loop never stops it. */
  lemma FixedPointNeverStops<S>(step: S -> S, stop: S -> bool, start: S, max: nat)
    requires step(start) == start && !stop(start)
    ensures FirstStop(step, stop, start, 0, max) == max
  {
    forall n: nat
      ensures Iterate(step, start, n) == start
    {
      IterateFixedPoint(step, start, n);
    }
    FirstStopIsLeast(step, stop, start, 0, max, max);
  }

  lemma IterateStep<S>(step: S -> S, start: S, n: nat)
    requires n > 0
    ensures Iterate(step, start, n) == step(Iterate(step, start, n - 1))
  {
  }

  lemma {:induction false} IterateFixedPoint<S>(step: S -> S, start: S, n: nat)
    requires step(start) == start
    ensures Iterate(step, start, n) == start
  {
    if n > 0 {
      IterateFixedPoint(step, start, n - 1);
    }
  }

  /** What one pass of the loop works on: the iterate `z` and the point `c`. */
  datatype LoopState = LoopState(z: Complex, c: Complex)

  /** `z = z.square + c`. */
  function Next(s: LoopState): LoopState
  {
    LoopState(Add(Square(s.z), s.c), s.c)
  }

  /** The negation of the loop guard `z.radiusSquare < escape`. */
  predicate Escaped(s: LoopState)
  {
    !(RadiusSquare(s.z) < EscapeRadiusSquare)
  }

  /** `var z = Complex()` next to the point `c`. */
  function Initial(c: Complex): LoopState
  {
    LoopState(Zero, c)
  }

  /** The iterate after `n` steps from 0. */
  function Orbit(c: Complex, n: nat): Complex
  {
    Iterate(Next, Initial(c), n).z
  }

  function FirstEscape(c: Complex, max: nat): nat
  {
    FirstStop(Next, Escaped, Initial(c), 0, max)
  }

  /** The playground's search
      `zs.first { $0.1.radiusSquare >= 256 } ?? (offset: max, element: 1.0)`
      over the first `max` iterates, numbered from 0: the first escaping
      offset and iterate, or `max` with the literal 1.0 as the element. The
      model reads that literal as the vector (1.0, 1.0), one copy per lane. */
  function FirstEscapeSearch(c: Complex, max: nat): (r: (nat, Complex))
    ensures r.0 <= max
    ensures r.0 < max ==> RadiusSquare(r.1) >= 256.0 && r.1 == Orbit(c, r.0 + 1)
    ensures forall n :: 0 < n <= r.0 ==> RadiusSquare(Orbit(c, n)) < 256.0
    ensures r.0 == max ==> r.1 == Complex(1.0, 1.0)
  {
    var k := FirstEscape(c, max);
    if k < max then (k, Orbit(c, k + 1)) else (max, Complex(1.0, 1.0))
  }

  /** `(Double(iter) - log2(log(z.radius))) / Double(maxiter)`. */
  function Smooth(iter: nat, z: Complex, maxiter: nat, logLogRadius: Complex -> real): real
    requires maxiter > 0
  {
    (iter as real - logLogRadius(z)) / maxiter as real
  }

  /** The value one pixel's slot ends with: 1.0 when the orbit does not
      escape within `maxiter` steps, otherwise the smooth value clamped to
      [0, 1] (`simd_clamp(smooth, 0, 1.0)`). */
  function SlotValue(c: Complex, maxiter: nat, logLogRadius: Complex -> real): (v: real)
    ensures 0.0 <= v <= 1.0
  {
    var k := FirstEscape(c, maxiter);
    if k < maxiter then Clamp(Smooth(k, Orbit(c, k + 1), maxiter, logLogRadius), 0.0, 1.0)
    else 1.0
  }

  /** The body run for one pixel: the slot starts at 1.0 and is written once,
      when the orbit escapes. */
  method PixelValue(c: Complex, maxiter: nat, logLogRadius: Complex -> real) returns (slot: real, written: bool)
    ensures written <==> FirstEscape(c, maxiter) < maxiter
    ensures !written ==> slot == 1.0
    ensures slot == SlotValue(c, maxiter, logLogRadius)
  {
    slot := 1.0;
    written := false;
    var iter, s := StopLoop(Next, Escaped, Initial(c), maxiter);
    if iter < maxiter {
      slot := Clamp(Smooth(iter, s.z, maxiter, logLogRadius), 0.0, 1.0);
      written := true;
    }
  }

  /** The per-pixel loop of both `mandelbrot` functions, run one index after
      the other: every slot starts at 1.0 and slot `i` is overwritten, by
      pixel `i` only, when the orbit of `point(i)` escapes. A negative
      `maxiter` traps in `0..<maxiter` as soon as one pixel is computed. */
  method EscapeValues(point: nat --> Complex, count: nat, maxiter: int, logLogRadius: Complex -> real)
    returns (result: seq<real>)
    requires forall i: nat :: i < count ==> point.requires(i)
    requires count > 0 ==> maxiter >= 0
    ensures |result| == count
    ensures forall i: nat :: i < count ==> result[i] == SlotValue(point(i), maxiter, logLogRadius)
    ensures forall i: nat :: i < count ==> 0.0 <= result[i] <= 1.0
    ensures forall i: nat :: i < count && FirstEscape(point(i), maxiter) == maxiter ==> result[i] == 1.0
  {
    result := seq(count, _ => 1.0);
    var i := 0;
    while i < count
      invariant i <= count && |result| == count
      invariant forall k: nat :: k < i ==> result[k] == SlotValue(point(k), maxiter, logLogRadius)
      invariant forall k :: i <= k < count ==> result[k] == 1.0
    {
      var slot, written := PixelValue(point(i), maxiter, logLogRadius);
      if written {
        result := result[i := slot];
      }
      i := i + 1;
    }
  }

  /** The point 0 is a fixed point of the step that never escapes, so its
      slot keeps the value 1.0. */
  lemma OriginNeverEscapes(maxiter: nat)
    ensures FirstEscape(Zero, maxiter) == maxiter
  {
    OriginFixed();
    OriginInside();
    FixedPointNeverStops(Next, Escaped, Initial(Zero), maxiter);
  }

  lemma OriginSlot(maxiter: nat, logLogRadius: Complex -> real)
    ensures SlotValue(Zero, maxiter, logLogRadius) == 1.0
  {
    OriginNeverEscapes(maxiter);
  }

  lemma OriginFixed()
    ensures Next(Initial(Zero)) == Initial(Zero)
  {
  }

  lemma OriginInside()
    ensures !Escaped(Initial(Zero))
  {
  }

  /** The iterates from a point `c` on the real axis, as reals. */
  function RealOrbitValue(c: real, n: nat): real
  {
    if n == 0 then 0.0 else RealStep(RealOrbitValue(c, n - 1), c)
  }

  /** `z * z + c` on the real axis. */
  function RealStep(a: real, c: real): real
  {
    a * a + c
  }

  /** An orbit that starts on the real axis stays there. */
  lemma {:induction false} RealOrbit(c: real, n: nat)
    ensures Iterate(Next, Initial(Complex(c, 0.0)), n)
            == LoopState(Complex(RealOrbitValue(c, n), 0.0), Complex(c, 0.0))
  {
    if n > 0 {
      RealOrbit(c, n - 1);
      IterateStep(Next, Initial(Complex(c, 0.0)), n);
      RealAxisStep(c, RealOrbitValue(c, n - 1));
    }
  }

  /** One step from the real axis stays on it. */
  lemma RealAxisStep(c: real, a: real)
    ensures Next(LoopState(Complex(a, 0.0), Complex(c, 0.0)))
            == LoopState(Complex(RealStep(a, c), 0.0), Complex(c, 0.0))
  {
    SquareOnRealAxis(a);
  }

  lemma SquareOnRealAxis(a: real)
    ensures Square(Complex(a, 0.0)) == Complex(a * a, 0.0)
  {
  }

  /** A state on the real axis at `a` has escaped exactly when `a * a >= 256`. */
  lemma RealAxisEscape(s: LoopState, a: real)
    requires s.z == Complex(a, 0.0)
    ensures Escaped(s) <==> a * a >= 256.0
  {
  }
}
