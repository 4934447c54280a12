/** Small numeric helpers shared by the model: Swift's `min`/`max`,
    `simd_clamp`, and the truncating `Int(_:)` conversion of a `Double`. */
module RealMath {

  function Min(a: real, b: real): (r: real)
    ensures r <= a && r <= b && (r == a || r == b)
  {
    if a <= b then a else b
  }

  function Max(a: real, b: real): (r: real)
    ensures r >= a && r >= b && (r == a || r == b)
  {
    if a >= b then a else b
  }

  /** `min` on counts and indices. Swift's `min` is generic; Dafny has no
      ordering constraint on type parameters, so the integer instance is
      declared next to the real one. */
  function MinNat(a: nat, b: nat): (r: nat)
    ensures r <= a && r <= b && (r == a || r == b)
  {
    if a <= b then a else b
  }

  /** `simd_clamp(x, lo, hi)`: `min(max(x, lo), hi)`. */
  function Clamp(x: real, lo: real, hi: real): (r: real)
    requires lo <= hi
    ensures lo <= r <= hi
    ensures lo <= x <= hi ==> r == x
    ensures x < lo ==> r == lo
    ensures x > hi ==> r == hi
  {
    Min(Max(x, lo), hi)
  }

  /** `Int(d)` for a finite `Double`: rounds toward zero. */
  function Truncate(d: real): (n: int)
    ensures d >= 0.0 ==> 0 <= n && n as real <= d < n as real + 1.0
    ensures d < 0.0 ==> n <= 0 && n as real - 1.0 < d <= n as real
  {
    if d >= 0.0 then d.Floor else -((-d).Floor)
  }

  lemma ProductPositive(a: real, b: real)
    requires a > 0.0 && b > 0.0
    ensures a * b > 0.0
  {
  }

  /** A product is positive exactly when both factors are nonzero and share
      their sign. */
  lemma ProductSign(a: real, b: real)
    ensures a * b > 0.0 <==> (a > 0.0 && b > 0.0) || (a < 0.0 && b < 0.0)
  {
    if a > 0.0 && b > 0.0 {
      ProductPositive(a, b);
    } else if a < 0.0 && b < 0.0 {
      ProductPositive(-a, -b);
      assert (-a) * (-b) == a * b;
    } else if a > 0.0 && b < 0.0 {
      ProductPositive(a, -b);
      assert a * (-b) == -(a * b);
    } else if a < 0.0 && b > 0.0 {
      ProductPositive(-a, b);
      assert (-a) * b == -(a * b);
    } else {
      assert a == 0.0 || b == 0.0;
    }
  }
}
