/** The complex value type of `Complex.swift`, together with the `double2`
    extension of the playground (`square`, `radiusSquare`, `lerp`) and simd's
    `mix`, all over exact reals. */
module ComplexNumbers {
  import RealMath

  datatype Complex = Complex(x: real, y: real)

  const Zero := Complex(0.0, 0.0)
  const One := Complex(1.0, 0.0)

  /** `Complex(real:)`, also the integer and float literal initialisers. */
  function FromReal(r: real): Complex
  {
    Complex(r, 0.0)
  }

  // ---------------------------------------------------------------------
  // Comparison

  /** `<`: lexicographic on (x, y). */
  predicate Less(a: Complex, b: Complex)
  {
    if a.x == b.x then a.y < b.y else a.x < b.x
  }

  /** `==`: componentwise equality, which is exactly value equality. */
  predicate Equal(a: Complex, b: Complex)
    ensures Equal(a, b) <==> a == b
  {
    a.x == b.x && a.y == b.y
  }

  lemma LessIrreflexive(a: Complex)
    ensures !Less(a, a)
  {
  }

  lemma LessTransitive(a: Complex, b: Complex, c: Complex)
    requires Less(a, b) && Less(b, c)
    ensures Less(a, c)
  {
  }

  /** Exactly one of `a < b`, `a == b`, `b < a` holds. */
  lemma LessTrichotomy(a: Complex, b: Complex)
    ensures (Less(a, b) && !Equal(a, b) && !Less(b, a))
         || (!Less(a, b) && Equal(a, b) && !Less(b, a))
         || (!Less(a, b) && !Equal(a, b) && Less(b, a))
  {
  }

  // ---------------------------------------------------------------------
  // Components

  /** `subscript(index:)`; any index other than 0 or 1 is a `fatalError`. */
  function Component(z: Complex, index: int): (r: real)
    requires index == 0 || index == 1
    ensures Complex(if index == 0 then r else z.x, if index == 1 then r else z.y) == z
  {
    if index == 0 then z.x else z.y
  }

  /** `radiusSquare`: `x * x + y * y` (the playground's `length_squared`). */
  function RadiusSquare(z: Complex): (r: real)
    ensures r >= 0.0
  {
    SquareNonNegative(z.x);
    SquareNonNegative(z.y);
    z.x * z.x + z.y * z.y
  }

  lemma SquarePositive(a: real)
    requires a != 0.0
    ensures a * a > 0.0
  {
    if a > 0.0 {
      RealMath.ProductPositive(a, a);
    } else {
      RealMath.ProductPositive(-a, -a);
      assert (-a) * (-a) == a * a;
    }
  }

  lemma SquareNonNegative(a: real)
    ensures a * a >= 0.0
  {
    if a != 0.0 {
      SquarePositive(a);
    }
  }

  // ---------------------------------------------------------------------
  // Arithmetic

  function Conjugate(z: Complex): Complex
  {
    Complex(z.x, -z.y)
  }

  function Add(a: Complex, n: Complex): Complex
  {
    Complex(a.x + n.x, a.y + n.y)
  }

  function Subtract(a: Complex, n: Complex): Complex
  {
    Complex(a.x - n.x, a.y - n.y)
  }

  /** `multiply(_ n: Double)`: scaling by a real. */
  function Scale(a: Complex, n: real): Complex
  {
    Complex(a.x * n, a.y * n)
  }

  /** `multiply(_ n: Complex)`. */
  function Multiply(a: Complex, n: Complex): Complex
  {
    Complex(a.x * n.x - a.y * n.y, a.x * n.y + a.y * n.x)
  }

  /** `divide(_ n: Double)`. */
  function DivideReal(a: Complex, n: real): Complex
    requires n != 0.0
  {
    Complex(a.x / n, a.y / n)
  }

  /** `divide(_ n: Complex)`: multiplication by `conj(n) / |n|^2`. */
  function Divide(a: Complex, n: Complex): Complex
    requires RadiusSquare(n) != 0.0
  {
    Multiply(a, DivideReal(Conjugate(n), RadiusSquare(n)))
  }

  /** `power(_ n: Int)` for the cases the source handles without `pow`. */
  function Power(z: Complex, n: int): (r: Complex)
    requires -2 <= n <= 2
    requires n == -1 ==> RadiusSquare(z) != 0.0
    requires n == -2 ==> RadiusSquare(Multiply(z, z)) != 0.0
    ensures n == 0 ==> r == One
    ensures n == 1 ==> r == z
    ensures n == 2 ==> r == Multiply(z, z)
    ensures n == -1 ==> Multiply(r, z) == One
    ensures n == -2 ==> Multiply(r, Multiply(z, z)) == One
  {
    if n == 0 then One
    else if n == 1 then z
    else if n == -1 then
      DivideMultiplyCancel(One, z);
      MultiplyOne(z);
      Divide(FromReal(1.0), z)
    else if n == 2 then Multiply(z, z)
    else
      DivideMultiplyCancel(One, Multiply(z, z));
      Divide(FromReal(1.0), Multiply(z, z))
  }

  // ---------------------------------------------------------------------
  // Algebraic laws

  lemma AddCommutative(a: Complex, b: Complex)
    ensures Add(a, b) == Add(b, a)
  {
  }

  /** `a.subtract(b).add(b) == a`. */
  lemma SubtractAddCancel(a: Complex, b: Complex)
    ensures Add(Subtract(a, b), b) == a
  {
  }

  lemma MultiplyCommutative(a: Complex, b: Complex)
    ensures Multiply(a, b) == Multiply(b, a)
  {
  }

  lemma MultiplyOne(a: Complex)
    ensures Multiply(a, One) == a && Multiply(One, a) == a
  {
  }

  lemma MultiplyAssociative(a: Complex, b: Complex, c: Complex)
    ensures Multiply(Multiply(a, b), c) == Multiply(a, Multiply(b, c))
  {
    var ab := Multiply(a, b);
    var bc := Multiply(b, c);
    calc {
      Multiply(ab, c).x;
      (a.x * b.x - a.y * b.y) * c.x - (a.x * b.y + a.y * b.x) * c.y;
      a.x * (b.x * c.x - b.y * c.y) - a.y * (b.x * c.y + b.y * c.x);
      Multiply(a, bc).x;
    }
    calc {
      Multiply(ab, c).y;
      (a.x * b.x - a.y * b.y) * c.y + (a.x * b.y + a.y * b.x) * c.x;
      a.x * (b.x * c.y + b.y * c.x) + a.y * (b.x * c.x - b.y * c.y);
      Multiply(a, bc).y;
    }
  }

  lemma ConjugateInvolution(z: Complex)
    ensures Conjugate(Conjugate(z)) == z
  {
  }

  /** `z * conj(z)` is the real number `radiusSquare`. */
  lemma MultiplyConjugate(z: Complex)
    ensures Multiply(z, Conjugate(z)) == FromReal(RadiusSquare(z))
  {
    assert z.x * (-z.y) + z.y * z.x == 0.0;
  }

  /** `|a * b|^2 == |a|^2 * |b|^2`. */
  lemma RadiusSquareMultiply(a: Complex, b: Complex)
    ensures RadiusSquare(Multiply(a, b)) == RadiusSquare(a) * RadiusSquare(b)
  {
    var p := Multiply(a, b);
    calc {
      RadiusSquare(p);
      (a.x * b.x - a.y * b.y) * (a.x * b.x - a.y * b.y) + (a.x * b.y + a.y * b.x) * (a.x * b.y + a.y * b.x);
      (a.x * a.x) * (b.x * b.x) + (a.y * a.y) * (b.y * b.y) + (a.x * a.x) * (b.y * b.y) + (a.y * a.y) * (b.x * b.x);
      (a.x * a.x + a.y * a.y) * (b.x * b.x + b.y * b.y);
    }
  }

  /** Scaling undoes real division. */
  lemma DivideRealScaleCancel(a: Complex, n: real)
    requires n != 0.0
    ensures Scale(DivideReal(a, n), n) == a
  {
  }

  /** `n / |n|^2 * conj(n)`-style inverse: `conj(n) / |n|^2` times `n` is one. */
  lemma InverseTimesSelf(n: Complex)
    requires RadiusSquare(n) != 0.0
    ensures Multiply(DivideReal(Conjugate(n), RadiusSquare(n)), n) == One
  {
    InverseComponents(n.x, n.y, RadiusSquare(n));
  }

  /** The components of `conj(n) / |n|^2` times `n`, over plain reals. */
  lemma InverseComponents(a: real, b: real, r: real)
    requires r != 0.0 && r == a * a + b * b
    ensures (a / r) * a - (-b / r) * b == 1.0
    ensures (a / r) * b + (-b / r) * a == 0.0
  {
    assert (a / r) * a == (a * a) / r;
    assert (-b / r) * b == -((b * b) / r);
    assert (a * a) / r + (b * b) / r == r / r;
  }

  /** Dividing and multiplying back by the same non-zero `n` is the identity. */
  lemma DivideMultiplyCancel(a: Complex, n: Complex)
    requires RadiusSquare(n) != 0.0
    ensures Multiply(Divide(a, n), n) == a
  {
    var w := DivideReal(Conjugate(n), RadiusSquare(n));
    MultiplyAssociative(a, w, n);
    InverseTimesSelf(n);
    MultiplyOne(a);
  }

  // ---------------------------------------------------------------------
  // In-place variants: each writes the fields the way the mutating method
  // does and leaves the value the pure operation computes.

  method ConjugateInPlace(z: Complex) returns (self: Complex)
    ensures self == Conjugate(z)
  {
    self := z;
    self := self.(y := -self.y);
  }

  method AddInPlace(z: Complex, n: Complex) returns (self: Complex)
    ensures self == Add(z, n)
  {
    self := z;
    self := self.(x := self.x + n.x);
    self := self.(y := self.y + n.y);
  }

  method SubtractInPlace(z: Complex, n: Complex) returns (self: Complex)
    ensures self == Subtract(z, n)
  {
    self := z;
    self := self.(x := self.x - n.x);
    self := self.(y := self.y - n.y);
  }

  method ScaleInPlace(z: Complex, n: real) returns (self: Complex)
    ensures self == Scale(z, n)
  {
    self := z;
    self := self.(x := self.x * n);
    self := self.(y := self.y * n);
  }

  method MultiplyInPlace(z: Complex, n: Complex) returns (self: Complex)
    ensures self == Multiply(z, n)
  {
    self := Multiply(z, n);
  }

  method DivideInPlace(z: Complex, n: Complex) returns (self: Complex)
    requires RadiusSquare(n) != 0.0
    ensures Multiply(self, n) == z
  {
    self := Divide(z, n);
    DivideMultiplyCancel(z, n);
  }

  method DivideRealInPlace(z: Complex, n: real) returns (self: Complex)
    requires n != 0.0
    ensures self == DivideReal(z, n)
  {
    self := z;
    self := self.(x := self.x / n);
    self := self.(y := self.y / n);
  }

  // ---------------------------------------------------------------------
  // Interpolation and the playground extension

  /** `t.lerp(min:max:)`: componentwise `t * (max - min) + min`. */
  function Lerp(t: Complex, min: Complex, max: Complex): (r: Complex)
    ensures t == Zero ==> r == min
    ensures t == Complex(1.0, 1.0) ==> r == max
    ensures Subtract(r, min) == Complex(t.x * (max.x - min.x), t.y * (max.y - min.y))
  {
    Complex(t.x * (max.x - min.x) + min.x, t.y * (max.y - min.y) + min.y)
  }

  /** simd's `mix(a, b, t:)`: `a + t * (b - a)` lane by lane. */
  function Mix(a: Complex, b: Complex, t: Complex): Complex
  {
    Add(a, Complex(t.x * Subtract(b, a).x, t.y * Subtract(b, a).y))
  }

  /** The struct's `lerp` and the playground's `lerp` (simd `mix`) agree. */
  lemma LerpIsMix(t: Complex, min: Complex, max: Complex)
    ensures Lerp(t, min, max) == Mix(min, max, t)
  {
    var d := Subtract(max, min);
    assert d.x == max.x - min.x && d.y == max.y - min.y;
    assert Mix(min, max, t) == Complex(min.x + t.x * d.x, min.y + t.y * d.y);
  }

  /** The playground's `square`: `(x*x - y*y, x*y + y*x)`, which is `z * z`. */
  function Square(z: Complex): (r: Complex)
    ensures r == Multiply(z, z)
  {
    Complex(z.x * z.x - z.y * z.y, z.x * z.y + z.y * z.x)
  }

  /** Squaring squares the squared radius. */
  lemma SquareRadiusSquare(z: Complex)
    ensures RadiusSquare(Square(z)) == RadiusSquare(z) * RadiusSquare(z)
  {
    RadiusSquareMultiply(z, z);
  }
}
