/** Complex numbers (src/Complex.ts) over exact real components, with the
    equality, sum, difference and product instances, the field record and
    the vector space derived from it. */
module Complex {
  import Algebra
  import Vector

  datatype Complex = Complex(r: real, i: real)

  /** `MonoidSum.empty`, the additive identity. */
  const Zero: Complex := Complex(0.0, 0.0)

  /** `MonoidProduct.empty`, the multiplicative identity. */
  const One: Complex := Complex(1.0, 0.0)

  /** `Eq`: both components equal. */
  predicate Eq(x: Complex, y: Complex)
    ensures Eq(x, y) <==> x == y
  {
    x.r == y.r && x.i == y.i
  }

  /** `MagmaSub.concat`. */
  function Sub(x: Complex, y: Complex): (z: Complex)
  {
    Complex(x.r - y.r, x.i - y.i)
  }

  /** `SemigroupSum.concat` (also `MonoidSum.concat`). */
  function Add(x: Complex, y: Complex): (z: Complex)
  {
    Complex(x.r + y.r, x.i + y.i)
  }

  /** `SemigroupProduct.concat` (also `MonoidProduct.concat`). */
  function Mul(x: Complex, y: Complex): (z: Complex)
  {
    Complex(x.r * y.r - x.i * y.i, x.i * y.r + y.i * x.r)
  }

  /** The squared modulus `c^2 + d^2` of `y = c + di`, the divisor of `div`. */
  function NormSquared(y: Complex): (n: real)
  {
    y.r * y.r + y.i * y.i
  }

  // The square lemmas name each product by a variable of its own (`p`, `s`):
  // comparing a product with a literal directly leaves the solver's
  // nonlinear arithmetic without an answer.

  /** The product `p` of two positive reals is positive. */
  lemma PositiveProduct(a: real, b: real, p: real)
    requires a > 0.0 && b > 0.0 && p == a * b
    ensures p > 0.0
  {
  }

  /** The square `s` of a non-zero real is positive. */
  lemma SquarePositive(a: real, s: real)
    requires a != 0.0 && s == a * a
    ensures s > 0.0
  {
    if a > 0.0 {
      PositiveProduct(a, a, s);
    } else {
      PositiveProduct(-a, -a, s);
    }
  }

  /** No square is negative. */
  lemma SquareNonNegative(a: real, s: real)
    requires s == a * a
    ensures s >= 0.0
  {
    if a != 0.0 {
      SquarePositive(a, s);
    }
  }

  /** The squared modulus of a non-zero complex number is positive, so
      `div` never divides by zero. */
  lemma NormSquaredPositive(y: Complex)
    requires y != Zero
    ensures NormSquared(y) > 0.0
  {
    var rr, ii := y.r * y.r, y.i * y.i;
    if y.r != 0.0 {
      SquarePositive(y.r, rr);
      SquareNonNegative(y.i, ii);
    } else {
      SquarePositive(y.i, ii);
      SquareNonNegative(y.r, rr);
    }
    assert NormSquared(y) == rr + ii;
  }

  /** `Field.div`: `(a + bi) / (c + di) = ((ac + bd) + (bc - ad)i) / (c^2 + d^2)`,
      defined for every non-zero divisor. */
  function Div(x: Complex, y: Complex): (z: Complex)
    requires y != Zero
  {
    NormSquaredPositive(y);
    Complex((x.r * y.r + x.i * y.i) / NormSquared(y), (x.i * y.r - x.r * y.i) / NormSquared(y))
  }

  /** `Field.mod`: a stub that always yields zero. */
  function Mod(x: Complex, y: Complex): (r: Complex)
    ensures r == Zero
  {
    Zero
  }

  /** `Field.degree`: a stub that always yields 1. */
  function Degree(x: Complex): (d: int)
    ensures d == 1
  {
    1
  }

  // ---------------------------------------------------------------------
  // Laws of the instances

  /** Sum and difference act componentwise; `x - x` is zero. */
  lemma SumAndDifference(x: Complex, y: Complex)
    ensures Add(x, y).r == x.r + y.r && Add(x, y).i == x.i + y.i
    ensures Sub(x, y).r == x.r - y.r && Sub(x, y).i == x.i - y.i
    ensures Sub(x, x) == Zero
    ensures Add(Sub(x, y), y) == x
  {
  }

  /** `(0, 0)` is a two-sided identity of the sum, which is commutative and
      associative. */
  lemma MonoidSumLaws(x: Complex, y: Complex, z: Complex)
    ensures Add(x, Zero) == x && Add(Zero, x) == x
    ensures Add(x, y) == Add(y, x)
    ensures Add(Add(x, y), z) == Add(x, Add(y, z))
  {
  }

  /** `(1, 0)` is a two-sided identity of the product, which is commutative
      and associative. */
  lemma MonoidProductLaws(x: Complex, y: Complex, z: Complex)
    ensures Mul(x, One) == x && Mul(One, x) == x
    ensures Mul(x, y) == Mul(y, x)
    ensures Mul(Mul(x, y), z) == Mul(x, Mul(y, z))
  {
    var a, b, c, d, e, f := x.r, x.i, y.r, y.i, z.r, z.i;
    assert (a * c - b * d) * e - (b * c + d * a) * f == a * (c * e - d * f) - b * (d * e + f * c);
    assert (b * c + d * a) * e + f * (a * c - b * d) == b * (c * e - d * f) + (d * e + f * c) * a;
  }

  /** Multiplying the quotient components back by `c + di` recovers `a + bi`. */
  lemma QuotientTimesDivisor(a: real, b: real, c: real, d: real, n: real)
    requires n == c * c + d * d && n != 0.0
    ensures ((a * c + b * d) / n) * c - ((b * c - a * d) / n) * d == a
    ensures ((b * c - a * d) / n) * c + d * ((a * c + b * d) / n) == b
  {
    var p, q := (a * c + b * d) / n, (b * c - a * d) / n;
    assert p * n == a * c + b * d;
    assert q * n == b * c - a * d;
    assert (p * c - q * d) * n == a * n by {
      assert (p * c - q * d) * n == (p * n) * c - (q * n) * d;
    }
    assert (q * c + d * p) * n == b * n by {
      assert (q * c + d * p) * n == (q * n) * c + d * (p * n);
    }
  }

  /** Dividing by a non-zero `y` and multiplying back by `y` returns `x`. */
  lemma MulAfterDiv(x: Complex, y: Complex)
    requires y != Zero
    ensures Mul(Div(x, y), y) == x
  {
    NormSquaredPositive(y);
    QuotientTimesDivisor(x.r, x.i, y.r, y.i, NormSquared(y));
  }

  /** A non-zero divisor also undoes multiplication from the other side. */
  lemma DivAfterMul(x: Complex, y: Complex)
    requires y != Zero
    ensures Div(Mul(x, y), y) == x
  {
    var a, b, c, d := x.r, x.i, y.r, y.i;
    var n := NormSquared(y);
    NormSquaredPositive(y);
    var m := Mul(x, y);
    assert m.r * c + m.i * d == a * n;
    assert m.i * c - m.r * d == b * n;
  }

  // ---------------------------------------------------------------------
  // The field record and the derived vector space

  /** `Field`: sum, product and difference from the instances above, the
      complex quotient for non-zero divisors, and the two stubs. */
  function Field(): (r: Algebra.Field<Complex>)
  {
    Algebra.Field(Add, Zero, Mul, One, Sub,
      (x: Complex, y: Complex) requires y != Zero => Div(x, y),
      Mod, Degree)
  }

  /** `Field` satisfies every field law: the sum and product laws, `x - x`
      is zero and division by a non-zero element inverts multiplication. */
  lemma FieldIsField()
    ensures Algebra.IsField(Field())
  {
    var F := Field();
    assert Algebra.MulAssociative(F) by {
      forall x, y, z ensures Mul(Mul(x, y), z) == Mul(x, Mul(y, z)) {
        MonoidProductLaws(x, y, z);
      }
    }
    assert Algebra.OneIsIdentity(F) by {
      forall x ensures Mul(x, One) == x && Mul(One, x) == x {
        MonoidProductLaws(x, x, x);
      }
    }
    assert Algebra.MulDistributes(F) by {
      forall x, y, z ensures Mul(x, Add(y, z)) == Add(Mul(x, y), Mul(x, z)) {
      }
    }
    assert Algebra.AddUndoesSub(F) by {
      forall x, y ensures Add(Sub(x, y), y) == x {
        SumAndDifference(x, y);
      }
    }
    assert Algebra.MulUndoesDiv(F) by {
      forall x, y | y != Zero ensures Mul(Div(x, y), y) == x {
        MulAfterDiv(x, y);
      }
    }
  }

  /** `VectorField`: the vector space `getVectorField` derives from `Field`. */
  function VectorField(): (r: Vector.VectorField<Complex>)
  {
    Vector.GetVectorField(Field())
  }

  /** On complex vectors, `add(v, zero(n)) == v` holds exactly for n <= 1. */
  lemma VectorFieldAddZero(v: Vector.Vector<Complex>)
    requires Vector.WellShaped(v)
    ensures VectorField().add(v, VectorField().zero(|v.data|)) == v <==> |v.data| <= 1
  {
    var F := Field();
    assert forall x :: F.add(x, F.zero) == x;
    Vector.AddZeroIdentityIff(F, v);
  }

  /** The derived addition does not commute: `[0, 1] + [0, 0]` and
      `[0, 0] + [0, 1]` give the four pairwise sums in different orders. */
  lemma VectorFieldAddNotCommutative()
    ensures VectorField().add(Vector.FromArray([Zero, One]), Vector.FromArray([Zero, Zero]))
         != VectorField().add(Vector.FromArray([Zero, Zero]), Vector.FromArray([Zero, One]))
  {
    var F := Field();
    var x, y := Vector.FromArray([Zero, One]), Vector.FromArray([Zero, Zero]);
    Vector.VectorFieldAdd(F, x, y, 1, 0);
    Vector.VectorFieldAdd(F, y, x, 1, 0);
    assert VectorField().add(x, y).data[2] == Add(One, Zero) == One;
    assert VectorField().add(y, x).data[2] == Add(Zero, Zero) == Zero;
  }

  /** Scaling a complex vector by `scalarOne()` leaves it unchanged. */
  lemma VectorFieldScalarOne(v: Vector.Vector<Complex>)
    requires Vector.WellShaped(v)
    ensures VectorField().scalarMul(VectorField().scalarOne(), v) == v
  {
    FieldIsField();
    Vector.ScalarOneIdentity(Field(), v);
  }
}
