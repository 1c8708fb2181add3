/**
 * Sign facts about products and quotients of reals. Products of two
 * computed quantities in the combat formulas are written with `Mul` and
 * `Square`, so that these facts apply to them by name.
 */
module RealArith {

  function Mul(a: real, b: real): real { a * b }

  function Square(x: real): real { Mul(x, x) }

  lemma MulNonNegative(a: real, b: real)
    requires a >= 0.0 && b >= 0.0
    ensures Mul(a, b) >= 0.0
  {
    assert a * b >= 0.0;
  }

  lemma MulPositive(a: real, b: real)
    requires a > 0.0 && b > 0.0
    ensures Mul(a, b) > 0.0
  {
    assert a * b > 0.0;
  }

  lemma MulZero(a: real, b: real)
    ensures a == 0.0 || b == 0.0 ==> Mul(a, b) == 0.0
  {
  }

  /** A product of a positive factor is zero only when the other factor is. */
  lemma MulZeroIff(a: real, b: real)
    requires b > 0.0
    ensures Mul(a, b) == 0.0 <==> a == 0.0
  {
    if a != 0.0 {
      assert a * b != 0.0;
    }
  }

  lemma MulNegatives(a: real, b: real)
    ensures Mul(-a, -b) == Mul(a, b)
  {
  }

  lemma SquareNonNegative(x: real)
    ensures Square(x) >= 0.0
  {
    if x >= 0.0 {
      MulNonNegative(x, x);
    } else {
      MulNonNegative(-x, -x);
      MulNegatives(x, x);
    }
  }

  lemma SquarePositive(x: real)
    requires x != 0.0
    ensures Square(x) > 0.0
  {
    if x > 0.0 {
      MulPositive(x, x);
    } else {
      MulPositive(-x, -x);
      MulNegatives(x, x);
    }
  }

  /** `Mul` is associative and commutative enough to regroup three factors. */
  lemma MulRegroup(a: real, b: real, c: real)
    ensures Mul(Mul(a, b), c) == Mul(a, Mul(c, b))
  {
    assert (a * b) * c == a * (c * b);
  }

  lemma QuotientNonNegative(a: real, b: real)
    requires a >= 0.0 && b > 0.0
    ensures a / b >= 0.0
  {
  }

  lemma DivideThenMultiply(x: real, a: real)
    requires a != 0.0
    ensures Mul(x / a, a) == x
  {
  }

  /** Cancelling a non-zero factor. */
  lemma MulCancel(x: real, y: real, a: real)
    requires a != 0.0 && Mul(x, a) == Mul(y, a)
    ensures x == y
  {
    assert (x - y) * a == 0.0;
  }

  lemma MultiplyThenDivide(x: real, a: real)
    requires a != 0.0
    ensures Mul(x, a) / a == x
  {
  }

  /** Squaring a quotient squares the numerator and the denominator. */
  lemma SquareQuotient(x: real, a: real)
    requires a != 0.0
    ensures Square(a) > 0.0 && Square(x / a) == Square(x) / Square(a)
  {
    SquarePositive(a);
    assert (x / a) * (x / a) * (a * a) == x * x;
  }
}
