/** Products of reals. The geometry writes every product as `Mul(a, b)`
    rather than `a * b`: the solver's nonlinear arithmetic is incomplete and
    its search grows quickly with the number of products in a formula, so the
    proofs name the nonlinear facts they need through the small lemmas below
    (each one fact over distinct variables) and otherwise combine them
    linearly. */
module Reals {

  function Mul(a: real, b: real): real
  {
    a * b
  }

  lemma MulCommutes(a: real, b: real)
    ensures Mul(a, b) == Mul(b, a)
  {
  }

  lemma MulZero(a: real)
    ensures Mul(a, 0.0) == 0.0 && Mul(0.0, a) == 0.0
  {
  }

  lemma MulOne(a: real)
    ensures Mul(a, 1.0) == a && Mul(1.0, a) == a
  {
  }

  lemma MulNonnegative(a: real, b: real)
    requires a >= 0.0 && b >= 0.0
    ensures Mul(a, b) >= 0.0
  {
  }

  lemma MulPositive(a: real, b: real)
    requires a > 0.0 && b > 0.0
    ensures Mul(a, b) > 0.0
  {
  }

  lemma MulNegatives(a: real, b: real)
    requires a < 0.0 && b < 0.0
    ensures Mul(a, b) > 0.0
  {
  }

  /** Multiplying by a non-negative factor keeps the order. */
  lemma MulMonotone(a: real, b: real, c: real)
    requires a <= b && c >= 0.0
    ensures Mul(a, c) <= Mul(b, c)
  {
  }

  /** Multiplying by a positive factor keeps the strict order. */
  lemma MulStrictMonotone(a: real, b: real, c: real)
    requires a < b && c > 0.0
    ensures Mul(a, c) < Mul(b, c)
  {
  }

  lemma SquareNonnegative(a: real)
    ensures Mul(a, a) >= 0.0
  {
    if a < 0.0 {
      MulNegatives(a, a);
    } else {
      MulNonnegative(a, a);
    }
  }

  lemma SquarePositive(a: real)
    requires a != 0.0
    ensures Mul(a, a) > 0.0
  {
    if a < 0.0 {
      MulNegatives(a, a);
    } else {
      MulPositive(a, a);
    }
  }

  /** Squaring is strictly increasing on the non-negative reals. */
  lemma SquareLess(a: real, b: real)
    requires 0.0 <= a < b
    ensures Mul(a, a) < Mul(b, b)
  {
    MulMonotone(a, b, a);
    MulStrictMonotone(a, b, b);
    MulCommutes(b, a);
  }

  lemma SquareAtMost(a: real, b: real)
    requires 0.0 <= a <= b
    ensures Mul(a, a) <= Mul(b, b)
  {
    MulMonotone(a, b, a);
    MulMonotone(a, b, b);
    MulCommutes(b, a);
  }

  lemma MulNegate(a: real, b: real)
    ensures Mul(-a, b) == -Mul(a, b) && Mul(a, -b) == -Mul(a, b)
  {
  }

  /** A number no further from zero than b has a square no larger. */
  lemma SquareWithin(a: real, b: real)
    requires -b <= a <= b || b <= a <= -b
    ensures Mul(a, a) <= Mul(b, b)
  {
    MulNegate(a, a);
    MulNegate(-a, a);
    MulNegate(b, b);
    MulNegate(-b, b);
    if a >= 0.0 && b >= 0.0 {
      SquareAtMost(a, b);
    } else if a >= 0.0 {
      SquareAtMost(a, -b);
    } else if b >= 0.0 {
      SquareAtMost(-a, b);
    } else {
      SquareAtMost(-a, -b);
    }
  }

  /** A square below the square of a non-negative b bounds the number
      strictly by b on both sides. */
  lemma SquareBelow(a: real, b: real)
    requires b >= 0.0 && Mul(a, a) < Mul(b, b)
    ensures -b < a < b
  {
    MulNegate(a, a);
    MulNegate(-a, a);
    if a >= b {
      SquareAtMost(b, a);
    } else if -a >= b {
      SquareAtMost(b, -a);
    }
  }

  /** The non-strict counterpart of SquareBelow. */
  lemma SquareAtMostBound(a: real, b: real)
    requires b >= 0.0 && Mul(a, a) <= Mul(b, b)
    ensures -b <= a <= b
  {
    MulNegate(a, a);
    MulNegate(-a, a);
    if a > b {
      SquareLess(b, a);
    } else if -a > b {
      SquareLess(b, -a);
    }
  }

  /** `sqrt` behaves as the square root on the non-negative reals. */
  ghost predicate IsSqrt(sqrt: real -> real)
  {
    forall x :: 0.0 <= x ==> 0.0 <= sqrt(x) && Mul(sqrt(x), sqrt(x)) == x
  }

  lemma MulPositiveNegative(a: real, b: real)
    requires a > 0.0 && b < 0.0
    ensures Mul(a, b) < 0.0
  {
  }

  /** A product with a non-zero factor vanishes only with the other one. */
  lemma MulCancel(k: real, x: real)
    requires k != 0.0 && Mul(k, x) == 0.0
    ensures x == 0.0
  {
  }

  lemma DivNonnegative(x: real, d: real)
    requires x >= 0.0 && d > 0.0
    ensures x / d >= 0.0
  {
  }

  /** A positive number divided by a negative one is negative. */
  lemma DivNegative(x: real, d: real)
    requires x > 0.0 && d < 0.0
    ensures x / d < 0.0
  {
    DivMulCancel(x, d);
    if x / d >= 0.0 {
      MulNonnegative(x / d, -d);
      MulNegate(x / d, d);
    }
  }

  lemma DivAtMostOne(x: real, d: real)
    requires x <= d && d > 0.0
    ensures x / d <= 1.0
  {
  }

  /** Dividing and multiplying back by the same non-zero number. */
  lemma DivMulCancel(x: real, d: real)
    requires d != 0.0
    ensures Mul(x / d, d) == x
  {
  }

  /** Dividing by a positive number keeps the strict order. */
  lemma DivStrictMonotone(x: real, y: real, d: real)
    requires x < y && d > 0.0
    ensures x / d < y / d
  {
  }

  lemma MulDivCancel(k: real, x: real)
    requires k != 0.0
    ensures Mul(k, x) / k == x
  {
  }

  /** Sums of quotients over one denominator. */
  lemma DivAdd(x: real, y: real, d: real)
    requires d != 0.0
    ensures x / d + y / d == (x + y) / d
  {
  }

  lemma DivSelf(d: real)
    requires d != 0.0
    ensures d / d == 1.0
  {
  }
}
