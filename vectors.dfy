/** The 2-D vector value type (IsolineMap/Vector.cs) over exact reals. */
module Vectors {
  import opened Reals

  datatype Vector = Vector(x: real, y: real)

  const Zero := Vector(0.0, 0.0)

  /** The struct's Equals: component-wise comparison. It coincides with
      value identity, which is what Dafny's `==` on the datatype means. */
  function Equals(a: Vector, b: Vector): (r: bool)
    ensures r <==> a == b
  {
    a.x == b.x && a.y == b.y
  }

  /** Squared length, x*x + y*y: never negative. */
  function LengthSq(v: Vector): (r: real)
    ensures r >= 0.0
  {
    SquareNonnegative(v.x);
    SquareNonnegative(v.y);
    Mul(v.x, v.x) + Mul(v.y, v.y)
  }

  /** Multiply(v, s), v.Multiply(s) and the operator v * s: the result is
      parallel to v and its squared length grows by s*s. */
  function Scale(v: Vector, s: real): (r: Vector)
    ensures Cross(r, v) == 0.0
    ensures LengthSq(r) == Mul(Mul(s, s), LengthSq(v))
  {
    Vector(Mul(v.x, s), Mul(v.y, s))
  }

  /** Multiply(s, v) and the operator s * v: the same vector as Scale(v, s). */
  function ScaleLeft(s: real, v: Vector): (r: Vector)
    ensures r == Scale(v, s)
  {
    Vector(Mul(v.x, s), Mul(v.y, s))
  }

  /** operator +. */
  function Add(a: Vector, b: Vector): Vector
  {
    Vector(a.x + b.x, a.y + b.y)
  }

  /** Binary minus; undone by adding the subtrahend back. */
  function Sub(a: Vector, b: Vector): (r: Vector)
    ensures Add(r, b) == a
  {
    Vector(a.x - b.x, a.y - b.y)
  }

  /** Unary minus: the additive inverse. */
  function Neg(a: Vector): (r: Vector)
    ensures Add(a, r) == Zero
    ensures Add(r, a) == Zero
  {
    Vector(-a.x, -a.y)
  }

  /** Dot. */
  function Dot(l: Vector, r: Vector): real
  {
    Mul(l.x, r.x) + Mul(l.y, r.y)
  }

  /** Cross, the scalar 2-D cross product. */
  function Cross(l: Vector, r: Vector): real
  {
    Mul(l.x, r.y) - Mul(l.y, r.x)
  }

  /** The squared length of a sum follows the law of cosines. */
  lemma AddLengthSq(a: Vector, b: Vector)
    ensures LengthSq(Add(a, b)) == LengthSq(a) + LengthSq(b) + 2.0 * Dot(a, b)
  {
  }

  /** Lagrange's identity in the plane: the cross and the dot product
      together split the product of the squared lengths. */
  lemma Lagrange(u: Vector, w: Vector)
    ensures Mul(LengthSq(u), LengthSq(w)) - Mul(Dot(u, w), Dot(u, w)) == Mul(Cross(u, w), Cross(u, w))
  {
  }

  /** The dot product is bounded by the product of the lengths
      (Cauchy-Schwarz), with equality exactly for parallel vectors. */
  lemma DotBound(u: Vector, w: Vector)
    ensures Mul(Dot(u, w), Dot(u, w)) <= Mul(LengthSq(u), LengthSq(w))
    ensures Mul(Dot(u, w), Dot(u, w)) == Mul(LengthSq(u), LengthSq(w)) <==> Cross(u, w) == 0.0
  {
    Lagrange(u, w);
    SquareNonnegative(Cross(u, w));
    if Cross(u, w) != 0.0 {
      SquarePositive(Cross(u, w));
    } else {
      MulZero(0.0);
    }
  }

  lemma EqualsIsEquivalence(a: Vector, b: Vector, c: Vector)
    ensures Equals(a, a)
    ensures Equals(a, b) ==> Equals(b, a)
    ensures Equals(a, b) && Equals(b, c) ==> Equals(a, c)
  {
  }

  /** operator == is Equals and operator != is its negation; both are the
      built-in equality of the datatype. */
  lemma OperatorsAreEquals(a: Vector, b: Vector)
    ensures (a == b) == Equals(a, b)
    ensures (a != b) == !Equals(a, b)
  {
  }

  /** A difference is the zero vector exactly for equal operands. */
  lemma SubZero(a: Vector, b: Vector)
    ensures Sub(a, b) == Zero <==> a == b
  {
  }

  /** A point is at squared distance zero from itself. */
  lemma LengthSqSelf(p: Vector)
    ensures LengthSq(Sub(p, p)) == 0.0
  {
  }

  lemma SubIsAddNeg(a: Vector, b: Vector)
    ensures Sub(a, b) == Add(a, Neg(b))
  {
  }

  lemma AddCommutes(a: Vector, b: Vector)
    ensures Add(a, b) == Add(b, a)
  {
  }

  lemma CrossAntisymmetric(l: Vector, r: Vector)
    ensures Cross(l, r) == -Cross(r, l)
    ensures Cross(l, l) == 0.0
  {
    MulCommutes(l.x, r.y);
    MulCommutes(l.y, r.x);
    MulCommutes(l.x, l.y);
  }

  lemma DotSymmetric(l: Vector, r: Vector)
    ensures Dot(l, r) == Dot(r, l)
    ensures Dot(l, l) == LengthSq(l) >= 0.0
  {
    MulCommutes(l.x, r.x);
    MulCommutes(l.y, r.y);
  }

  /** The doubled signed area of a, b, c, measured from any point p. */
  lemma CrossOfDifferences(a: Vector, b: Vector, c: Vector, p: Vector)
    ensures Cross(Sub(b, a), Sub(c, a))
            == Cross(Sub(a, p), Sub(b, p)) + Cross(Sub(b, p), Sub(c, p)) + Cross(Sub(c, p), Sub(a, p))
  {
  }

  /** In the plane, Cross(c, a) b + Cross(a, b) c + Cross(b, c) a is the
      zero vector. */
  lemma ThreeCrosses(a: Vector, b: Vector, c: Vector)
    ensures Mul(Cross(c, a), b.x) + Mul(Cross(a, b), c.x) + Mul(Cross(b, c), a.x) == 0.0
    ensures Mul(Cross(c, a), b.y) + Mul(Cross(a, b), c.y) + Mul(Cross(b, c), a.y) == 0.0
  {
  }

  /** A point on the line through a and b and on the line through b and c,
      where a, b and c are not collinear, is b. */
  lemma CornerOfTwoLines(a: Vector, b: Vector, c: Vector, p: Vector)
    requires Cross(Sub(a, p), Sub(b, p)) == 0.0 && Cross(Sub(b, p), Sub(c, p)) == 0.0
    requires Cross(Sub(c, p), Sub(a, p)) != 0.0
    ensures b == p
  {
    var pa, pb, pc := Sub(a, p), Sub(b, p), Sub(c, p);
    ThreeCrosses(pa, pb, pc);
    MulCancel(Cross(pc, pa), pb.x);
    MulCancel(Cross(pc, pa), pb.y);
  }
}
