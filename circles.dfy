/** Circles (IsolineMap/Circle.cs). The C# class stores a radius and tests
    `(Center - p).Length() < Radius`; Length is a square root, which reals
    lack, so the model keeps the square of the radius and compares squared
    distances. Over the reals both tests agree (IncludesIsStrictDistance). */
module Circles {
  import opened Vectors
  import opened Reals

  datatype Circle = Circle(center: Vector, radiusSq: real)

  /** The constructor Circle(center, radius). A radius that is not positive
      contains no point, exactly like the square of zero. */
  function NewCircle(center: Vector, radius: real): (c: Circle)
    ensures c.center == center
    ensures c.radiusSq >= 0.0
    ensures radius >= 0.0 ==> c.radiusSq == Mul(radius, radius)
  {
    SquareNonnegative(radius);
    MulZero(0.0);
    Circle(center, if radius > 0.0 then Mul(radius, radius) else 0.0)
  }

  /** A circle has a positive squared radius exactly when its radius is
      positive. */
  lemma PositiveRadius(center: Vector, radius: real)
    ensures NewCircle(center, radius).radiusSq > 0.0 <==> radius > 0.0
  {
    if radius > 0.0 {
      SquarePositive(radius);
    }
  }

  /** Includes: strictly inside; a point on the circle is not included, so
      a circle without a positive radius includes nothing. */
  predicate Includes(c: Circle, p: Vector)
    ensures Includes(c, p) ==> c.radiusSq > 0.0
  {
    LengthSq(Sub(c.center, p)) < c.radiusSq
  }

  /** For any distance `dist` from the centre to `p` (the square root the C#
      code computes), Includes is exactly `dist < radius`. */
  lemma IncludesIsStrictDistance(center: Vector, radius: real, p: Vector, dist: real)
    requires dist >= 0.0 && Mul(dist, dist) == LengthSq(Sub(center, p))
    ensures Includes(NewCircle(center, radius), p) <==> dist < radius
  {
    if radius > 0.0 {
      if dist < radius {
        SquareLess(dist, radius);
      } else {
        SquareAtMost(radius, dist);
      }
    }
  }

  /** A point at distance exactly `radius` is not included. */
  lemma BoundaryExcluded(center: Vector, radius: real, p: Vector)
    requires radius >= 0.0 && Mul(radius, radius) == LengthSq(Sub(center, p))
    ensures !Includes(NewCircle(center, radius), p)
  {
    IncludesIsStrictDistance(center, radius, p, radius);
  }

  /** The centre is included exactly when the radius is positive. */
  lemma IncludesCenter(center: Vector, radius: real)
    ensures Includes(NewCircle(center, radius), center) <==> radius > 0.0
  {
    PositiveRadius(center, radius);
    IncludesOwnCenter(NewCircle(center, radius));
  }

  lemma IncludesOwnCenter(c: Circle)
    ensures Includes(c, c.center) <==> c.radiusSq > 0.0
  {
  }

  /** No point is included when the radius is not positive. */
  lemma NonPositiveRadiusIncludesNothing(center: Vector, radius: real, p: Vector)
    requires radius <= 0.0
    ensures !Includes(NewCircle(center, radius), p)
  {
  }

  /** Growing the radius about the same centre keeps every included point. */
  lemma IncludesMonotone(center: Vector, r: real, r': real, p: Vector)
    requires r <= r'
    requires Includes(NewCircle(center, r), p)
    ensures Includes(NewCircle(center, r'), p)
  {
    SquareAtMost(r, r');
  }
}
