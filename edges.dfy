/** Unordered point pairs (IsolineMap/Edge.cs). The C# constructor stores the
    two points in the order of their hash codes; the model uses the
    lexicographic order on (x, y) instead, a genuine strict total order. */
module Edges {
  import opened Vectors

  /** Strict lexicographic order on points: x first, then y. */
  predicate Less(a: Vector, b: Vector)
  {
    a.x < b.x || (a.x == b.x && a.y < b.y)
  }

  lemma LessIsStrictTotalOrder(a: Vector, b: Vector, c: Vector)
    ensures !Less(a, a)
    ensures Less(a, b) ==> !Less(b, a)
    ensures Less(a, b) && Less(b, c) ==> Less(a, c)
    ensures a != b ==> Less(a, b) || Less(b, a)
  {
  }

  datatype PointPair = PointPair(p1: Vector, p2: Vector)

  /** A pair in canonical order: p1 never comes after p2. */
  predicate Canonical(e: PointPair)
  {
    !Less(e.p2, e.p1)
  }

  /** Every Edge value is canonical, as every C# Edge is once constructed. */
  type Edge = e: PointPair | Canonical(e) witness PointPair(Zero, Zero)

  /** The constructor Edge(start, end): the same two points, put in
      canonical order. Equal points are accepted (a degenerate edge). */
  function MakeEdge(start: Vector, end: Vector): (e: Edge)
    ensures {e.p1, e.p2} == {start, end}
    ensures e.p1 == start || e.p1 == end
    ensures e.p2 == (if e.p1 == start then end else start)
    ensures !Less(e.p2, e.p1)
  {
    if Less(start, end) then PointPair(start, end) else PointPair(end, start)
  }

  /** The Points property: Point1, then Point2. */
  function Points(e: Edge): seq<Vector>
  {
    [e.p1, e.p2]
  }

  /** `v` is one of the two endpoints (Points.Any(v.Equals)). */
  predicate OnEdge(v: Vector, e: Edge)
  {
    v == e.p1 || v == e.p2
  }

  /** Equals(Edge): component-wise on the canonical pair, hence value identity. */
  function EdgeEquals(e: Edge, f: Edge): (r: bool)
    ensures r <==> e == f
  {
    Equals(e.p1, f.p1) && Equals(e.p2, f.p2)
  }

  /** Strict lexicographic order on edges, induced by the point order. */
  predicate EdgeLess(e: Edge, f: Edge)
  {
    Less(e.p1, f.p1) || (e.p1 == f.p1 && Less(e.p2, f.p2))
  }

  /** CompareTo: negative, zero or positive as e comes before, equals or
      comes after f. */
  function CompareTo(e: Edge, f: Edge): (r: int)
    ensures r < 0 <==> EdgeLess(e, f)
    ensures r == 0 <==> e == f
    ensures r > 0 <==> EdgeLess(f, e)
  {
    if EdgeLess(e, f) then -1 else if e == f then 0 else 1
  }

  lemma EdgeLessIsStrictTotalOrder(e: Edge, f: Edge, g: Edge)
    ensures !EdgeLess(e, e)
    ensures EdgeLess(e, f) ==> !EdgeLess(f, e)
    ensures EdgeLess(e, f) && EdgeLess(f, g) ==> EdgeLess(e, g)
    ensures e != f ==> EdgeLess(e, f) || EdgeLess(f, e)
  {
  }

  /** Construction does not depend on the order of the two arguments. */
  lemma MakeEdgeSymmetric(a: Vector, b: Vector)
    ensures MakeEdge(a, b) == MakeEdge(b, a)
  {
  }

  /** Canonical pairs are exactly what the constructor produces. */
  lemma MakeEdgeOfEdge(e: Edge)
    ensures MakeEdge(e.p1, e.p2) == e
  {
  }

  /** Two constructed edges are equal exactly when they join the same points. */
  lemma MakeEdgeInjective(a: Vector, b: Vector, c: Vector, d: Vector)
    ensures MakeEdge(a, b) == MakeEdge(c, d) <==> {a, b} == {c, d}
  {
  }

  /** Nothing rejects equal endpoints: Edge(a, a) is a degenerate edge. */
  lemma DegenerateEdge(a: Vector)
    ensures MakeEdge(a, a) == PointPair(a, a)
  {
  }

  lemma EdgeEqualsIsEquivalence(e: Edge, f: Edge, g: Edge)
    ensures EdgeEquals(e, e)
    ensures EdgeEquals(e, f) ==> EdgeEquals(f, e)
    ensures EdgeEquals(e, f) && EdgeEquals(f, g) ==> EdgeEquals(e, g)
  {
  }
}
