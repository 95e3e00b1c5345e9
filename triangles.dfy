/** Triangles (IsolineMap/Triangle.cs): three edges in sorted order, and for
    each edge the vertex opposite it. */
module Triangles {
  import opened Results
  import opened Reals
  import opened Vectors
  import opened Edges
  import opened Circles
  import opened Orders

  datatype Triangle = Triangle(e1: Edge, e2: Edge, e3: Edge, v1: Vector, v2: Vector, v3: Vector)

  /** The Edges property as a sequence: Edge1, Edge2, Edge3. */
  function EdgeSeq(t: Triangle): seq<Edge>
  {
    [t.e1, t.e2, t.e3]
  }

  function EdgeSet(t: Triangle): set<Edge>
  {
    {t.e1, t.e2, t.e3}
  }

  function Vertices(t: Triangle): set<Vector>
  {
    {t.v1, t.v2, t.v3}
  }

  /** A proper triangle: three distinct corners, each edge joining the two
      corners other than the vertex of the same index, and the edges in
      strictly increasing order. */
  ghost predicate WellFormed(t: Triangle)
  {
    && t.v1 != t.v2 && t.v2 != t.v3 && t.v1 != t.v3
    && t.e1 == MakeEdge(t.v2, t.v3)
    && t.e2 == MakeEdge(t.v3, t.v1)
    && t.e3 == MakeEdge(t.v1, t.v2)
    && EdgeLess(t.e1, t.e2) && EdgeLess(t.e2, t.e3)
  }

  // ---------------------------------------------------------------------
  // The constructor Triangle(e1, e2, e3)
  // ---------------------------------------------------------------------

  /** The edge order is a strict total order. */
  lemma EdgeOrder()
    ensures StrictTotalOrder(EdgeLess)
  {
    forall e: Edge, f: Edge, g: Edge {
      EdgeLessIsStrictTotalOrder(e, f, g);
    }
  }

  /** List.Sort on the three edges, ordered by CompareTo (whose sign is
      EdgeLess): the result is sorted and a permutation of the arguments. */
  function Sort3(a: Edge, b: Edge, c: Edge): (r: seq<Edge>)
    ensures |r| == 3
    ensures multiset(r) == multiset{a, b, c}
    ensures SortedBy(EdgeLess, r)
  {
    EdgeOrder();
    Sort3By(EdgeLess, a, b, c)
  }

  lemma Sort3Permutations(a: Edge, b: Edge, c: Edge)
    ensures Sort3(a, b, c) == Sort3(b, a, c) == Sort3(a, c, b)
            == Sort3(b, c, a) == Sort3(c, a, b) == Sort3(c, b, a)
  {
    EdgeOrder();
    Sort3ByPermutations(EdgeLess, a, b, c);
  }

  function Elems(s: seq<Vector>): set<Vector>
  {
    set v | v in s
  }

  lemma ElemsOfThree(vt: seq<Vector>)
    requires |vt| == 3
    ensures Elems(vt) == {vt[0], vt[1], vt[2]}
  {
  }

  /** LINQ Distinct: the first occurrence of each point, in order. */
  function Distinct(s: seq<Vector>): (r: seq<Vector>)
    ensures Elems(r) == Elems(s)
    ensures forall i, j :: 0 <= i < j < |r| ==> r[i] != r[j]
    ensures |r| == |Elems(s)|
  {
    if |s| == 0 then []
    else
      var d := Distinct(s[..|s| - 1]);
      var v := s[|s| - 1];
      assert s == s[..|s| - 1] + [v];
      assert Elems(s) == Elems(s[..|s| - 1]) + {v};
      if v in d then d
      else
        assert Elems(d + [v]) == Elems(d) + {v};
        d + [v]
  }

  /** Points of the three edges, in the order the constructor visits them. */
  function EndPoints(s: seq<Edge>): seq<Vector>
    requires |s| == 3
  {
    Points(s[0]) + Points(s[1]) + Points(s[2])
  }

  /** vetices.First(a => !edge.Points.Any(a.Equals)): the first point of
      `vs` that is not an endpoint of `e`. */
  function FirstOff(vs: seq<Vector>, e: Edge): (v: Vector)
    requires exists i :: 0 <= i < |vs| && !OnEdge(vs[i], e)
    ensures v in vs && !OnEdge(v, e)
    ensures exists k :: 0 <= k < |vs| && vs[k] == v && forall j :: 0 <= j < k ==> OnEdge(vs[j], e)
  {
    if !OnEdge(vs[0], e) then vs[0]
    else
      var i :| 0 <= i < |vs| && !OnEdge(vs[i], e);
      assert 0 <= i - 1 < |vs[1..]| && !OnEdge(vs[1..][i - 1], e);
      var v := FirstOff(vs[1..], e);
      ghost var k :| 0 <= k < |vs[1..]| && vs[1..][k] == v && forall j :: 0 <= j < k ==> OnEdge(vs[1..][j], e);
      assert vs[k + 1] == v && forall j :: 0 <= j < k + 1 ==> OnEdge(vs[j], e);
      v
  }

  /** Three distinct points are never all on one edge. */
  lemma OffEdgeExists(vs: seq<Vector>, e: Edge)
    requires |vs| == 3 && vs[0] != vs[1] && vs[1] != vs[2] && vs[0] != vs[2]
    ensures exists i :: 0 <= i < |vs| && !OnEdge(vs[i], e)
  {
    if OnEdge(vs[0], e) && OnEdge(vs[1], e) {
      assert !OnEdge(vs[2], e);
    }
  }

  /** The constructor: sorts the edges, collects their distinct endpoints and
      fails with ArgumentException unless there are exactly three; vertex i
      is the first of those points off edge i. */
  function NewTriangle(a: Edge, b: Edge, c: Edge): (r: Result<Triangle>)
    ensures r.Failure? <==> |Elems(EndPoints([a, b, c]))| != 3
    ensures r.Failure? ==> r.error == ArgumentException
    ensures r.Success? ==> EdgeSeq(r.value) == Sort3(a, b, c)
    ensures r.Success? ==> !OnEdge(r.value.v1, r.value.e1) && !OnEdge(r.value.v2, r.value.e2)
                           && !OnEdge(r.value.v3, r.value.e3)
    ensures r.Success? ==> Vertices(r.value) <= Elems(EndPoints([a, b, c]))
  {
    var s := Sort3(a, b, c);
    var vs := Distinct(EndPoints(s));
    EndPointsPermutation(s, a, b, c);
    if |vs| != 3 then Failure(ArgumentException)
    else Success(Assemble(s, vs))
  }

  /** The triangle on sorted edges `s` whose vertex i is the first of the
      distinct points `vs` off edge i. */
  function Assemble(s: seq<Edge>, vs: seq<Vector>): (t: Triangle)
    requires |s| == 3 && |vs| == 3 && vs[0] != vs[1] && vs[1] != vs[2] && vs[0] != vs[2]
    ensures EdgeSeq(t) == s
    ensures !OnEdge(t.v1, t.e1) && !OnEdge(t.v2, t.e2) && !OnEdge(t.v3, t.e3)
    ensures Vertices(t) <= Elems(vs)
  {
    OffEdgeExists(vs, s[0]);
    OffEdgeExists(vs, s[1]);
    OffEdgeExists(vs, s[2]);
    Triangle(s[0], s[1], s[2], FirstOff(vs, s[0]), FirstOff(vs, s[1]), FirstOff(vs, s[2]))
  }

  /** Reordering the edges does not change the set of endpoints. */
  lemma EndPointsPermutation(s: seq<Edge>, a: Edge, b: Edge, c: Edge)
    requires |s| == 3 && multiset(s) == multiset{a, b, c}
    ensures Elems(EndPoints(s)) == Elems(EndPoints([a, b, c]))
  {
    SameElements(s, a, b, c);
    EndPointsWithin(s, [a, b, c]);
    EndPointsWithin([a, b, c], s);
  }

  /** Edges drawn from among another triple's edges have no other ends. */
  lemma EndPointsWithin(s: seq<Edge>, t: seq<Edge>)
    requires |s| == 3 && |t| == 3
    requires {s[0], s[1], s[2]} <= {t[0], t[1], t[2]}
    ensures Elems(EndPoints(s)) <= Elems(EndPoints(t))
  {
    EndPointsOf(s);
    EndPointsOf(t);
    forall i | 0 <= i < 3
      ensures s[i].p1 in Elems(EndPoints(t)) && s[i].p2 in Elems(EndPoints(t))
    {
      assert s[i] in {t[0], t[1], t[2]};
    }
  }

  lemma EndPointsOf(s: seq<Edge>)
    requires |s| == 3
    ensures Elems(EndPoints(s)) == {s[0].p1, s[0].p2, s[1].p1, s[1].p2, s[2].p1, s[2].p2}
  {
  }

  /** The constructor does not depend on the order of its arguments. */
  lemma NewTrianglePermutations(a: Edge, b: Edge, c: Edge)
    ensures NewTriangle(a, b, c) == NewTriangle(b, a, c) == NewTriangle(a, c, b)
            == NewTriangle(b, c, a) == NewTriangle(c, a, b) == NewTriangle(c, b, a)
  {
    Sort3Permutations(a, b, c);
  }

  lemma NewTriangleSwap(a: Edge, b: Edge, c: Edge)
    ensures NewTriangle(a, c, b) == NewTriangle(a, b, c)
  {
    Sort3Permutations(a, b, c);
  }

  lemma SidesDistinct(p: Vector, q: Vector, r: Vector)
    requires p != q && q != r && p != r
    ensures MakeEdge(p, q) != MakeEdge(q, r) && MakeEdge(q, r) != MakeEdge(r, p) && MakeEdge(p, q) != MakeEdge(r, p)
  {
    MakeEdgeInjective(p, q, q, r);
    MakeEdgeInjective(q, r, r, p);
    MakeEdgeInjective(p, q, r, p);
  }

  /** The corner of p, q, r that is not on side `e`. */
  function Across(e: Edge, p: Vector, q: Vector, r: Vector): Vector
  {
    if e == MakeEdge(p, q) then r else if e == MakeEdge(q, r) then p else q
  }

  lemma SidesOfCorners(e1: Edge, e2: Edge, e3: Edge, p: Vector, q: Vector, r: Vector)
    requires p != q && q != r && p != r
    requires e1 != e2 && e2 != e3 && e1 != e3
    requires e1 in {MakeEdge(p, q), MakeEdge(q, r), MakeEdge(r, p)}
    requires e2 in {MakeEdge(p, q), MakeEdge(q, r), MakeEdge(r, p)}
    requires e3 in {MakeEdge(p, q), MakeEdge(q, r), MakeEdge(r, p)}
    ensures e1 == MakeEdge(Across(e2, p, q, r), Across(e3, p, q, r))
    ensures e2 == MakeEdge(Across(e3, p, q, r), Across(e1, p, q, r))
    ensures e3 == MakeEdge(Across(e1, p, q, r), Across(e2, p, q, r))
  {
    SidesDistinct(p, q, r);
    MakeEdgeSymmetric(p, q);
    MakeEdgeSymmetric(q, r);
    MakeEdgeSymmetric(r, p);
  }

  /** Three distinct corners joined pairwise give a proper triangle with
      exactly those corners. */
  lemma FromCorners(p: Vector, q: Vector, r: Vector)
    requires p != q && q != r && p != r
    ensures NewTriangle(MakeEdge(p, q), MakeEdge(q, r), MakeEdge(r, p)).Success?
    ensures WellFormed(NewTriangle(MakeEdge(p, q), MakeEdge(q, r), MakeEdge(r, p)).value)
    ensures Vertices(NewTriangle(MakeEdge(p, q), MakeEdge(q, r), MakeEdge(r, p)).value) == {p, q, r}
  {
    var a, b, c := MakeEdge(p, q), MakeEdge(q, r), MakeEdge(r, p);
    SidesDistinct(p, q, r);
    CornersSpan(p, q, r);
    var t := NewTriangle(a, b, c).value;
    SortedDistinct(EdgeSeq(t), a, b, c);
    CornersOfSides(t, p, q, r);
  }

  lemma CornersSpan(p: Vector, q: Vector, r: Vector)
    requires p != q && q != r && p != r
    ensures Elems(EndPoints([MakeEdge(p, q), MakeEdge(q, r), MakeEdge(r, p)])) == {p, q, r}
    ensures |{p, q, r}| == 3
  {
    EndPointsOf([MakeEdge(p, q), MakeEdge(q, r), MakeEdge(r, p)]);
  }

  /** A sorted arrangement of three distinct edges is strictly increasing. */
  lemma SortedDistinct(s: seq<Edge>, a: Edge, b: Edge, c: Edge)
    requires a != b && b != c && a != c
    requires |s| == 3 && multiset(s) == multiset{a, b, c} && SortedBy(EdgeLess, s)
    ensures EdgeLess(s[0], s[1]) && EdgeLess(s[1], s[2])
    ensures {s[0], s[1], s[2]} == {a, b, c}
  {
    SameElements(s, a, b, c);
    EdgeLessIsStrictTotalOrder(s[0], s[1], s[2]);
    EdgeLessIsStrictTotalOrder(s[1], s[2], s[0]);
  }

  /** A triangle whose edges are the three sides of p, q, r in increasing
      order and whose vertex i is a corner off edge i is proper. */
  lemma CornersOfSides(t: Triangle, p: Vector, q: Vector, r: Vector)
    requires p != q && q != r && p != r
    requires {t.e1, t.e2, t.e3} == {MakeEdge(p, q), MakeEdge(q, r), MakeEdge(r, p)}
    requires EdgeLess(t.e1, t.e2) && EdgeLess(t.e2, t.e3)
    requires Vertices(t) <= {p, q, r}
    requires !OnEdge(t.v1, t.e1) && !OnEdge(t.v2, t.e2) && !OnEdge(t.v3, t.e3)
    ensures WellFormed(t) && Vertices(t) == {p, q, r}
  {
    EdgeLessIsStrictTotalOrder(t.e1, t.e2, t.e3);
    OffSide(t.v1, t.e1, p, q, r);
    OffSide(t.v2, t.e2, p, q, r);
    OffSide(t.v3, t.e3, p, q, r);
    SidesOfCorners(t.e1, t.e2, t.e3, p, q, r);
    SidesDistinct(p, q, r);
  }

  lemma OffSide(v: Vector, e: Edge, p: Vector, q: Vector, r: Vector)
    requires p != q && q != r && p != r
    requires v in {p, q, r}
    requires e in {MakeEdge(p, q), MakeEdge(q, r), MakeEdge(r, p)}
    requires !OnEdge(v, e)
    ensures v == Across(e, p, q, r)
  {
  }

  /** GetOppositeVertex: the vertex stored with the first edge equal to `e`;
      ArgumentException when `e` is none of the three edges. */
  function OppositeVertex(t: Triangle, e: Edge): (r: Result<Vector>)
    ensures r.Success? <==> e in EdgeSet(t)
    ensures r.Failure? ==> r.error == ArgumentException
    ensures WellFormed(t) && r.Success? ==> r.value in Vertices(t) && !OnEdge(r.value, e)
  {
    if EdgeEquals(t.e1, e) then Success(t.v1)
    else if EdgeEquals(t.e2, e) then Success(t.v2)
    else if EdgeEquals(t.e3, e) then Success(t.v3)
    else Failure(ArgumentException)
  }

  /** GetOppositeEdge: the edge stored with the first vertex equal to `p`;
      ArgumentException when `p` is no vertex. */
  function OppositeEdge(t: Triangle, p: Vector): (r: Result<Edge>)
    ensures r.Success? <==> p in Vertices(t)
    ensures r.Failure? ==> r.error == ArgumentException
    ensures WellFormed(t) && r.Success? ==> r.value in EdgeSet(t) && !OnEdge(p, r.value)
  {
    if Equals(t.v1, p) then Success(t.e1)
    else if Equals(t.v2, p) then Success(t.e2)
    else if Equals(t.v3, p) then Success(t.e3)
    else Failure(ArgumentException)
  }

  /** On a proper triangle the two lookups are inverse to each other. */
  lemma OppositeInverse(t: Triangle)
    requires WellFormed(t)
    ensures forall e :: e in EdgeSet(t) ==> OppositeEdge(t, OppositeVertex(t, e).value) == Success(e)
    ensures forall p :: p in Vertices(t) ==> OppositeVertex(t, OppositeEdge(t, p).value) == Success(p)
  {
    EdgeLessIsStrictTotalOrder(t.e1, t.e2, t.e3);
  }

  /** Equals(Triangle): the vertices compared position by position. */
  function TriangleEquals(t: Triangle, u: Triangle): (r: bool)
    ensures WellFormed(t) && WellFormed(u) ==> (r <==> t == u)
  {
    Equals(t.v1, u.v1) && Equals(t.v2, u.v2) && Equals(t.v3, u.v3)
  }

  /** HasCommonPoints: some vertex of one is a vertex of the other. */
  function HasCommonPoints(t: Triangle, u: Triangle): (r: bool)
    ensures r <==> exists v :: v in Vertices(t) && v in Vertices(u)
  {
    assert t.v1 in Vertices(t) && t.v2 in Vertices(t) && t.v3 in Vertices(t);
    Equals(t.v1, u.v1) || Equals(t.v1, u.v2) || Equals(t.v1, u.v3) ||
    Equals(t.v2, u.v1) || Equals(t.v2, u.v2) || Equals(t.v2, u.v3) ||
    Equals(t.v3, u.v1) || Equals(t.v3, u.v2) || Equals(t.v3, u.v3)
  }

  lemma HasCommonPointsSymmetric(t: Triangle, u: Triangle)
    ensures HasCommonPoints(t, u) == HasCommonPoints(u, t)
  {
  }

  /** The three sides of a proper triangle, named by its corners. */
  lemma SidesOfWellFormed(t: Triangle)
    requires WellFormed(t)
    ensures EdgeSet(t) == {MakeEdge(t.v1, t.v2), MakeEdge(t.v2, t.v3), MakeEdge(t.v3, t.v1)}
  {
    MakeEdgeSymmetric(t.v3, t.v1);
    MakeEdgeSymmetric(t.v1, t.v3);
  }

  /** Listing the same three corners in another order gives the same sides. */
  lemma SidesOfSameCorners(p: Vector, q: Vector, r: Vector, x: Vector, y: Vector, z: Vector)
    requires p != q && q != r && p != r
    requires {x, y, z} == {p, q, r}
    ensures {MakeEdge(x, y), MakeEdge(y, z), MakeEdge(z, x)} == {MakeEdge(p, q), MakeEdge(q, r), MakeEdge(r, p)}
  {
    MakeEdgeSymmetric(p, q);
    MakeEdgeSymmetric(q, r);
    MakeEdgeSymmetric(r, p);
  }

  /** A proper triangle is determined by its corners. */
  lemma CanonicalUnique(t: Triangle, u: Triangle)
    requires WellFormed(t) && WellFormed(u)
    requires Vertices(t) == Vertices(u)
    ensures t == u
  {
    var p, q, r := t.v1, t.v2, t.v3;
    SidesOfWellFormed(t);
    SidesOfWellFormed(u);
    SidesOfSameCorners(p, q, r, u.v1, u.v2, u.v3);
    EdgeOrder();
    IncreasingUnique(EdgeLess, t.e1, t.e2, t.e3, u.e1, u.e2, u.e3);
    OffSide(u.v1, u.e1, p, q, r);
    OffSide(u.v2, u.e2, p, q, r);
    OffSide(u.v3, u.e3, p, q, r);
    OffSide(t.v1, t.e1, p, q, r);
    OffSide(t.v2, t.e2, p, q, r);
    OffSide(t.v3, t.e3, p, q, r);
  }

  /** Every proper triangle is what the constructor makes of its own edges. */
  lemma WellFormedIsConstructed(t: Triangle)
    requires WellFormed(t)
    ensures NewTriangle(t.e1, t.e2, t.e3) == Success(t)
  {
    FromCorners(t.v1, t.v2, t.v3);
    var u := NewTriangle(MakeEdge(t.v1, t.v2), MakeEdge(t.v2, t.v3), MakeEdge(t.v3, t.v1)).value;
    CanonicalUnique(t, u);
    MakeEdgeSymmetric(t.v3, t.v1);
    NewTrianglePermutations(t.e1, t.e2, t.e3);
  }

  /** The constructor checks only the number of distinct endpoints: a side
      given twice still spans three points and is accepted, with the
      vertex opposite it repeated. */
  lemma RepeatedSideAccepted(p: Vector, q: Vector, r: Vector)
    requires p != q && q != r && p != r
    ensures NewTriangle(MakeEdge(p, q), MakeEdge(p, q), MakeEdge(q, r)).Success?
    ensures Vertices(NewTriangle(MakeEdge(p, q), MakeEdge(p, q), MakeEdge(q, r)).value) == {p, r}
  {
    var a, b := MakeEdge(p, q), MakeEdge(q, r);
    RepeatedSpan(p, q, r);
    var res := NewTriangle(a, a, b);
    RepeatedSideOf(res.value, a, b, p, q, r);
  }

  lemma RepeatedSideOf(t: Triangle, a: Edge, b: Edge, p: Vector, q: Vector, r: Vector)
    requires p != q && q != r && p != r
    requires a == MakeEdge(p, q) && b == MakeEdge(q, r)
    requires EdgeSeq(t) == Sort3(a, a, b)
    requires !OnEdge(t.v1, t.e1) && !OnEdge(t.v2, t.e2) && !OnEdge(t.v3, t.e3)
    requires Vertices(t) <= {p, q, r}
    ensures Vertices(t) == {p, r}
  {
    SidesDistinct(p, q, r);
    SameElements(EdgeSeq(t), a, a, b);
    RepeatedSideVertices(t, p, q, r);
  }

  lemma RepeatedSpan(p: Vector, q: Vector, r: Vector)
    requires p != q && q != r && p != r
    ensures Elems(EndPoints([MakeEdge(p, q), MakeEdge(p, q), MakeEdge(q, r)])) == {p, q, r}
    ensures |{p, q, r}| == 3
  {
    EndPointsOf([MakeEdge(p, q), MakeEdge(p, q), MakeEdge(q, r)]);
  }

  lemma RepeatedSideVertices(t: Triangle, p: Vector, q: Vector, r: Vector)
    requires p != q && q != r && p != r
    requires {t.e1, t.e2, t.e3} == {MakeEdge(p, q), MakeEdge(q, r)}
    requires Vertices(t) <= {p, q, r}
    requires !OnEdge(t.v1, t.e1) && !OnEdge(t.v2, t.e2) && !OnEdge(t.v3, t.e3)
    ensures Vertices(t) == {p, r}
  {
    SidesDistinct(p, q, r);
    OffSide(t.v1, t.e1, p, q, r);
    OffSide(t.v2, t.e2, p, q, r);
    OffSide(t.v3, t.e3, p, q, r);
  }

  /** The point-in-triangle test on three corners: the point is on the same
      side (or on the line) of all three directed sides, in either winding. */
  predicate InsideCorners(a: Vector, b: Vector, c: Vector, p: Vector)
  {
    var c1 := Cross(Sub(b, a), Sub(p, a));
    var c2 := Cross(Sub(c, b), Sub(p, b));
    var c3 := Cross(Sub(a, c), Sub(p, c));
    (c1 >= 0.0 && c2 >= 0.0 && c3 >= 0.0) || (c1 <= 0.0 && c2 <= 0.0 && c3 <= 0.0)
  }

  /** IsIncluding: the test includes the triangle's own corners. */
  predicate IsIncluding(t: Triangle, p: Vector)
    ensures p == t.v1 || p == t.v2 || p == t.v3 ==> IsIncluding(t, p)
  {
    InsideCornersAtCorner(t.v1, t.v2, t.v3);
    InsideCornersAtCorner(t.v2, t.v3, t.v1);
    InsideCornersAtCorner(t.v3, t.v1, t.v2);
    InsideCornersRotated(t.v1, t.v2, t.v3, t.v2);
    InsideCornersRotated(t.v2, t.v3, t.v1, t.v3);
    InsideCornersRotated(t.v1, t.v2, t.v3, t.v3);
    InsideCorners(t.v1, t.v2, t.v3, p)
  }

  /** Walking a side from the other end flips the sign of the cross product
      with the point. */
  lemma CrossFromOtherEnd(a: Vector, c: Vector, p: Vector)
    ensures Cross(Sub(c, a), Sub(p, a)) == -Cross(Sub(a, c), Sub(p, c))
  {
  }

  /** The test does not depend on the winding of the corners. */
  lemma InsideCornersReversed(a: Vector, b: Vector, c: Vector, p: Vector)
    ensures InsideCorners(a, c, b, p) == InsideCorners(a, b, c, p)
  {
    CrossFromOtherEnd(a, c, p);
    CrossFromOtherEnd(c, b, p);
    CrossFromOtherEnd(b, a, p);
  }

  /** Nor on which corner comes first. */
  lemma InsideCornersRotated(a: Vector, b: Vector, c: Vector, p: Vector)
    ensures InsideCorners(b, c, a, p) == InsideCorners(a, b, c, p)
  {
  }

  /** Every corner passes the test. */
  lemma InsideCornersAtCorner(a: Vector, b: Vector, c: Vector)
    ensures InsideCorners(a, b, c, a)
  {
  }

  /** The three corner crosses of the huge triangle about centre c, scale s
      and radius r, for a point p at offset h from the centre. */
  lemma HugeCrosses(c: Vector, s: real, r: real, p: Vector)
    ensures var a := Add(c, Scale(Vector(s, -1.0), r));
            var h := Sub(p, c);
            Cross(Sub(Add(c, Scale(Vector(-s, -1.0), r)), a), Sub(p, a)) == -2.0 * Mul(Mul(s, r), h.y + r)
  {
  }
  lemma HugeCrosses2(c: Vector, s: real, r: real, p: Vector)
    ensures var b := Add(c, Scale(Vector(-s, -1.0), r));
            var h := Sub(p, c);
            Cross(Sub(Add(c, Vector(0.0, 2.0 * r)), b), Sub(p, b)) == Mul(r, Mul(s, h.y) - 3.0 * h.x - 2.0 * Mul(s, r))
  {
  }
  lemma HugeCrosses3(c: Vector, s: real, r: real, p: Vector)
    ensures var d := Add(c, Vector(0.0, 2.0 * r));
            var h := Sub(p, c);
            Cross(Sub(Add(c, Scale(Vector(s, -1.0), r)), d), Sub(p, d)) == Mul(r, Mul(s, h.y) + 3.0 * h.x - 2.0 * Mul(s, r))
  {
  }

  /** The slanted sides of the huge triangle stay clear of a disc: the
      identity behind it is Lagrange's, with s*s == 3. */
  lemma SlantIdentity(s: real, hx: real, hy: real)
    requires Mul(s, s) == 3.0
    ensures var x := Mul(s, hy) - 3.0 * hx;
            var y := hx + Mul(s, hy);
            Mul(x, x) + 3.0 * Mul(y, y) == 12.0 * (Mul(hx, hx) + Mul(hy, hy))
    ensures var x := Mul(s, hy) + 3.0 * hx;
            var y := hx - Mul(s, hy);
            Mul(x, x) + 3.0 * Mul(y, y) == 12.0 * (Mul(hx, hx) + Mul(hy, hy))
  {
    assert Mul(Mul(s, s), Mul(hy, hy)) == 3.0 * Mul(hy, hy);
  }

  /** A point within distance R < r of the centre lies on the inner side of
      all three sides of the huge triangle of radius r. */
  lemma InsideHugeSides(s: real, r: real, big: real, hx: real, hy: real)
    requires s > 0.0 && Mul(s, s) == 3.0
    requires 0.0 <= big < r
    requires Mul(hx, hx) + Mul(hy, hy) <= Mul(big, big)
    ensures hy + r > 0.0
    ensures Mul(s, hy) - 3.0 * hx < 2.0 * Mul(s, r)
    ensures Mul(s, hy) + 3.0 * hx < 2.0 * Mul(s, r)
  {
    SquareNonnegative(hx);
    SquareAtMostBound(hy, big);
    SlantIdentity(s, hx, hy);
    var x1, y1 := Mul(s, hy) - 3.0 * hx, hx + Mul(s, hy);
    var x2, y2 := Mul(s, hy) + 3.0 * hx, hx - Mul(s, hy);
    SquareNonnegative(y1);
    SquareNonnegative(y2);
    SquareLess(big, r);
    var m := 2.0 * Mul(s, r);
    SideSquare(s, r);
    MulPositive(s, r);
    SquareBelow(x1, m);
    SquareBelow(x2, m);
  }

  lemma SideSquare(s: real, r: real)
    requires Mul(s, s) == 3.0
    ensures Mul(2.0 * Mul(s, r), 2.0 * Mul(s, r)) == 12.0 * Mul(r, r)
  {
    assert Mul(Mul(s, s), Mul(r, r)) == 3.0 * Mul(r, r);
  }

  /** Every vertex of a proper triangle passes IsIncluding, and the test
      depends only on the set of corners, not on how they are listed. */
  lemma IsIncludingCorners(t: Triangle, x: Vector, y: Vector, z: Vector, p: Vector)
    requires WellFormed(t)
    requires Vertices(t) == {x, y, z}
    ensures IsIncluding(t, p) == InsideCorners(x, y, z, p)
  {
    InsideCornersRotated(x, y, z, p);
    InsideCornersRotated(y, z, x, p);
    InsideCornersReversed(x, y, z, p);
    InsideCornersRotated(x, z, y, p);
    InsideCornersRotated(z, y, x, p);
  }

  /** p lies in the axis-aligned rectangle spanned by the corners `start`
      and `end`, in whichever order they are given. */
  predicate InRectangle(start: Vector, end: Vector, p: Vector)
  {
    && (start.x <= p.x <= end.x || end.x <= p.x <= start.x)
    && (start.y <= p.y <= end.y || end.y <= p.y <= start.y)
  }

  function HugeCenter(start: Vector, end: Vector): Vector
  {
    Scale(Add(start, end), 0.5)
  }

  /** The corners of an equilateral triangle about `center` whose inscribed
      circle has the given radius, with `root3` standing for the square
      root of 3. */
  function EquilateralCorners(center: Vector, root3: real, radius: real): seq<Vector>
  {
    [Add(center, Scale(Vector(root3, -1.0), radius)),
     Add(center, Scale(Vector(-root3, -1.0), radius)),
     Add(center, Vector(0.0, 2.0 * radius))]
  }

  /** The inscribed radius GetHugeTriangle uses: |center - start| + 1. */
  function HugeRadius(start: Vector, end: Vector, sqrt: real -> real): real
  {
    sqrt(LengthSq(Sub(HugeCenter(start, end), start))) + 1.0
  }

  /** The three corners GetHugeTriangle computes; `sqrt` is the square root. */
  function HugeCorners(start: Vector, end: Vector, sqrt: real -> real): seq<Vector>
  {
    EquilateralCorners(HugeCenter(start, end), sqrt(3.0), HugeRadius(start, end, sqrt))
  }

  /** The triangle on three corners, sides taken in turn; it is built without
      an exception whenever the corners differ. */
  function CornerTriangle(p: Vector, q: Vector, r: Vector): (t: Result<Triangle>)
    ensures p != q && q != r && p != r ==>
              t.Success? && WellFormed(t.value) && Vertices(t.value) == {p, q, r}
  {
    CornersTriangleProper(p, q, r);
    NewTriangle(MakeEdge(p, q), MakeEdge(q, r), MakeEdge(r, p))
  }

  lemma CornersTriangleProper(p: Vector, q: Vector, r: Vector)
    ensures p != q && q != r && p != r ==>
              var t := NewTriangle(MakeEdge(p, q), MakeEdge(q, r), MakeEdge(r, p));
              t.Success? && WellFormed(t.value) && Vertices(t.value) == {p, q, r}
  {
    if p != q && q != r && p != r {
      FromCorners(p, q, r);
    }
  }

  /** GetHugeTriangle(start, end): the triangle on the three corners. */
  function HugeTriangle(start: Vector, end: Vector, sqrt: real -> real): (r: Result<Triangle>)
    ensures var vt := HugeCorners(start, end, sqrt);
            vt[0] != vt[1] && vt[1] != vt[2] && vt[0] != vt[2] ==>
              r.Success? && WellFormed(r.value) && Vertices(r.value) == Elems(vt)
  {
    var vt := HugeCorners(start, end, sqrt);
    ElemsOfThree(vt);
    CornerTriangle(vt[0], vt[1], vt[2])
  }

  /** A point of the rectangle is no further from its centre than the
      corner `start`. */
  lemma RectangleInCircle(start: Vector, end: Vector, p: Vector)
    requires InRectangle(start, end, p)
    ensures LengthSq(Sub(p, HugeCenter(start, end))) <= LengthSq(Sub(HugeCenter(start, end), start))
  {
    var c := HugeCenter(start, end);
    SquareWithin(p.x - c.x, c.x - start.x);
    SquareWithin(p.y - c.y, c.y - start.y);
  }

  lemma SqrtOf(sqrt: real -> real, x: real)
    requires IsSqrt(sqrt) && x >= 0.0
    ensures sqrt(x) >= 0.0 && Mul(sqrt(x), sqrt(x)) == x
  {
  }

  /** The constants of the huge triangle: a positive square root of 3 and a
      radius exceeding the distance from the centre to `start`. */
  lemma HugeConstants(start: Vector, end: Vector, sqrt: real -> real)
    requires IsSqrt(sqrt)
    ensures sqrt(3.0) > 0.0 && Mul(sqrt(3.0), sqrt(3.0)) == 3.0
    ensures var big := sqrt(LengthSq(Sub(HugeCenter(start, end), start)));
            0.0 <= big < HugeRadius(start, end, sqrt)
            && Mul(big, big) == LengthSq(Sub(HugeCenter(start, end), start))
  {
    SqrtOf(sqrt, 3.0);
    SqrtOf(sqrt, LengthSq(Sub(HugeCenter(start, end), start)));
    MulZero(0.0);
  }

  lemma EquilateralCornersDistinct(center: Vector, root3: real, radius: real)
    requires root3 > 0.0 && radius > 0.0
    ensures var vt := EquilateralCorners(center, root3, radius);
            vt[0] != vt[1] && vt[1] != vt[2] && vt[0] != vt[2]
  {
    MulPositive(root3, radius);
    MulNegate(root3, radius);
  }

  /** The huge triangle is built: its corners are distinct, and it is the
      proper triangle with those corners. */
  lemma HugeTriangleProper(start: Vector, end: Vector, sqrt: real -> real)
    requires IsSqrt(sqrt)
    ensures HugeTriangle(start, end, sqrt).Success?
    ensures WellFormed(HugeTriangle(start, end, sqrt).value)
    ensures Vertices(HugeTriangle(start, end, sqrt).value) == Elems(HugeCorners(start, end, sqrt))
  {
    HugeConstants(start, end, sqrt);
    EquilateralCornersDistinct(HugeCenter(start, end), sqrt(3.0), HugeRadius(start, end, sqrt));
  }

  /** Every point of the rectangle passes the test against the three corners
      of the equilateral triangle. */
  lemma EquilateralCovers(c: Vector, s: real, big: real, r: real, p: Vector)
    requires s > 0.0 && Mul(s, s) == 3.0
    requires 0.0 <= big < r
    requires LengthSq(Sub(p, c)) <= Mul(big, big)
    ensures var vt := EquilateralCorners(c, s, r);
            InsideCorners(vt[0], vt[1], vt[2], p)
  {
    var h := Sub(p, c);
    InsideHugeSides(s, r, big, h.x, h.y);
    HugeCrosses(c, s, r, p);
    HugeCrosses2(c, s, r, p);
    HugeCrosses3(c, s, r, p);
    MulPositive(s, r);
    MulPositive(Mul(s, r), h.y + r);
    MulPositiveNegative(r, Mul(s, h.y) - 3.0 * h.x - 2.0 * Mul(s, r));
    MulPositiveNegative(r, Mul(s, h.y) + 3.0 * h.x - 2.0 * Mul(s, r));
  }

  /** The huge triangle includes every point of the rectangle. */
  lemma HugeTriangleCovers(start: Vector, end: Vector, sqrt: real -> real, p: Vector)
    requires IsSqrt(sqrt)
    requires InRectangle(start, end, p)
    ensures HugeTriangle(start, end, sqrt).Success?
    ensures IsIncluding(HugeTriangle(start, end, sqrt).value, p)
  {
    HugeTriangleProper(start, end, sqrt);
    HugeCornersCover(start, end, sqrt, p);
    IncludingByCorners(HugeTriangle(start, end, sqrt).value, HugeCorners(start, end, sqrt), p);
  }

  lemma IncludingByCorners(t: Triangle, vt: seq<Vector>, p: Vector)
    requires WellFormed(t) && |vt| == 3 && Vertices(t) == Elems(vt)
    requires InsideCorners(vt[0], vt[1], vt[2], p)
    ensures IsIncluding(t, p)
  {
    ElemsOfThree(vt);
    IsIncludingCorners(t, vt[0], vt[1], vt[2], p);
  }

  lemma HugeCornersCover(start: Vector, end: Vector, sqrt: real -> real, p: Vector)
    requires IsSqrt(sqrt)
    requires InRectangle(start, end, p)
    ensures var vt := HugeCorners(start, end, sqrt);
            InsideCorners(vt[0], vt[1], vt[2], p)
  {
    HugeConstants(start, end, sqrt);
    RectangleInCircle(start, end, p);
    EquilateralCovers(HugeCenter(start, end), sqrt(3.0), sqrt(LengthSq(Sub(HugeCenter(start, end), start))),
                      HugeRadius(start, end, sqrt), p);
  }

  /** The barycentric weights GetCircumscribedCircle gives the three
      vertices, from the squared side lengths. */
  function CircumWeights(t: Triangle): seq<real>
  {
    var a2 := LengthSq(Sub(t.v2, t.v3));
    var b2 := LengthSq(Sub(t.v3, t.v1));
    var c2 := LengthSq(Sub(t.v1, t.v2));
    [Mul(a2, b2 + c2 - a2), Mul(b2, c2 + a2 - b2), Mul(c2, a2 + b2 - c2)]
  }

  /** The centre GetCircumscribedCircle computes: the weighted average of
      the vertices. The C# code divides by the weight sum even when it is
      zero, which happens exactly for collinear corners; the model has no
      centre there. */
  function Circumcenter(t: Triangle): (r: Option<Vector>)
    ensures r.Some? <==> Cross(Sub(t.v2, t.v1), Sub(t.v3, t.v1)) != 0.0
  {
    var w := CircumWeights(t);
    CircumWeightSum(t);
    if w[0] + w[1] + w[2] == 0.0 then None
    else
      Some(Scale(Add(Add(ScaleLeft(w[0], t.v1), ScaleLeft(w[1], t.v2)), ScaleLeft(w[2], t.v3)),
                 1.0 / (w[0] + w[1] + w[2])))
  }

  /** GetCircumscribedCircle: the centre above and the distance from it to
      Vertex1 as the radius; `sqrt` is the square root. */
  function CircumscribedCircle(t: Triangle, sqrt: real -> real): (r: Option<Circle>)
    ensures r.Some? <==> Cross(Sub(t.v2, t.v1), Sub(t.v3, t.v1)) != 0.0
    ensures r.Some? ==> r.value.center == Circumcenter(t).value
  {
    match Circumcenter(t)
    case None => None
    case Some(center) => Some(NewCircle(center, sqrt(LengthSq(Sub(center, t.v1)))))
  }

  /** The squared sides expressed through the two sides at v1. */
  lemma SidesAtFirst(v1: Vector, v2: Vector, v3: Vector)
    ensures LengthSq(Sub(v1, v2)) == LengthSq(Sub(v2, v1))
    ensures LengthSq(Sub(v2, v3)) == LengthSq(Sub(v2, v1)) + LengthSq(Sub(v3, v1)) - 2.0 * Dot(Sub(v2, v1), Sub(v3, v1))
  {
  }

  /** With B = |w|^2, C = |u|^2 and D = u.w the weights sum to 4(BC - D^2),
      and they balance the centre against both sides. */
  lemma WeightIdentities(bb: real, cc: real, dd: real)
    ensures var a2 := bb + cc - 2.0 * dd;
            var a := Mul(a2, bb + cc - a2);
            var b := Mul(bb, cc + a2 - bb);
            var c := Mul(cc, a2 + bb - cc);
            && a + b + c == 4.0 * (Mul(bb, cc) - Mul(dd, dd))
            && 2.0 * (Mul(b, cc) + Mul(c, dd)) == Mul(a + b + c, cc)
            && 2.0 * (Mul(b, dd) + Mul(c, bb)) == Mul(a + b + c, bb)
  {
  }

  /** The weighted centre, seen from v1: the weights of v2 and v3 applied to
      the sides at v1, once the weights sum to the inverse of k. */
  lemma CenterFromFirst(v1: Vector, v2: Vector, v3: Vector, a: real, b: real, c: real, k: real)
    requires Mul(k, a + b + c) == 1.0
    ensures Sub(Scale(Add(Add(ScaleLeft(a, v1), ScaleLeft(b, v2)), ScaleLeft(c, v3)), k), v1)
            == Scale(Add(Scale(Sub(v2, v1), b), Scale(Sub(v3, v1), c)), k)
  {
    WeightedCoordinate(v1.x, v2.x, v3.x, a, b, c, k);
    WeightedCoordinate(v1.y, v2.y, v3.y, a, b, c, k);
  }

  lemma WeightedCoordinate(x1: real, x2: real, x3: real, a: real, b: real, c: real, k: real)
    requires Mul(k, a + b + c) == 1.0
    ensures Mul(Mul(x1, a) + Mul(x2, b) + Mul(x3, c), k) - x1 == Mul(Mul(x2 - x1, b) + Mul(x3 - x1, c), k)
  {
    assert k * a * x1 + k * b * x1 + k * c * x1 == (k * (a + b + c)) * x1;
  }

  /** A point P = k(b u + c w) with 2 P.u = |u|^2 is as far from u as from
      the origin. */
  lemma BalancedOffset(u: Vector, w: Vector, b: real, c: real, k: real, sum: real)
    requires Mul(k, sum) == 1.0
    requires 2.0 * (Mul(b, LengthSq(u)) + Mul(c, Dot(u, w))) == Mul(sum, LengthSq(u))
    ensures var p := Scale(Add(Scale(u, b), Scale(w, c)), k);
            LengthSq(Sub(p, u)) == LengthSq(p)
  {
    var p := Scale(Add(Scale(u, b), Scale(w, c)), k);
    assert LengthSq(Sub(p, u)) == LengthSq(p) - 2.0 * Dot(p, u) + LengthSq(u);
    OffsetDot(u, w, b, c, k);
    assert Mul(Mul(k, sum), LengthSq(u)) == LengthSq(u);
  }

  lemma OffsetDot(u: Vector, w: Vector, b: real, c: real, k: real)
    ensures Dot(Scale(Add(Scale(u, b), Scale(w, c)), k), u) == Mul(k, Mul(b, LengthSq(u)) + Mul(c, Dot(u, w)))
  {
    OffsetDotScalar(u.x, u.y, w.x, w.y, b, c, k);
  }

  lemma OffsetDotScalar(ux: real, uy: real, wx: real, wy: real, b: real, c: real, k: real)
    ensures Mul(Mul(Mul(ux, b) + Mul(wx, c), k), ux) + Mul(Mul(Mul(uy, b) + Mul(wy, c), k), uy)
            == Mul(k, Mul(b, Mul(ux, ux) + Mul(uy, uy)) + Mul(c, Mul(ux, wx) + Mul(uy, wy)))
  {
    calc {
      Mul(Mul(Mul(ux, b) + Mul(wx, c), k), ux) + Mul(Mul(Mul(uy, b) + Mul(wy, c), k), uy);
      (ux * b + wx * c) * k * ux + (uy * b + wy * c) * k * uy;
      k * b * (ux * ux) + k * c * (ux * wx) + k * b * (uy * uy) + k * c * (uy * wy);
      k * (b * (ux * ux + uy * uy) + c * (ux * wx + uy * wy));
    }
  }

  /** The centre is at the same squared distance from all three vertices. */
  lemma CircumcenterEquidistant(t: Triangle)
    requires Circumcenter(t).Some?
    ensures var c := Circumcenter(t).value;
            LengthSq(Sub(c, t.v2)) == LengthSq(Sub(c, t.v1)) && LengthSq(Sub(c, t.v3)) == LengthSq(Sub(c, t.v1))
  {
    var u, w := Sub(t.v2, t.v1), Sub(t.v3, t.v1);
    var bb, cc, dd := LengthSq(w), LengthSq(u), Dot(u, w);
    SidesAtFirst(t.v1, t.v2, t.v3);
    WeightIdentities(bb, cc, dd);
    var ws := CircumWeights(t);
    var sum := ws[0] + ws[1] + ws[2];
    var k := 1.0 / sum;
    assert Mul(k, sum) == 1.0;
    var center := Circumcenter(t).value;
    CenterFromFirst(t.v1, t.v2, t.v3, ws[0], ws[1], ws[2], k);
    var p := Scale(Add(Scale(u, ws[1]), Scale(w, ws[2])), k);
    assert Sub(center, t.v1) == p;
    BalancedOffset(u, w, ws[1], ws[2], k, sum);
    DotSymmetric(u, w);
    BalancedOffset(w, u, ws[2], ws[1], k, sum);
    AddCommutes(Scale(u, ws[1]), Scale(w, ws[2]));
    assert Sub(center, t.v2) == Sub(p, u);
    assert Sub(center, t.v3) == Sub(p, w);
  }

  /** The weight sum vanishes exactly when the corners are collinear: it is
      four times the squared cross product of the sides at v1. */
  lemma CircumWeightSum(t: Triangle)
    ensures var w := CircumWeights(t);
            w[0] + w[1] + w[2] == 0.0 <==> Cross(Sub(t.v2, t.v1), Sub(t.v3, t.v1)) == 0.0
  {
    var u, w := Sub(t.v2, t.v1), Sub(t.v3, t.v1);
    SidesAtFirst(t.v1, t.v2, t.v3);
    WeightIdentities(LengthSq(w), LengthSq(u), Dot(u, w));
    Lagrange(u, w);
    MulCommutes(LengthSq(u), LengthSq(w));
    DotSymmetric(u, w);
    var x := Cross(u, w);
    if x != 0.0 {
      SquarePositive(x);
    } else {
      MulZero(0.0);
    }
  }

  /** The circumscribed circle passes through all three vertices, so none of
      them is strictly inside it. */
  lemma CircumcircleThroughVertices(t: Triangle, sqrt: real -> real)
    requires IsSqrt(sqrt)
    requires Circumcenter(t).Some?
    ensures CircumscribedCircle(t, sqrt).Some?
    ensures var c := CircumscribedCircle(t, sqrt).value;
            && c.center == Circumcenter(t).value
            && LengthSq(Sub(c.center, t.v1)) == c.radiusSq
            && LengthSq(Sub(c.center, t.v2)) == c.radiusSq
            && LengthSq(Sub(c.center, t.v3)) == c.radiusSq
            && !Includes(c, t.v1) && !Includes(c, t.v2) && !Includes(c, t.v3)
  {
    var center := Circumcenter(t).value;
    CircumcenterEquidistant(t);
    SqrtOf(sqrt, LengthSq(Sub(center, t.v1)));
  }
}
