/** Incremental Delaunay triangulation (IsolineMap/DelaunayMap.cs): the
    triangle set changed in place by point insertion, edge flips and a final
    sweep of the triangles touching the bootstrap triangle. */
module DelaunayMaps {
  import opened Results
  import opened Reals
  import opened Vectors
  import opened Edges
  import opened Circles
  import opened Triangles

  // ---------------------------------------------------------------------
  // Facts about one triangle and one of its edges
  // ---------------------------------------------------------------------

  /** An edge of a proper triangle joins two distinct vertices; the vertex
      opposite it is the third, and the edges opposite its endpoints join
      that third vertex to the other endpoint. */
  lemma EdgeOfWellFormed(t: Triangle, e: Edge)
    requires WellFormed(t) && e in EdgeSet(t)
    ensures OppositeVertex(t, e).Success?
    ensures var c := OppositeVertex(t, e).value;
            && e.p1 != e.p2 && c != e.p1 && c != e.p2
            && Vertices(t) == {e.p1, e.p2, c}
            && OppositeEdge(t, e.p1) == Success(MakeEdge(e.p2, c))
            && OppositeEdge(t, e.p2) == Success(MakeEdge(e.p1, c))
  {
    MakeEdgeSymmetric(t.v1, t.v2);
    MakeEdgeSymmetric(t.v2, t.v3);
    MakeEdgeSymmetric(t.v3, t.v1);
    EdgeLessIsStrictTotalOrder(t.e1, t.e2, t.e3);
  }

  /** Two different proper triangles on the same edge have different
      opposite vertices. */
  lemma OppositeVerticesDiffer(abc: Triangle, abd: Triangle, e: Edge)
    requires WellFormed(abc) && WellFormed(abd) && abc != abd
    requires e in EdgeSet(abc) && e in EdgeSet(abd)
    ensures OppositeVertex(abc, e).Success? && OppositeVertex(abd, e).Success?
    ensures OppositeVertex(abc, e).value != OppositeVertex(abd, e).value
  {
    EdgeOfWellFormed(abc, e);
    EdgeOfWellFormed(abd, e);
    if OppositeVertex(abc, e).value == OppositeVertex(abd, e).value {
      CanonicalUnique(abc, abd);
    }
  }

  /** The triangle on three distinct corners holds the side between the
      first two and no side that leaves the three corners. */
  lemma CornerSides(t: Triangle, x: Vector, y: Vector, z: Vector, a: Vector, b: Vector)
    requires WellFormed(t) && Vertices(t) == {x, y, z}
    requires b !in {x, y, z}
    ensures MakeEdge(x, y) in EdgeSet(t)
    ensures MakeEdge(a, b) !in EdgeSet(t)
  {
    SidesOfWellFormed(t);
    MakeEdgeSymmetric(x, y);
    MakeEdgeInjective(a, b, t.v1, t.v2);
    MakeEdgeInjective(a, b, t.v2, t.v3);
    MakeEdgeInjective(a, b, t.v3, t.v1);
  }

  /** One of the two triangles an edge flip creates: `pivot` is the endpoint
      of the shared edge e that is dropped and `keep` the one that stays.
      The result is a proper triangle on keep, C and D that holds the new
      diagonal CD and not e. */
  lemma FlipProper(abc: Triangle, abd: Triangle, e: Edge, pivot: Vector, keep: Vector)
    requires WellFormed(abc) && WellFormed(abd) && abc != abd
    requires e in EdgeSet(abc) && e in EdgeSet(abd)
    requires (pivot == e.p2 && keep == e.p1) || (pivot == e.p1 && keep == e.p2)
    ensures OppositeVertex(abc, e).Success? && OppositeVertex(abd, e).Success?
    ensures OppositeEdge(abc, pivot).Success? && OppositeEdge(abd, pivot).Success?
    ensures var c := OppositeVertex(abc, e).value;
            var d := OppositeVertex(abd, e).value;
            var r := NewTriangle(MakeEdge(c, d), OppositeEdge(abc, pivot).value, OppositeEdge(abd, pivot).value);
            && r.Success? && WellFormed(r.value)
            && Vertices(r.value) == {keep, c, d}
            && MakeEdge(c, d) in EdgeSet(r.value)
            && e !in EdgeSet(r.value)
  {
    EdgeOfWellFormed(abc, e);
    EdgeOfWellFormed(abd, e);
    OppositeVerticesDiffer(abc, abd, e);
    MakeEdgeSymmetric(keep, pivot);
    MakeEdgeOfEdge(e);
    FlipShape(OppositeVertex(abc, e).value, OppositeVertex(abd, e).value, keep, pivot);
  }

  lemma FlipShape(c: Vector, d: Vector, keep: Vector, pivot: Vector)
    requires c != d && keep != c && keep != d && keep != pivot && pivot != c && pivot != d
    ensures var r := NewTriangle(MakeEdge(c, d), MakeEdge(keep, c), MakeEdge(keep, d));
            && r.Success? && WellFormed(r.value)
            && Vertices(r.value) == {keep, c, d}
            && MakeEdge(c, d) in EdgeSet(r.value)
            && MakeEdge(keep, pivot) !in EdgeSet(r.value)
  {
    FlipOrder(c, d, keep);
    FlipShapeOfCorners(c, d, keep, pivot);
  }

  /** FlipShape for the triangle built in corner order. */
  lemma FlipShapeOfCorners(c: Vector, d: Vector, keep: Vector, pivot: Vector)
    requires c != d && keep != c && keep != d && keep != pivot && pivot != c && pivot != d
    ensures var r := NewTriangle(MakeEdge(c, d), MakeEdge(d, keep), MakeEdge(keep, c));
            && r.Success? && WellFormed(r.value)
            && Vertices(r.value) == {keep, c, d}
            && MakeEdge(c, d) in EdgeSet(r.value)
            && MakeEdge(keep, pivot) !in EdgeSet(r.value)
  {
    FromCorners(c, d, keep);
    CornerSides(NewTriangle(MakeEdge(c, d), MakeEdge(d, keep), MakeEdge(keep, c)).value, c, d, keep, keep, pivot);
  }

  /** The flip's argument order builds the same triangle as the corner order. */
  lemma FlipOrder(c: Vector, d: Vector, keep: Vector)
    ensures NewTriangle(MakeEdge(c, d), MakeEdge(keep, c), MakeEdge(keep, d))
            == NewTriangle(MakeEdge(c, d), MakeEdge(d, keep), MakeEdge(keep, c))
  {
    MakeEdgeSymmetric(keep, d);
    NewTriangleSwap(MakeEdge(c, d), MakeEdge(d, keep), MakeEdge(keep, c));
  }

  /** Triangle for the diagonal CD of the quadrilateral ACBD, through the
      endpoint of the shared edge e that is not `pivot`: the C# code builds it
      from the new edge and the edges of ABC and ABD opposite `pivot`. */
  function FlipTriangle(abc: Triangle, abd: Triangle, e: Edge, pivot: Vector): (r: Result<Triangle>)
    ensures r.Failure? ==> r.error == ArgumentException
    ensures r.Success? ==> && e in EdgeSet(abc) && e in EdgeSet(abd)
                           && pivot in Vertices(abc) && pivot in Vertices(abd)
  {
    match (OppositeVertex(abc, e), OppositeVertex(abd, e), OppositeEdge(abc, pivot), OppositeEdge(abd, pivot))
    case (Success(c), Success(d), Success(x), Success(y)) => NewTriangle(MakeEdge(c, d), x, y)
    case _ => Failure(ArgumentException)
  }

  /** The two triangles of an edge flip are proper, lie on {A, C, D} and
      {B, C, D}, both hold the new diagonal CD and neither holds AB. */
  lemma FlipTriangles(abc: Triangle, abd: Triangle, e: Edge)
    requires WellFormed(abc) && WellFormed(abd) && abc != abd
    requires e in EdgeSet(abc) && e in EdgeSet(abd)
    ensures var c := OppositeVertex(abc, e).value;
            var d := OppositeVertex(abd, e).value;
            var t1 := FlipTriangle(abc, abd, e, e.p2);
            var t2 := FlipTriangle(abc, abd, e, e.p1);
            && c != d
            && t1.Success? && WellFormed(t1.value) && Vertices(t1.value) == {e.p1, c, d}
            && t2.Success? && WellFormed(t2.value) && Vertices(t2.value) == {e.p2, c, d}
            && MakeEdge(c, d) in EdgeSet(t1.value) && MakeEdge(c, d) in EdgeSet(t2.value)
            && e !in EdgeSet(t1.value) && e !in EdgeSet(t2.value)
  {
    OppositeVerticesDiffer(abc, abd, e);
    FlipProper(abc, abd, e, e.p2, e.p1);
    FlipProper(abc, abd, e, e.p1, e.p2);
  }

  /** The edges of t other than e, in t's order (the pushes after a flip). */
  function OtherEdges(t: Triangle, e: Edge): (r: seq<Edge>)
    ensures forall x :: x in r <==> x in EdgeSet(t) && x != e
    ensures WellFormed(t) && e in EdgeSet(t) ==> |r| == 2
  {
    EdgeLessIsStrictTotalOrder(t.e1, t.e2, t.e3);
    (if t.e1 != e then [t.e1] else []) + (if t.e2 != e then [t.e2] else []) + (if t.e3 != e then [t.e3] else [])
  }

  /** The triangles of `ts` that have e as an edge. */
  function Sharing(ts: set<Triangle>, e: Edge): (r: set<Triangle>)
    ensures r <= ts
    ensures forall t :: t in r ==> OppositeVertex(t, e).Success?
    ensures forall t :: t in ts && t !in r ==> OppositeVertex(t, e).Failure?
  {
    set t | t in ts && e in EdgeSet(t)
  }

  /** The flip test of the legalisation loop: D lies strictly inside the
      circle through A, B and C. Without a circumcircle (collinear corners)
      nothing is inside. */
  predicate Illegal(abc: Triangle, abd: Triangle, e: Edge, sqrt: real -> real)
    ensures Illegal(abc, abd, e, sqrt) ==> HasArea(abc) && e in EdgeSet(abd)
  {
    && OppositeVertex(abd, e).Success?
    && var circle := CircumscribedCircle(abc, sqrt);
       circle.Some? && Includes(circle.value, OppositeVertex(abd, e).value)
  }

  /** The point lies on the line through the edge: the cross product of
      the vectors from the point to the two endpoints is zero. */
  predicate OnLine(point: Vector, edge: Edge)
  {
    Cross(Sub(edge.p1, point), Sub(edge.p2, point)) == 0.0
  }

  /** Whether a point is on the line does not depend on the order in which
      the endpoints are named. */
  lemma OnLineOfCorners(point: Vector, x: Vector, y: Vector)
    ensures OnLine(point, MakeEdge(x, y)) <==> Cross(Sub(x, point), Sub(y, point)) == 0.0
  {
    CrossAntisymmetric(Sub(x, point), Sub(y, point));
  }

  /** The corners of t are not collinear (t has a circumcircle). */
  predicate HasArea(t: Triangle)
  {
    Cross(Sub(t.v2, t.v1), Sub(t.v3, t.v1)) != 0.0
  }

  /** A point that is not a corner of a triangle with area lies on the line
      of at most one of its sides. */
  lemma AtMostOneSideLine(t: Triangle, point: Vector)
    requires WellFormed(t) && HasArea(t) && point !in Vertices(t)
    ensures !(OnLine(point, t.e1) && OnLine(point, t.e2))
    ensures !(OnLine(point, t.e2) && OnLine(point, t.e3))
    ensures !(OnLine(point, t.e1) && OnLine(point, t.e3))
  {
    var a, b, c := t.v1, t.v2, t.v3;
    OnLineOfCorners(point, b, c);
    OnLineOfCorners(point, c, a);
    OnLineOfCorners(point, a, b);
    CrossOfDifferences(a, b, c, point);
    if OnLine(point, t.e1) && OnLine(point, t.e2) {
      CornerOfTwoLines(b, c, a, point);
    }
    if OnLine(point, t.e2) && OnLine(point, t.e3) {
      CornerOfTwoLines(c, a, b, point);
    }
    if OnLine(point, t.e1) && OnLine(point, t.e3) {
      CornerOfTwoLines(a, b, c, point);
    }
  }

  /** The triangle AddNewTriangle builds from an edge and a point. */
  function SplitTriangle(point: Vector, edge: Edge): (r: Result<Triangle>)
    ensures r.Failure? ==> r.error == ArgumentException
    ensures r.Success? ==> Vertices(r.value) <= {edge.p1, edge.p2, point}
  {
    EndPointsOf([edge, MakeEdge(edge.p2, point), MakeEdge(point, edge.p1)]);
    NewTriangle(edge, MakeEdge(edge.p2, point), MakeEdge(point, edge.p1))
  }

  /** A point off the line of an edge makes a proper triangle with it, on the
      two endpoints and the point, holding the edge. */
  lemma SplitTriangleProper(point: Vector, edge: Edge)
    requires !OnLine(point, edge)
    ensures SplitTriangle(point, edge).Success?
    ensures WellFormed(SplitTriangle(point, edge).value)
    ensures Vertices(SplitTriangle(point, edge).value) == {edge.p1, edge.p2, point}
    ensures edge in EdgeSet(SplitTriangle(point, edge).value)
  {
    NotCollinearDistinct(point, edge.p1, edge.p2);
    FromCorners(edge.p1, edge.p2, point);
    MakeEdgeOfEdge(edge);
    SidesOfWellFormed(SplitTriangle(point, edge).value);
  }

  lemma SplitSucceeds(point: Vector, edge: Edge)
    requires !OnLine(point, edge)
    ensures SplitTriangle(point, edge).Success?
  {
    SplitTriangleProper(point, edge);
  }

  /** Corners with a non-zero cross product are pairwise distinct. */
  lemma NotCollinearDistinct(p: Vector, a: Vector, b: Vector)
    requires Cross(Sub(a, p), Sub(b, p)) != 0.0
    ensures a != p && b != p && a != b
  {
    if a == b {
      CrossAntisymmetric(Sub(a, p), Sub(a, p));
    }
  }

  // ---------------------------------------------------------------------
  // The bounding rectangle of the marks
  // ---------------------------------------------------------------------

  /** hi holds the largest x and the largest y over the marks. */
  predicate IsUpperCorner(marks: set<Vector>, hi: Vector)
  {
    && (forall m :: m in marks ==> m.x <= hi.x && m.y <= hi.y)
    && (exists m :: m in marks && m.x == hi.x)
    && (exists m :: m in marks && m.y == hi.y)
  }

  /** lo holds the smallest x and the smallest y over the marks. */
  predicate IsLowerCorner(marks: set<Vector>, lo: Vector)
  {
    && (forall m :: m in marks ==> lo.x <= m.x && lo.y <= m.y)
    && (exists m :: m in marks && m.x == lo.x)
    && (exists m :: m in marks && m.y == lo.y)
  }

  /** Marks.Max(a => a.X), Marks.Max(a => a.Y), Marks.Min(a => a.X) and
      Marks.Min(a => a.Y) in one pass; LINQ throws InvalidOperationException
      for no marks, reported here as `found` being false. */
  method Bounds(marks: set<Vector>) returns (found: bool, hi: Vector, lo: Vector)
    ensures found <==> marks != {}
    ensures found ==> IsUpperCorner(marks, hi) && IsLowerCorner(marks, lo)
  {
    if marks == {} {
      return false, Zero, Zero;
    }
    var first :| first in marks;
    var maxX, maxY, minX, minY := first.x, first.y, first.x, first.y;
    var seen := {first};
    var rest := marks - {first};
    while rest != {}
      invariant seen + rest == marks && seen !! rest && first in seen
      invariant forall m :: m in seen ==> minX <= m.x <= maxX && minY <= m.y <= maxY
      invariant exists m :: m in seen && m.x == maxX
      invariant exists m :: m in seen && m.y == maxY
      invariant exists m :: m in seen && m.x == minX
      invariant exists m :: m in seen && m.y == minY
      decreases rest
    {
      var m :| m in rest;
      if m.x > maxX { maxX := m.x; }
      if m.y > maxY { maxY := m.y; }
      if m.x < minX { minX := m.x; }
      if m.y < minY { minY := m.y; }
      seen := seen + {m};
      rest := rest - {m};
    }
    return true, Vector(maxX, maxY), Vector(minX, minY);
  }

  /** The corners are determined by the marks. */
  lemma CornersUnique(marks: set<Vector>, hi: Vector, hi': Vector, lo: Vector, lo': Vector)
    requires IsUpperCorner(marks, hi) && IsUpperCorner(marks, hi')
    requires IsLowerCorner(marks, lo) && IsLowerCorner(marks, lo')
    ensures hi == hi' && lo == lo'
  {
  }

  /** Every mark lies in the rectangle between the two corners, so the huge
      triangle built on them includes every mark. */
  lemma MarksInHugeTriangle(marks: set<Vector>, hi: Vector, lo: Vector, sqrt: real -> real)
    requires IsSqrt(sqrt)
    requires IsUpperCorner(marks, hi) && IsLowerCorner(marks, lo)
    ensures HugeTriangle(hi, lo, sqrt).Success?
    ensures forall m :: m in marks ==> IsIncluding(HugeTriangle(hi, lo, sqrt).value, m)
  {
    HugeTriangleProper(hi, lo, sqrt);
    forall m | m in marks
      ensures IsIncluding(HugeTriangle(hi, lo, sqrt).value, m)
    {
      assert InRectangle(hi, lo, m);
      HugeTriangleCovers(hi, lo, sqrt, m);
    }
  }

  /** Every triangle of ts is proper. */
  ghost predicate AllProper(ts: set<Triangle>)
  {
    forall t :: t in ts ==> WellFormed(t)
  }

  /** Every corner of every triangle of ts. */
  ghost function Corners(ts: set<Triangle>): set<Vector>
  {
    set t, v | t in ts && v in Vertices(t) :: v
  }

  lemma CornersAdd(ts: set<Triangle>, t: Triangle)
    ensures Corners(ts + {t}) == Corners(ts) + Vertices(t)
  {
  }

  lemma CornersRemove(ts: set<Triangle>, t: Triangle)
    requires t in ts
    ensures Corners(ts) == Corners(ts - {t}) + Vertices(t)
  {
    assert ts == (ts - {t}) + {t};
    CornersAdd(ts - {t}, t);
  }

  lemma CornersMonotone(ts: set<Triangle>, us: set<Triangle>)
    requires ts <= us
    ensures Corners(ts) <= Corners(us)
  {
  }

  /** A flip inside a set of proper triangles keeps it proper and keeps its
      corners: the four corners of ABC and ABD are the four corners of ACD
      and BCD. */
  lemma FlipKeeps(ts: set<Triangle>, abc: Triangle, abd: Triangle, e: Edge)
    requires AllProper(ts)
    requires abc in ts && abd in ts && abc != abd
    requires e in EdgeSet(abc) && e in EdgeSet(abd)
    ensures FlipTriangle(abc, abd, e, e.p2).Success? && FlipTriangle(abc, abd, e, e.p1).Success?
    ensures var ts' := ts - {abc} - {abd} + {FlipTriangle(abc, abd, e, e.p2).value}
                                          + {FlipTriangle(abc, abd, e, e.p1).value};
            AllProper(ts') && Corners(ts') == Corners(ts)
  {
    EdgeOfWellFormed(abc, e);
    EdgeOfWellFormed(abd, e);
    FlipTriangles(abc, abd, e);
    var t1, t2 := FlipTriangle(abc, abd, e, e.p2).value, FlipTriangle(abc, abd, e, e.p1).value;
    ReplaceProper(ts, abc, abd, t1, t2);
    FlipCorners(ts, abc, abd, t1, t2, e.p1, e.p2, OppositeVertex(abc, e).value, OppositeVertex(abd, e).value);
  }

  lemma AddProper(ts: set<Triangle>, t: Triangle)
    requires AllProper(ts) && WellFormed(t)
    ensures AllProper(ts + {t})
  {
  }

  lemma PrefixSnoc<T>(s: seq<T>, i: nat)
    requires i < |s|
    ensures s[..i + 1] == s[..i] + [s[i]]
  {
  }

  lemma PrefixAll<T>(s: seq<T>)
    ensures s[..|s|] == s
  {
  }

  lemma RemoveProper(ts: set<Triangle>, t: Triangle)
    requires AllProper(ts)
    ensures AllProper(ts - {t})
  {
  }

  lemma ReplaceProper(ts: set<Triangle>, old1: Triangle, old2: Triangle, new1: Triangle, new2: Triangle)
    requires AllProper(ts) && WellFormed(new1) && WellFormed(new2)
    ensures AllProper(ts - {old1} - {old2} + {new1} + {new2})
  {
  }

  /** Replacing two triangles of ts by two others with the same corners
      between them keeps the corners of ts. */
  lemma FlipCorners(ts: set<Triangle>, abc: Triangle, abd: Triangle, t1: Triangle, t2: Triangle,
                     a: Vector, b: Vector, c: Vector, d: Vector)
    requires abc in ts && abd in ts && abc != abd
    requires Vertices(abc) == {a, b, c} && Vertices(abd) == {a, b, d}
    requires Vertices(t1) == {a, c, d} && Vertices(t2) == {b, c, d}
    ensures Corners(ts - {abc} - {abd} + {t1} + {t2}) == Corners(ts)
  {
    var rest := ts - {abc} - {abd};
    CornersRemove(ts, abc);
    CornersRemove(ts - {abc}, abd);
    CornersAdd(rest, t1);
    CornersAdd(rest + {t1}, t2);
    QuadrilateralCorners(Corners(rest), Vertices(abc), Vertices(abd), Vertices(t1), Vertices(t2), a, b, c, d);
  }

  /** ABC and ABD cover the same four corners as ACD and BCD. */
  lemma QuadrilateralCorners(rest: set<Vector>, abc: set<Vector>, abd: set<Vector>, acd: set<Vector>, bcd: set<Vector>,
                             a: Vector, b: Vector, c: Vector, d: Vector)
    requires abc == {a, b, c} && abd == {a, b, d} && acd == {a, c, d} && bcd == {b, c, d}
    ensures rest + abc + abd == rest + acd + bcd
  {
    assert abc + abd == {a, b, c, d} == acd + bcd;
  }

  /** The triangle AddNewTriangle adds for one edge: none when the edge's
      line passes through the point. */
  ghost function SplitOf(point: Vector, e: Edge): set<Triangle>
  {
    set t | t in Carried(SplitTriangle(point, e)) && !OnLine(point, e)
  }

  /** The triangle a successful result carries. */
  function Carried(r: Result<Triangle>): set<Triangle>
  {
    if r.Success? then {r.value} else {}
  }

  /** The split set holds the split triangle exactly when the edge's line
      misses the point. */
  lemma SplitOfCases(point: Vector, e: Edge)
    ensures !OnLine(point, e) ==> SplitTriangle(point, e).Success?
    ensures SplitOf(point, e) == if OnLine(point, e) then {} else {SplitTriangle(point, e).value}
  {
    if OnLine(point, e) {
      SplitOfOnLine(point, e);
    } else {
      SplitOfOffLine(point, e);
    }
  }

  lemma SplitOfOnLine(point: Vector, e: Edge)
    requires OnLine(point, e)
    ensures SplitOf(point, e) == {}
  {
  }

  lemma SplitOfOffLine(point: Vector, e: Edge)
    requires !OnLine(point, e)
    ensures SplitTriangle(point, e).Success?
    ensures SplitOf(point, e) == {SplitTriangle(point, e).value}
  {
    SplitSucceeds(point, e);
    assert SplitTriangle(point, e).value in SplitOf(point, e);
  }

  /** The union of f(point, e) over the edges es, built edge by edge. */
  ghost function Collect(point: Vector, es: seq<Edge>, f: (Vector, Edge) -> set<Triangle>): set<Triangle>
  {
    if es == [] then {} else Collect(point, es[..|es| - 1], f) + f(point, es[|es| - 1])
  }

  lemma CollectSnoc(point: Vector, es: seq<Edge>, e: Edge, f: (Vector, Edge) -> set<Triangle>)
    ensures Collect(point, es + [e], f) == Collect(point, es, f) + f(point, e)
  {
    assert (es + [e])[..|es|] == es;
  }

  lemma CollectThree(point: Vector, a: Edge, b: Edge, c: Edge, f: (Vector, Edge) -> set<Triangle>)
    ensures Collect(point, [a, b, c], f) == f(point, a) + f(point, b) + f(point, c)
  {
    var one, two, three := [a], [a, b], [a, b, c];
    assert one[..0] == [];
    assert Collect(point, one, f) == f(point, a);
    assert two[..1] == one;
    assert Collect(point, two, f) == Collect(point, one, f) + f(point, b);
    assert three[..2] == two;
    assert Collect(point, three, f) == Collect(point, two, f) + f(point, c);
  }

  /** The triangles AddNewTriangle adds for the edges es, in turn. */
  ghost function Splits(point: Vector, es: seq<Edge>): set<Triangle>
  {
    Collect(point, es, SplitOf)
  }

  /** One more edge adds its split triangle when its line misses the point. */
  lemma SplitsSnoc(point: Vector, es: seq<Edge>, e: Edge)
    ensures !OnLine(point, e) ==> SplitTriangle(point, e).Success?
    ensures Splits(point, es + [e])
            == Splits(point, es) + (if OnLine(point, e) then {} else {SplitTriangle(point, e).value})
  {
    CollectSnoc(point, es, e, SplitOf);
    SplitOfCases(point, e);
  }

  /** The loop step of the split: adding the triangle of one more edge
      extends the union by that edge's split. */
  lemma SplitStep(base: set<Triangle>, prev: set<Triangle>, cur: set<Triangle>, point: Vector,
                  es: seq<Edge>, e: Edge, next: seq<Edge>)
    requires prev == base + Splits(point, es) && next == es + [e]
    requires cur == prev + SplitOf(point, e)
    ensures cur == base + Splits(point, next)
  {
    CollectSnoc(point, es, e, SplitOf);
  }

  lemma SplitsOfSides(point: Vector, t: Triangle)
    ensures Splits(point, EdgeSeq(t)) == SplitOf(point, t.e1) + SplitOf(point, t.e2) + SplitOf(point, t.e3)
  {
    CollectThree(point, t.e1, t.e2, t.e3, SplitOf);
  }

  /** A split triangle of one of t's sides is proper and has the point and
      two corners of t as its corners. */
  lemma SplitOfSide(t: Triangle, point: Vector, s: Triangle)
    requires WellFormed(t) && s in Splits(point, EdgeSeq(t))
    ensures WellFormed(s) && point in Vertices(s) && Vertices(s) <= Vertices(t) + {point}
  {
    SplitsOfSides(point, t);
    if s in SplitOf(point, t.e1) {
      SplitOfOneSide(t, point, t.e1, s);
    } else if s in SplitOf(point, t.e2) {
      SplitOfOneSide(t, point, t.e2, s);
    } else {
      SplitOfOneSide(t, point, t.e3, s);
    }
  }

  lemma SplitOfOneSide(t: Triangle, point: Vector, e: Edge, s: Triangle)
    requires WellFormed(t) && e in EdgeSet(t) && s in SplitOf(point, e)
    ensures WellFormed(s) && point in Vertices(s) && Vertices(s) <= Vertices(t) + {point}
  {
    SplitTriangleProper(point, e);
    EdgeOfWellFormed(t, e);
  }

  /** Splitting t by the point adds only the point as a corner. */
  lemma SplitCornersWithin(ts: set<Triangle>, t: Triangle, point: Vector)
    requires t in ts && WellFormed(t)
    ensures Corners(ts + Splits(point, EdgeSeq(t)) - {t}) <= Corners(ts) + {point}
  {
    var ss := Splits(point, EdgeSeq(t));
    forall v | v in Corners(ts + ss - {t})
      ensures v in Corners(ts) + {point}
    {
      var u :| u in ts + ss - {t} && v in Vertices(u);
      if u in ss {
        SplitOfSide(t, point, u);
        assert v in Vertices(t) + {point};
      }
    }
  }

  /** The split triangle of an edge whose line misses the point keeps both
      ends of the edge. */
  lemma SideSplit(point: Vector, e: Edge)
    requires !OnLine(point, e)
    ensures SplitTriangle(point, e).Success?
    ensures SplitOf(point, e) == {SplitTriangle(point, e).value}
    ensures Vertices(SplitTriangle(point, e).value) == {e.p1, e.p2, point}
  {
    SplitTriangleProper(point, e);
    SplitOfCases(point, e);
  }

  lemma VerticesInCorners(ts: set<Triangle>, t: Triangle)
    requires t in ts
    ensures Vertices(t) <= Corners(ts)
  {
  }

  /** The split triangles of a side whose line misses the point hold the
      side's ends and the point. */
  lemma SideCorners(ss: set<Triangle>, point: Vector, e: Edge)
    requires !OnLine(point, e) && SplitOf(point, e) <= ss
    ensures {e.p1, e.p2, point} <= Corners(ss)
  {
    SideSplit(point, e);
    VerticesInCorners(ss, SplitTriangle(point, e).value);
  }

  /** When t has area and the point is not one of its corners, the split
      triangles hold the point and all three corners of t. */
  lemma SplitsHoldCorners(t: Triangle, point: Vector)
    requires WellFormed(t) && HasArea(t) && point !in Vertices(t)
    ensures Vertices(t) + {point} <= Corners(Splits(point, EdgeSeq(t)))
  {
    AtMostOneSideLine(t, point);
    SplitsOfSides(point, t);
    var ss := Splits(point, EdgeSeq(t));
    if !OnLine(point, t.e1) {
      SideCorners(ss, point, t.e1);
    }
    if !OnLine(point, t.e2) {
      SideCorners(ss, point, t.e2);
    }
    if !OnLine(point, t.e3) {
      SideCorners(ss, point, t.e3);
    }
  }

  /** Splitting a triangle with area by a point that is not one of its
      corners adds exactly the point as a corner. */
  lemma SplitCornersExact(ts: set<Triangle>, t: Triangle, point: Vector)
    requires t in ts && WellFormed(t) && HasArea(t) && point !in Vertices(t)
    ensures Corners(ts + Splits(point, EdgeSeq(t)) - {t}) == Corners(ts) + {point}
  {
    var ss := Splits(point, EdgeSeq(t));
    SplitCornersWithin(ts, t, point);
    SplitsHoldCorners(t, point);
    forall s | s in ss
      ensures s != t
    {
      SplitOfSide(t, point, s);
    }
    CornersMonotone(ss, ts + ss - {t});
    CornersMonotone(ts - {t}, ts + ss - {t});
    CornersRemove(ts, t);
  }

  // ---------------------------------------------------------------------
  // The triangulation
  // ---------------------------------------------------------------------

  class DelaunayMap {
    /** HeightMap.Heights: the marks (keys) and their elevations. */
    const heights: map<Vector, real>
    /** Triangles, the HashSet the algorithm edits in place. */
    var triangles: set<Triangle>

    constructor(heights: map<Vector, real>)
      ensures this.heights == heights && triangles == {}
    {
      this.heights := heights;
      triangles := {};
    }

    /** Every triangle in the set is proper. */
    ghost predicate Valid()
      reads this
    {
      AllProper(triangles)
    }


    /** AddNewTriangle(point, edge): nothing when the point is on the line of
        the edge, otherwise the triangle on the edge and the point. */
    method AddNewTriangle(point: Vector, edge: Edge)
      requires Valid()
      modifies this
      ensures Valid()
      ensures triangles == old(triangles) + SplitOf(point, edge)
    {
      SplitOfCases(point, edge);
      if OnLine(point, edge) {
        return;
      }
      SplitTriangleProper(point, edge);
      var t := SplitTriangle(point, edge).value;
      AddProper(triangles, t);
      triangles := triangles + {t};
    }

    /** The flip: ABC and ABD are removed, then the triangle on A, C, D
        and the triangle on B, C, D are added. */
    method Flip(abc: Triangle, abd: Triangle, e: Edge)
      requires Valid()
      requires abc in triangles && abd in triangles && abc != abd
      requires e in EdgeSet(abc) && e in EdgeSet(abd)
      modifies this
      ensures Valid() && Corners(triangles) == Corners(old(triangles))
      ensures FlipTriangle(abc, abd, e, e.p2).Success? && FlipTriangle(abc, abd, e, e.p1).Success?
      ensures triangles == old(triangles) - {abc} - {abd}
                           + {FlipTriangle(abc, abd, e, e.p2).value} + {FlipTriangle(abc, abd, e, e.p1).value}
    {
      FlipKeeps(triangles, abc, abd, e);
      triangles := triangles - {abc};
      triangles := triangles - {abd};
      triangles := triangles + {FlipTriangle(abc, abd, e, e.p2).value};
      triangles := triangles + {FlipTriangle(abc, abd, e, e.p1).value};
    }

    /** One turn of the legalisation loop for the popped edge e. When exactly
        two triangles ABC and ABD share e (in either order, as the hash set
        lists them) and D is strictly inside the circle through A, B and C,
        both are replaced by the flipped pair and their four other edges are
        returned for pushing; otherwise nothing changes. */
    method LegalizeEdge(e: Edge, sqrt: real -> real)
      returns (pushed: seq<Edge>, ghost abc: Triangle, ghost abd: Triangle)
      requires Valid()
      modifies this
      ensures Valid() && Corners(triangles) == Corners(old(triangles))
      ensures |Sharing(old(triangles), e)| != 2 ==> triangles == old(triangles) && pushed == []
      ensures |Sharing(old(triangles), e)| == 2 ==>
                && Sharing(old(triangles), e) == {abc, abd} && abc != abd
                && (Illegal(abc, abd, e, sqrt) ==>
                      && FlipTriangle(abc, abd, e, e.p2).Success? && FlipTriangle(abc, abd, e, e.p1).Success?
                      && triangles == old(triangles) - {abc} - {abd}
                                      + {FlipTriangle(abc, abd, e, e.p2).value} + {FlipTriangle(abc, abd, e, e.p1).value}
                      && pushed == OtherEdges(abc, e) + OtherEdges(abd, e))
                && (!Illegal(abc, abd, e, sqrt) ==> triangles == old(triangles) && pushed == [])
    {
      pushed := [];
      abc, abd := *, *;
      var common := Sharing(triangles, e);
      if |common| != 2 {
        return;
      }
      var first :| first in common;
      TwoElements(common, first);
      var second :| second in common && second != first;
      abc, abd := first, second;
      if TriangleEquals(first, second) {
        // The C# code removes both and moves on; two members of a set are
        // never equal, so this branch is never taken.
        assert false;
      }
      EdgeOfWellFormed(second, e);
      if Illegal(first, second, e, sqrt) {
        Flip(first, second, e);
        pushed := OtherEdges(first, e) + OtherEdges(second, e);
      }
    }

    /** One pass of the foreach over the marks: find a triangle including
        the point (First throws InvalidOperationException when there is
        none), split it by the point, then legalise the pushed edges.
        `fuel` bounds the number of pops; `fuelLeft` is what remains. */
    method Insert(point: Vector, sqrt: real -> real, fuel: nat)
      returns (outcome: Outcome, fuelLeft: nat, ghost container: Triangle)
      requires Valid()
      modifies this
      ensures Valid()
      ensures fuelLeft <= fuel
      ensures outcome == Fail(InvalidOperationException)
              <==> forall t :: t in old(triangles) ==> !IsIncluding(t, point)
      ensures outcome == Fail(InvalidOperationException) ==> triangles == old(triangles)
      ensures outcome == Pass || outcome == Fail(InvalidOperationException) || outcome == Fail(FuelExhausted)
      ensures outcome != Fail(InvalidOperationException) ==>
                && container in old(triangles) && IsIncluding(container, point)
                && Corners(triangles) <= Corners(old(triangles)) + {point}
                && (HasArea(container) && point !in Vertices(container) ==>
                      Corners(triangles) == Corners(old(triangles)) + {point})
    {
      container := *;
      if forall t | t in triangles :: !IsIncluding(t, point) {
        return Fail(InvalidOperationException), fuel, container;
      }
      var tmp :| tmp in triangles && IsIncluding(tmp, point);
      container := tmp;
      ghost var before := triangles;
      var stack := SplitAt(point, tmp);
      SplitCornersWithin(before, tmp, point);
      if HasArea(tmp) && point !in Vertices(tmp) {
        SplitCornersExact(before, tmp, point);
      }
      outcome, fuelLeft := Legalize(stack, sqrt, fuel);
    }

    /** The split of `tmp` by the point: for each of its edges in turn, push
        the edge and add the triangle on the edge and the point, then remove
        `tmp`. The pushed edges are returned in push order. */
    method SplitAt(point: Vector, tmp: Triangle) returns (stack: seq<Edge>)
      requires Valid() && tmp in triangles
      modifies this
      ensures Valid()
      ensures stack == EdgeSeq(tmp)
      ensures triangles == old(triangles) + Splits(point, EdgeSeq(tmp)) - {tmp}
    {
      stack := PushSplits(point, EdgeSeq(tmp));
      RemoveProper(triangles, tmp);
      triangles := triangles - {tmp};
    }

    /** The foreach over the edges: each is pushed and gets its triangle. */
    method PushSplits(point: Vector, edges: seq<Edge>) returns (stack: seq<Edge>)
      requires Valid()
      modifies this
      ensures Valid()
      ensures stack == edges
      ensures triangles == old(triangles) + Splits(point, edges)
    {
      stack := [];
      for i := 0 to |edges|
        invariant stack == edges[..i]
        invariant triangles == old(triangles) + Splits(point, stack)
        invariant Valid()
      {
        var a := edges[i];
        ghost var prevStack, prev := stack, triangles;
        stack := stack + [a];
        PrefixSnoc(edges, i);
        AddNewTriangle(point, a);
        SplitStep(old(triangles), prev, triangles, point, prevStack, a, stack);
      }
      PrefixAll(edges);
    }

    /** The while loop over the edge stack: pop the last pushed edge,
        legalise it and push what the flip returns, until the stack is empty
        or the fuel runs out. The corners never change. */
    method Legalize(stack: seq<Edge>, sqrt: real -> real, fuel: nat) returns (outcome: Outcome, fuelLeft: nat)
      requires Valid()
      modifies this
      ensures Valid() && Corners(triangles) == Corners(old(triangles))
      ensures fuelLeft <= fuel
      ensures outcome == Pass || (outcome == Fail(FuelExhausted) && fuelLeft == 0)
      ensures stack == [] ==> outcome == Pass && triangles == old(triangles) && fuelLeft == fuel
    {
      var pending := stack;
      fuelLeft := fuel;
      while pending != []
        invariant Valid() && Corners(triangles) == Corners(old(triangles))
        invariant fuelLeft <= fuel
        invariant stack == [] ==> pending == [] && triangles == old(triangles) && fuelLeft == fuel
        decreases fuelLeft
      {
        if fuelLeft == 0 {
          return Fail(FuelExhausted), fuelLeft;
        }
        fuelLeft := fuelLeft - 1;
        var edge := pending[|pending| - 1];
        pending := pending[..|pending| - 1];
        var pushed;
        ghost var abc, abd;
        pushed, abc, abd := LegalizeEdge(edge, sqrt);
        pending := pending + pushed;
      }
      outcome := Pass;
    }

    /** Create: build the huge triangle around the bounding rectangle of the
        marks (Max and Min throw InvalidOperationException when there are
        none), insert every mark in dictionary order, then drop every
        triangle that shares a corner with the huge triangle. An exception
        from an insertion ends Create at once, as the C# exception does. */
    method Create(sqrt: real -> real, fuel: nat)
      returns (outcome: Outcome, ghost huge: Triangle, ghost hi: Vector, ghost lo: Vector)
      requires Valid() && IsSqrt(sqrt)
      modifies this
      ensures Valid()
      ensures heights.Keys == {} ==> outcome == Fail(InvalidOperationException) && triangles == old(triangles)
      ensures heights.Keys != {} ==>
                && IsUpperCorner(heights.Keys, hi) && IsLowerCorner(heights.Keys, lo)
                && HugeTriangle(hi, lo, sqrt) == Success(huge)
                && Corners(triangles) <= Corners(old(triangles)) + Vertices(huge) + heights.Keys
      ensures outcome.Pass? ==>
                && (forall t :: t in triangles ==> !HasCommonPoints(t, huge))
                && Corners(triangles) <= Corners(old(triangles)) + heights.Keys
    {
      huge, hi, lo := *, *, *;
      var marks := heights.Keys;
      var found, maxCorner, minCorner := Bounds(marks);
      if !found {
        return Fail(InvalidOperationException), huge, hi, lo;
      }
      hi, lo := maxCorner, minCorner;
      HugeTriangleProper(maxCorner, minCorner, sqrt);
      var big := HugeTriangle(maxCorner, minCorner, sqrt).value;
      huge := big;
      AddProper(triangles, big);
      CornersAdd(triangles, big);
      triangles := triangles + {big};
      var inserted := InsertAll(marks, sqrt, fuel);
      if inserted.Fail? {
        return inserted, huge, hi, lo;
      }
      ghost var before := triangles;
      RemoveTouching(big);
      CornersAvoiding(before, big);
      outcome := Pass;
    }

    /** The foreach over the marks, in the dictionary's order: each mark
        is inserted in turn; the first failure ends the loop. Only the
        marks are added as corners. */
    method InsertAll(marks: set<Vector>, sqrt: real -> real, fuel: nat) returns (outcome: Outcome)
      requires Valid()
      modifies this
      ensures Valid()
      ensures Corners(triangles) <= Corners(old(triangles)) + marks
    {
      var remaining := marks;
      var fuelLeft := fuel;
      while remaining != {}
        invariant remaining <= marks
        invariant Valid()
        invariant Corners(triangles) <= Corners(old(triangles)) + (marks - remaining)
        decreases remaining
      {
        var point :| point in remaining;
        var inserted;
        ghost var container;
        inserted, fuelLeft, container := Insert(point, sqrt, fuelLeft);
        if inserted.Fail? {
          return inserted;
        }
        remaining := remaining - {point};
      }
      outcome := Pass;
    }

    /** The final sweep: every triangle sharing a corner with `huge` is
        collected first (Where(...).ToArray()), then removed one by one. */
    method RemoveTouching(huge: Triangle)
      requires Valid()
      modifies this
      ensures Valid()
      ensures triangles == set t | t in old(triangles) && !HasCommonPoints(t, huge)
    {
      var doomed := set t | t in triangles && HasCommonPoints(t, huge);
      ghost var kept := set t | t in triangles && !HasCommonPoints(t, huge);
      while doomed != {}
        invariant triangles == kept + doomed
        invariant forall t :: t in doomed ==> HasCommonPoints(t, huge)
        invariant kept == set t | t in old(triangles) && !HasCommonPoints(t, huge)
        invariant Valid()
        decreases doomed
      {
        var t :| t in doomed;
        triangles := triangles - {t};
        doomed := doomed - {t};
      }
    }
  }

  /** Keeping only the triangles that share no corner with `huge` removes
      every corner of `huge`. */
  lemma CornersAvoiding(ts: set<Triangle>, huge: Triangle)
    ensures Corners(set t | t in ts && !HasCommonPoints(t, huge)) <= Corners(ts) - Vertices(huge)
  {
  }

  /** A two-element set is its chosen element and one other. */
  lemma TwoElements<T>(s: set<T>, x: T)
    requires |s| == 2 && x in s
    ensures exists y :: y in s && y != x
    ensures forall y :: y in s && y != x ==> s == {x, y}
  {
    var rest := s - {x};
    assert s == rest + {x};
    assert |rest| == 1;
    forall z | z in s && z != x
      ensures s == {x, z}
    {
      assert rest == (rest - {z}) + {z};
      assert |rest - {z}| == 0;
      assert rest == {z};
    }
  }
}
