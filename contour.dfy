/** ContourMap: for every edge of a Delaunay triangulation, the points where
    the contour lines of evenly spaced elevations cross that edge, found by
    linear interpolation between the elevations of the edge's two ends. */
module ContourMaps {
  import opened Results
  import opened Reals
  import opened Vectors
  import opened Edges
  import opened Triangles
  import opened DelaunayMaps

  /* ---------- the contour levels ---------- */

  const IntMin: int := -0x8000_0000
  const IntMax: int := 0x7FFF_FFFF

  /** The values of a C# int. */
  predicate IsInt32(x: int)
  {
    IntMin <= x <= IntMax
  }

  /** Integer arithmetic in C#'s default unchecked context: the result is
      the int that agrees with x modulo 2^32. */
  function Wrap32(x: int): (r: int)
    ensures IsInt32(r)
    ensures (r - x) % 0x1_0000_0000 == 0
    ensures IsInt32(x) ==> r == x
  {
    (x - IntMin) % 0x1_0000_0000 + IntMin
  }

  /** The count handed to Enumerable.Range(1, partitionCount - 1). */
  function LevelCount(partitionCount: int): int
  {
    Wrap32(partitionCount - 1)
  }

  /** Enumerable.Range(1, count) throws exactly when the count is negative
      (1 + count - 1 never exceeds int.MaxValue). The count is negative for
      every partitionCount below 1 except int.MinValue, whose count wraps
      around to int.MaxValue. */
  lemma LevelCountCases(partitionCount: int)
    requires IsInt32(partitionCount)
    ensures partitionCount >= 1 ==> LevelCount(partitionCount) == partitionCount - 1
    ensures partitionCount == IntMin ==> LevelCount(partitionCount) == IntMax
    ensures LevelCount(partitionCount) < 0 <==> IntMin < partitionCount < 1
  {
  }

  /** The a-th level of n partitions of [lo, hi], computed as
      a * (hi - lo) / n + lo. */
  function Level(lo: real, hi: real, n: int, a: int): real
    requires n != 0
  {
    Mul(a as real, hi - lo) / (n as real) + lo
  }

  /** Enumerable.Range(1, n - 1).Select(a => Level(a)), with the count
      n - 1 wrapped to an int: for n >= 1 the n - 1 inner division points of
      [lo, hi], lowest first. */
  function Levels(lo: real, hi: real, n: int): (r: seq<real>)
    requires n != 0 && LevelCount(n) >= 0
    ensures |r| == LevelCount(n)
    ensures IsInt32(n) && n >= 1 ==> |r| == n - 1
  {
    seq(LevelCount(n), i requires 0 <= i < LevelCount(n) => Level(lo, hi, n, i + 1))
  }

  /** With a proper range, the levels rise strictly and stay strictly inside
      it: each contour separates the lowest mark from the highest. */
  lemma LevelsIncreasing(lo: real, hi: real, n: int)
    requires IsInt32(n) && n >= 1 && lo < hi
    ensures forall i, j :: 0 <= i < j < |Levels(lo, hi, n)| ==>
              Levels(lo, hi, n)[i] < Levels(lo, hi, n)[j]
    ensures forall i :: 0 <= i < |Levels(lo, hi, n)| ==> lo < Levels(lo, hi, n)[i] < hi
  {
    var ls := Levels(lo, hi, n);
    forall i, j | 0 <= i < j < |ls|
      ensures ls[i] < ls[j]
    {
      LevelStep(lo, hi, n, i + 1, j + 1);
    }
    forall i | 0 <= i < |ls|
      ensures lo < ls[i] < hi
    {
      LevelStep(lo, hi, n, 0, i + 1);
      LevelStep(lo, hi, n, i + 1, n);
      MulOne(hi - lo);
      MulCommutes(n as real, hi - lo);
      MulDivCancel(n as real, hi - lo);
      MulZero(hi - lo);
      MulCommutes(0.0, hi - lo);
    }
  }

  /** A later partition index gives a strictly higher level. */
  lemma LevelStep(lo: real, hi: real, n: int, a: int, b: int)
    requires n >= 1 && lo < hi && a < b
    ensures Level(lo, hi, n, a) < Level(lo, hi, n, b)
  {
    MulStrictMonotone(a as real, b as real, hi - lo);
    DivStrictMonotone(Mul(a as real, hi - lo), Mul(b as real, hi - lo), n as real);
  }

  /** With partitionCount == int.MinValue the division is by a negative
      number: all int.MaxValue levels lie strictly below the lowest
      elevation. */
  lemma WrappedLevelsBelow(lo: real, hi: real)
    requires lo < hi
    ensures |Levels(lo, hi, IntMin)| == IntMax
    ensures forall i :: 0 <= i < |Levels(lo, hi, IntMin)| ==> Levels(lo, hi, IntMin)[i] < lo
  {
    LevelCountCases(IntMin);
    forall i | 0 <= i < |Levels(lo, hi, IntMin)|
      ensures Levels(lo, hi, IntMin)[i] < lo
    {
      MulPositive((i + 1) as real, hi - lo);
      DivNegative(Mul((i + 1) as real, hi - lo), IntMin as real);
    }
  }

  /** When every mark has the same elevation, every level is that
      elevation, whatever the count. */
  lemma LevelsFlat(h: real, n: int)
    requires n != 0 && LevelCount(n) >= 0
    ensures forall i :: 0 <= i < |Levels(h, h, n)| ==> Levels(h, h, n)[i] == h
  {
    forall i | 0 <= i < |Levels(h, h, n)|
      ensures Levels(h, h, n)[i] == h
    {
      MulZero((i + 1) as real);
    }
  }

  /* ---------- MinHeight and MaxHeight ---------- */

  ghost predicate IsLowest(heights: map<Vector, real>, h: real)
  {
    h in heights.Values && forall v :: v in heights ==> h <= heights[v]
  }

  ghost predicate IsHighest(heights: map<Vector, real>, h: real)
  {
    h in heights.Values && forall v :: v in heights ==> heights[v] <= h
  }

  /** Heights.Values.Min() and Heights.Values.Max() in one pass; found is
      false exactly when there is no mark (where Min and Max would throw). */
  method HeightRange(heights: map<Vector, real>) returns (found: bool, lo: real, hi: real)
    ensures found <==> heights != map[]
    ensures found ==> IsLowest(heights, lo) && IsHighest(heights, hi)
  {
    found, lo, hi := false, 0.0, 0.0;
    var remaining := heights.Keys;
    while remaining != {}
      invariant remaining <= heights.Keys
      invariant found <==> remaining != heights.Keys
      invariant found ==> lo in heights.Values && hi in heights.Values
      invariant forall v :: v in heights && v !in remaining ==> lo <= heights[v] <= hi
      decreases remaining
    {
      var v :| v in remaining;
      if !found || heights[v] < lo {
        lo := heights[v];
      }
      if !found || heights[v] > hi {
        hi := heights[v];
      }
      found := true;
      remaining := remaining - {v};
    }
  }

  /** The lowest and the highest elevation are unique and in order. */
  lemma RangeUnique(heights: map<Vector, real>, lo: real, hi: real, lo': real, hi': real)
    requires IsLowest(heights, lo) && IsHighest(heights, hi)
    requires IsLowest(heights, lo') && IsHighest(heights, hi')
    ensures lo == lo' && hi == hi' && lo <= hi
  {
    var v :| v in heights && heights[v] == lo;
    var v' :| v' in heights && heights[v'] == lo';
  }

  /* ---------- where a contour crosses an edge ---------- */

  /** The share of the way from the lower end (ratio_str) and from the
      higher end (ratio_end) at which level h lies. */
  function RatioStr(strHeight: real, endHeight: real, h: real): real
    requires strHeight != endHeight
  {
    (h - strHeight) / (endHeight - strHeight)
  }

  function RatioEnd(strHeight: real, endHeight: real, h: real): real
    requires strHeight != endHeight
  {
    (endHeight - h) / (endHeight - strHeight)
  }

  /** ratio_end * str + ratio_str * end, exactly as the loop body writes it.
      With endHeight == strHeight both ratios are 0 / 0, which is NaN in
      single precision, so the recorded point has no coordinates: None. */
  function CrossingAsWritten(str: Vector, end: Vector, strHeight: real, endHeight: real, h: real): (r: Option<Vector>)
    ensures r.None? <==> strHeight == endHeight
  {
    if strHeight == endHeight then None
    else Some(Add(ScaleLeft(RatioEnd(strHeight, endHeight, h), str),
                  ScaleLeft(RatioStr(strHeight, endHeight, h), end)))
  }

  /** tmpDict as the loop writes it, for an edge already ordered from lower
      to higher: every level between the two elevations, flat edges
      included, mapped to the unguarded interpolation. */
  ghost function EdgeEntryAsWritten(str: Vector, end: Vector, strHeight: real, endHeight: real,
                                    levels: seq<real>): map<real, Option<Vector>>
  {
    map h | h in levels && strHeight <= h <= endHeight :: CrossingAsWritten(str, end, strHeight, endHeight, h)
  }

  /** A flat edge whose elevation is a contour level: all marks at 5.0 with
      two partitions give the single level 5.0, the loop's filter lets it
      through on a flat edge, and the point recorded for it is NaN. The
      guarded entry records nothing there. */
  lemma FlatEdgeRecordsNaN()
    ensures Levels(5.0, 5.0, 2) == [5.0]
    ensures var written := EdgeEntryAsWritten(Vector(0.0, 0.0), Vector(1.0, 0.0), 5.0, 5.0, Levels(5.0, 5.0, 2));
            5.0 in written && written[5.0].None?
    ensures EdgeEntry(Vector(0.0, 0.0), Vector(1.0, 0.0), 5.0, 5.0, Levels(5.0, 5.0, 2)) == map[]
  {
    LevelCountCases(2);
    LevelsFlat(5.0, 2);
    assert Levels(5.0, 5.0, 2)[0] == 5.0;
  }

  /** The crossing point with the division guarded: a point of the segment,
      the one the source's formula gives wherever its division is defined. */
  function Crossing(str: Vector, end: Vector, strHeight: real, endHeight: real, h: real): (r: Vector)
    requires strHeight != endHeight
    ensures CrossingAsWritten(str, end, strHeight, endHeight, h) == Some(r)
  {
    var s := RatioStr(strHeight, endHeight, h);
    RatiosSum(strHeight, endHeight, h);
    Interpolate(str.x, end.x, RatioEnd(strHeight, endHeight, h), s);
    Interpolate(str.y, end.y, RatioEnd(strHeight, endHeight, h), s);
    Add(str, Scale(Sub(end, str), s))
  }

  lemma RatiosSum(strHeight: real, endHeight: real, h: real)
    requires strHeight != endHeight
    ensures RatioStr(strHeight, endHeight, h) + RatioEnd(strHeight, endHeight, h) == 1.0
  {
    DivAdd(h - strHeight, endHeight - h, endHeight - strHeight);
    DivSelf(endHeight - strHeight);
  }

  /** The two ratios split the edge: for a level between the ends' elevations
      both lie in [0, 1] and they add up to 1. */
  lemma RatiosPartition(strHeight: real, endHeight: real, h: real)
    requires strHeight < endHeight && strHeight <= h <= endHeight
    ensures 0.0 <= RatioStr(strHeight, endHeight, h) <= 1.0
    ensures 0.0 <= RatioEnd(strHeight, endHeight, h) <= 1.0
    ensures RatioStr(strHeight, endHeight, h) + RatioEnd(strHeight, endHeight, h) == 1.0
  {
    var d := endHeight - strHeight;
    DivNonnegative(h - strHeight, d);
    DivAtMostOne(h - strHeight, d);
    DivNonnegative(endHeight - h, d);
    DivAtMostOne(endHeight - h, d);
    RatiosSum(strHeight, endHeight, h);
  }

  /** The crossing point lies on the segment from str to end, at the share of
      the way at which the linearly interpolated elevation equals the level. */
  lemma CrossingOnSegment(str: Vector, end: Vector, strHeight: real, endHeight: real, h: real)
    requires strHeight < endHeight && strHeight <= h <= endHeight
    ensures 0.0 <= RatioStr(strHeight, endHeight, h) <= 1.0
    ensures Crossing(str, end, strHeight, endHeight, h)
            == Add(str, Scale(Sub(end, str), RatioStr(strHeight, endHeight, h)))
    ensures strHeight + Mul(RatioStr(strHeight, endHeight, h), endHeight - strHeight) == h
  {
    RatiosPartition(strHeight, endHeight, h);
    DivMulCancel(h - strHeight, endHeight - strHeight);
  }

  /** One coordinate of the interpolation: u * (1 - s) + w * s == u + (w - u) * s. */
  lemma Interpolate(u: real, w: real, rEnd: real, s: real)
    requires rEnd + s == 1.0
    ensures Mul(u, rEnd) + Mul(w, s) == u + Mul(w - u, s)
  {
    assert rEnd == 1.0 - s;
  }

  /** On a rising edge the lowest level is met at the lower end and the
      highest at the higher end. */
  lemma CrossingAtEnds(str: Vector, end: Vector, strHeight: real, endHeight: real)
    requires strHeight < endHeight
    ensures Crossing(str, end, strHeight, endHeight, strHeight) == str
    ensures Crossing(str, end, strHeight, endHeight, endHeight) == end
  {
    SegmentEnds(str, end);
    RatioAtEnds(strHeight, endHeight);
  }

  lemma RatioAtEnds(strHeight: real, endHeight: real)
    requires strHeight < endHeight
    ensures RatioStr(strHeight, endHeight, strHeight) == 0.0
    ensures RatioStr(strHeight, endHeight, endHeight) == 1.0
  {
    DivSelf(endHeight - strHeight);
  }

  /** The segment from str to end starts at str and ends at end. */
  lemma SegmentEnds(str: Vector, end: Vector)
    ensures Add(str, Scale(Sub(end, str), 0.0)) == str
    ensures Add(str, Scale(Sub(end, str), 1.0)) == end
  {
    var diff := Sub(end, str);
    MulZero(diff.x);
    MulZero(diff.y);
    MulOne(diff.x);
    MulOne(diff.y);
  }

  /* ---------- one edge's dictionary ---------- */

  /** tmpDict with the division guarded, for an edge already ordered from
      lower to higher: one crossing point per level between the two
      elevations, and none on a flat edge. */
  ghost function EdgeEntry(str: Vector, end: Vector, strHeight: real, endHeight: real, levels: seq<real>): map<real, Vector>
  {
    if strHeight == endHeight then map[]
    else map h | h in levels && strHeight <= h <= endHeight :: Crossing(str, end, strHeight, endHeight, h)
  }

  /** The guarded entry differs from the entry as written only on flat
      edges: elsewhere it has the same levels with the same points. */
  lemma AsWrittenAgrees(str: Vector, end: Vector, strHeight: real, endHeight: real, levels: seq<real>)
    requires strHeight != endHeight
    ensures EdgeEntryAsWritten(str, end, strHeight, endHeight, levels).Keys
            == EdgeEntry(str, end, strHeight, endHeight, levels).Keys
    ensures forall h :: h in EdgeEntry(str, end, strHeight, endHeight, levels) ==>
              EdgeEntryAsWritten(str, end, strHeight, endHeight, levels)[h]
              == Some(EdgeEntry(str, end, strHeight, endHeight, levels)[h])
  {
  }

  /** The entry for an edge as stored: the ends are swapped first when the
      first end is the higher one. */
  ghost function OrientedEntry(p1: Vector, p2: Vector, h1: real, h2: real, levels: seq<real>): map<real, Vector>
  {
    if h1 > h2 then EdgeEntry(p2, p1, h2, h1, levels) else EdgeEntry(p1, p2, h1, h2, levels)
  }

  /** The swap makes the entry independent of which end comes first. */
  lemma OrientationFree(p1: Vector, p2: Vector, h1: real, h2: real, levels: seq<real>)
    ensures OrientedEntry(p1, p2, h1, h2, levels) == OrientedEntry(p2, p1, h2, h1, levels)
  {
  }

  /** The keys of the stored entry are exactly the levels between the two
      elevations of a non-flat edge, and each value is on the edge at that
      level's share. */
  lemma EntryContents(p1: Vector, p2: Vector, h1: real, h2: real, levels: seq<real>, h: real)
    requires h in levels
    ensures var lo := if h1 > h2 then h2 else h1;
            var hi := if h1 > h2 then h1 else h2;
            h in OrientedEntry(p1, p2, h1, h2, levels) <==> lo <= h <= hi && h1 != h2
    ensures h1 < h2 && h1 <= h <= h2 ==>
              h in OrientedEntry(p1, p2, h1, h2, levels) &&
              OrientedEntry(p1, p2, h1, h2, levels)[h] == Add(p1, Scale(Sub(p2, p1), RatioStr(h1, h2, h)))
  {
  }

  /** In a flat field, where every mark has the same elevation, no edge
      records a crossing point, whatever the levels. */
  lemma FlatFieldNoCrossings(heights: map<Vector, real>, level: real, e: Edge, levels: seq<real>)
    requires forall v :: v in heights ==> heights[v] == level
    requires e.p1 in heights && e.p2 in heights
    ensures StoredEntry(heights, e, levels) == map[]
  {
  }

  /** With partitionCount == int.MinValue and a proper range of elevations,
      every edge records nothing: all the levels lie below every mark. */
  lemma WrappedEntriesEmpty(heights: map<Vector, real>, lo: real, hi: real, e: Edge)
    requires IsLowest(heights, lo) && IsHighest(heights, hi) && lo < hi
    requires e.p1 in heights && e.p2 in heights
    ensures StoredEntry(heights, e, Levels(lo, hi, IntMin)) == map[]
  {
    WrappedLevelsBelow(lo, hi);
  }

  /** tmpDict: filled level by level, in the order of the levels; a flat
      edge records nothing. */
  method FillEdge(str: Vector, end: Vector, strHeight: real, endHeight: real, levels: seq<real>)
    returns (tmp: map<real, Vector>)
    ensures tmp == EdgeEntry(str, end, strHeight, endHeight, levels)
  {
    tmp := map[];
    if strHeight == endHeight {
      return;
    }
    for i := 0 to |levels|
      invariant tmp == EdgeEntry(str, end, strHeight, endHeight, levels[..i])
    {
      var h := levels[i];
      if strHeight <= h <= endHeight {
        tmp := tmp[h := Crossing(str, end, strHeight, endHeight, h)];
      }
      assert levels[..i + 1] == levels[..i] + [h];
    }
    assert levels[..|levels|] == levels;
  }

  /** ChangeValue: the two values trade places. */
  method ChangeValue<T>(value1: T, value2: T) returns (first: T, second: T)
    ensures first == value2 && second == value1
  {
    var tmp := value1;
    first := value2;
    second := tmp;
  }

  /* ---------- the contour map ---------- */

  /** The distinct edges of the triangulation. */
  function MeshEdges(ts: set<Triangle>): (r: set<Edge>)
    ensures forall t, e :: t in ts && e in EdgeSet(t) ==> e in r
    ensures forall e :: e in r ==> exists t :: t in ts && e in EdgeSet(t)
  {
    set t, e | t in ts && e in EdgeSet(t) :: e
  }

  /** Whether every edge's ends carry an elevation. */
  ghost predicate EndsKnown(heights: map<Vector, real>, edges: set<Edge>)
  {
    forall e :: e in edges ==> e.p1 in heights && e.p2 in heights
  }

  /** The entry Create stores for an edge. */
  ghost function StoredEntry(heights: map<Vector, real>, e: Edge, levels: seq<real>): map<real, Vector>
    requires e.p1 in heights && e.p2 in heights
  {
    OrientedEntry(e.p1, e.p2, heights[e.p1], heights[e.p2], levels)
  }

  class ContourMap {
    const delaunay: DelaunayMap
    /** DataPoints: per edge, the crossing point of each contour level. */
    var dataPoints: map<Edge, map<real, Vector>>

    constructor (delaunay: DelaunayMap)
      ensures this.delaunay == delaunay && dataPoints == map[]
    {
      this.delaunay := delaunay;
      dataPoints := map[];
    }

    /** Create(partitionCount): records, for every distinct edge of the
        triangulation, its crossing points with the levels. The level count
        partitionCount - 1 is computed as a C# int: a negative count fails
        before anything is stored, and int.MinValue wraps around to
        int.MaxValue levels. An end without an elevation fails with the
        edges handled so far already stored. Entries of edges not in the
        triangulation stay. */
    method Create(partitionCount: int) returns (outcome: Outcome, ghost levels: seq<real>)
      requires IsInt32(partitionCount)
      modifies this
      ensures LevelCount(partitionCount) < 0 ==>
                outcome == Fail(ArgumentOutOfRangeException) && dataPoints == old(dataPoints)
      ensures LevelCount(partitionCount) >= 0 ==>
                (outcome == Pass <==> EndsKnown(delaunay.heights, MeshEdges(delaunay.triangles)))
      ensures outcome == Pass || outcome == Fail(ArgumentOutOfRangeException) ||
              outcome == Fail(KeyNotFoundException)
      ensures LevelCount(partitionCount) >= 0 ==>
                |levels| == (if delaunay.heights == map[] then 0 else LevelCount(partitionCount))
      ensures LevelCount(partitionCount) >= 0 && delaunay.heights != map[] ==>
                exists lo, hi :: IsLowest(delaunay.heights, lo) && IsHighest(delaunay.heights, hi) &&
                  levels == Levels(lo, hi, partitionCount)
      ensures old(dataPoints).Keys <= dataPoints.Keys
      ensures dataPoints.Keys - old(dataPoints).Keys <= MeshEdges(delaunay.triangles)
      ensures forall e :: e in old(dataPoints) && e !in MeshEdges(delaunay.triangles) ==>
                e in dataPoints && dataPoints[e] == old(dataPoints)[e]
      ensures forall e :: e in dataPoints && e !in old(dataPoints) ==>
                e.p1 in delaunay.heights && e.p2 in delaunay.heights &&
                dataPoints[e] == StoredEntry(delaunay.heights, e, levels)
      ensures outcome == Pass ==> forall e :: e in MeshEdges(delaunay.triangles) ==>
                e in dataPoints && e.p1 in delaunay.heights && e.p2 in delaunay.heights &&
                dataPoints[e] == StoredEntry(delaunay.heights, e, levels)
    {
      levels := [];
      LevelCountCases(partitionCount);
      if LevelCount(partitionCount) < 0 {
        return Fail(ArgumentOutOfRangeException), levels;
      }
      var heights := delaunay.heights;
      var found, lo, hi := HeightRange(heights);
      var allLevels := if found then Levels(lo, hi, partitionCount) else [];
      levels := allLevels;
      var edges := MeshEdges(delaunay.triangles);
      var remaining := edges;
      while remaining != {}
        invariant remaining <= edges
        invariant EndsKnown(heights, edges - remaining)
        invariant forall e :: e in dataPoints <==> e in old(dataPoints) || e in edges - remaining
        invariant forall e :: e in old(dataPoints) && e !in edges ==> dataPoints[e] == old(dataPoints)[e]
        invariant forall e :: e in edges - remaining ==> dataPoints[e] == StoredEntry(heights, e, levels)
        invariant forall e :: e in dataPoints && e !in old(dataPoints) ==> e in edges - remaining
        decreases remaining
      {
        var edge :| edge in remaining;
        var str, end := edge.p1, edge.p2;
        if str !in heights || end !in heights {
          return Fail(KeyNotFoundException), levels;
        }
        var strHeight, endHeight := heights[str], heights[end];
        if strHeight > endHeight {
          strHeight, endHeight := ChangeValue(strHeight, endHeight);
          str, end := ChangeValue(str, end);
        }
        var tmp := FillEdge(str, end, strHeight, endHeight, allLevels);
        dataPoints := dataPoints[edge := tmp];
        remaining := remaining - {edge};
      }
      outcome := Pass;
    }
  }
}
