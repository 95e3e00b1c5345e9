# IsolineMap in Dafny

A model of the core of IsolineMap, a C# library that draws contour lines
(isolines) from surveyed elevation marks. It works in two stages:

- **The Delaunay map** (`DelaunayMap`) triangulates the marks incrementally.
  - It starts from one huge triangle that encloses every mark.
  - It inserts each mark by splitting the triangle that contains it.
  - It legalises the edges that split pushed, flipping an edge shared by
    triangles ABC and ABD whenever D lies strictly inside the circle through
    A, B and C.
  - It finally drops every triangle that touches a corner of the huge
    triangle.
- **The contour map** (`ContourMap`) divides the elevation range into
  `partitionCount` parts. For every distinct edge of the triangulation, it
  records where each level between the elevations of the edge's two ends
  crosses that edge, by linear interpolation.

The project is organised as follows:

| file | module | models |
|---|---|---|
| `results.dfy` | `Results` | the exceptions the code throws, as values |
| `reals.dfy` | `Reals` | small facts about products and quotients |
| `vectors.dfy` | `Vectors` | `Vector`: arithmetic, dot product, cross product |
| `edges.dfy` | `Edges` | `Edge`: a canonically ordered pair of points, equality, ordering |
| `circles.dfy` | `Circles` | `Circle` and its strict inclusion test |
| `orders.dfy` | `Orders` | sorting three elements, as the triangle constructor does |
| `triangles.dfy` | `Triangles` | the `Triangle` constructor, opposite vertex and edge, point-in-triangle test, the huge enclosing triangle, the circumscribed circle |
| `delaunay.dfy` | `DelaunayMaps` | `DelaunayMap` as a class over a set of triangles: `Create`, the insertion of one mark, `AddNewTriangle`, the edge flip, the clean-up |
| `contour.dfy` | `ContourMaps` | `ContourMap` as a class over a dictionary of edges: the levels, `Create`, `ChangeValue`, and the interpolation |

Modelling choices:

- **Numbers.** Coordinates and elevations are `real`. `Math.Sqrt` is a
  parameter `sqrt` that is assumed to return the square root (`Reals.IsSqrt`).
- **Circles.** A circle keeps the square of its radius, so `Includes` compares
  squared lengths. Over the reals this is exactly the C# comparison of
  lengths.
- **Collections.** The C# `HashSet<Triangle>` is a `set<Triangle>` field and
  the dictionaries are `map` fields, all reassigned in place by the methods.
  Their enumeration order is a nondeterministic choice (`:|`).
- **Integers.** `partitionCount` is a C# int. `partitionCount - 1` is
  computed with 32-bit wrap-around (`ContourMaps.Wrap32`), so
  int.MinValue gives int.MaxValue levels rather than an exception.
- **Exceptions.** Each exception becomes a `Fail(...)` outcome or a
  `Failure(...)` result. Where the C# code has already changed state before it
  throws, the model keeps that partial state too.

## Model

| member | source | states |
|---|---|---|
| Vectors.Equals | IsolineMap/Vector.cs:37-40 | two vectors are Equals exactly when they are the same value |
| Vectors.EqualsIsEquivalence | IsolineMap/Vector.cs:37-40 | Equals is reflexive, symmetric and transitive |
| Vectors.OperatorsAreEquals | IsolineMap/Vector.cs:259-273 | `==` and `!=` agree with Equals |
| Vectors.LengthSq | IsolineMap/Vector.cs:55-58 | the squared length is never negative |
| Vectors.Scale | IsolineMap/Vector.cs:144-147 | a scaled vector is parallel to the original, and its squared length is multiplied by the square of the factor |
| Vectors.ScaleLeft | IsolineMap/Vector.cs:155-158 | the factor-first product is the same vector as the vector-first one |
| Vectors.Sub | IsolineMap/Vector.cs:216-219 | adding the subtrahend back gives the minuend |
| Vectors.Neg | IsolineMap/Vector.cs:226-229 | unary minus gives the additive inverse |
| Vectors.SubZero | IsolineMap/Vector.cs:216-219 | a difference is the zero vector exactly when the two vectors are equal |
| Vectors.SubIsAddNeg | IsolineMap/Vector.cs:205-229 | subtraction is addition of the negation |
| Vectors.AddCommutes | IsolineMap/Vector.cs:205-208 | addition is commutative |
| Vectors.DotSymmetric | IsolineMap/Vector.cs:166-169 | the dot product is symmetric, and a vector's dot product with itself is its squared length |
| Vectors.CrossAntisymmetric | IsolineMap/Vector.cs:177-180 | the cross product changes sign when its arguments are swapped, and is zero for a vector with itself |
| Vectors.AddLengthSq | IsolineMap/Vector.cs:205-208 | the squared length of a sum is the sum of the squared lengths plus twice the dot product (the law of cosines), which is what `+` means for lengths |
| Vectors.Lagrange | IsolineMap/Vector.cs:166-180 | the dot and cross products of two vectors together account for the product of their squared lengths: \|u\|²\|w\|² − (u·w)² = (u×w)² |
| Vectors.DotBound | IsolineMap/Vector.cs:166-180 | the square of a dot product never exceeds the product of the squared lengths, with equality exactly when the cross product is zero (the vectors are parallel) |
| Vectors.CornerOfTwoLines | IsolineMap/Vector.cs:177-180 | if a point is collinear with AB and with BC but not with CA, the point is B |
| Edges.LessIsStrictTotalOrder | IsolineMap/Edge.cs:15 | the order the constructor uses to put the endpoints in order is a strict total order |
| Edges.MakeEdge | IsolineMap/Edge.cs:13-25 | the edge holds exactly the two given points, with the first never after the second in that order |
| Edges.MakeEdgeSymmetric | IsolineMap/Edge.cs:13-25 | the edge from a to b is the edge from b to a |
| Edges.MakeEdgeOfEdge | IsolineMap/Edge.cs:13-25 | rebuilding an edge from its own two points gives the same edge |
| Edges.MakeEdgeInjective | IsolineMap/Edge.cs:13-25 | two edges are equal exactly when their point sets are equal |
| Edges.DegenerateEdge | IsolineMap/Edge.cs:13-25 | an edge from a point to itself is accepted |
| Edges.EdgeEquals | IsolineMap/Edge.cs:45-48 | two edges are Equals exactly when they are the same value |
| Edges.EdgeEqualsIsEquivalence | IsolineMap/Edge.cs:45-48 | edge equality is an equivalence |
| Edges.CompareTo | IsolineMap/Edge.cs:40-43 | the result is negative, zero or positive exactly when the edge comes before, equals or comes after the other |
| Edges.EdgeLessIsStrictTotalOrder | IsolineMap/Edge.cs:40-43 | the order of edges is a strict total order |
| Circles.NewCircle | IsolineMap/Circle.cs:10-14 | keeps the centre, and the square of a non-negative radius |
| Circles.PositiveRadius | IsolineMap/Circle.cs:10-14 | the stored squared radius is positive exactly when the radius is positive |
| Circles.Includes | IsolineMap/Circle.cs:31-34 | a circle includes a point only if its squared radius is positive |
| Circles.IncludesIsStrictDistance | IsolineMap/Circle.cs:31-34 | a point is included exactly when its distance from the centre is strictly less than the radius |
| Circles.BoundaryExcluded | IsolineMap/Circle.cs:31-34 | a point on the circle is not included |
| Circles.IncludesCenter | IsolineMap/Circle.cs:31-34 | the centre is included exactly when the radius is positive |
| Circles.IncludesOwnCenter | IsolineMap/Circle.cs:31-34 | a circle includes its own centre exactly when its squared radius is positive |
| Circles.NonPositiveRadiusIncludesNothing | IsolineMap/Circle.cs:31-34 | a circle with a radius of zero or less includes no point |
| Circles.IncludesMonotone | IsolineMap/Circle.cs:31-34 | a point inside a circle is inside every larger circle with the same centre |
| Orders.Sort3By | IsolineMap/Triangle.cs:20-21 | sorting three elements gives a sorted permutation of them |
| Orders.SortedUnique | IsolineMap/Triangle.cs:20-21 | two sorted permutations of the same three elements are equal |
| Orders.Sort3ByPermutations | IsolineMap/Triangle.cs:20-21 | the sorted result does not depend on the order of the arguments |
| Triangles.Sort3 | IsolineMap/Triangle.cs:20-21 | List.Sort of the three edges gives a sorted permutation of them |
| Triangles.Sort3Permutations | IsolineMap/Triangle.cs:20-21 | the sorted edges do not depend on the argument order |
| Triangles.Distinct | IsolineMap/Triangle.cs:27 | Distinct keeps every point once: the same set of points, and no repeats |
| Triangles.FirstOff | IsolineMap/Triangle.cs:33-35 | the vertex chosen for an edge is the first point not on that edge |
| Triangles.NewTriangle | IsolineMap/Triangle.cs:18-36 | throws ArgumentException exactly when the edges do not have three distinct endpoints; otherwise the edges are sorted and each vertex is off its own edge |
| Triangles.NewTrianglePermutations | IsolineMap/Triangle.cs:18-36 | the constructed triangle does not depend on the order of the three edges |
| Triangles.FromCorners | IsolineMap/Triangle.cs:18-36 | the edges joining three distinct points build a well-formed triangle with those corners |
| Triangles.WellFormedIsConstructed | IsolineMap/Triangle.cs:18-36 | every well-formed triangle is what the constructor builds from its own edges |
| Triangles.CanonicalUnique | IsolineMap/Triangle.cs:18-36 | two well-formed triangles with the same corners are equal |
| Triangles.RepeatedSideAccepted | IsolineMap/Triangle.cs:27-35 | one edge given twice, together with a third edge, still spans three points and is accepted, yet its vertices are only two of them: the shared point of the two sides is missing |
| Triangles.SidesOfWellFormed | IsolineMap/Triangle.cs:18-36 | the edges of a well-formed triangle are the three sides joining its corners |
| Triangles.OppositeVertex | IsolineMap/Triangle.cs:127-134 | succeeds exactly for the triangle's own edges, with a corner that is not on the edge; otherwise ArgumentException |
| Triangles.OppositeEdge | IsolineMap/Triangle.cs:141-148 | succeeds exactly for the triangle's own corners, with an edge that does not contain the corner; otherwise ArgumentException |
| Triangles.OppositeInverse | IsolineMap/Triangle.cs:127-148 | the opposite vertex and the opposite edge undo each other |
| Triangles.TriangleEquals | IsolineMap/Triangle.cs:66-69 | for well-formed triangles, Equals is value equality |
| Triangles.HasCommonPoints | IsolineMap/Triangle.cs:97-102 | true exactly when the two triangles share a corner |
| Triangles.HasCommonPointsSymmetric | IsolineMap/Triangle.cs:97-102 | sharing a corner is symmetric |
| Triangles.InsideCornersReversed | IsolineMap/Triangle.cs:155-162 | the inclusion test does not depend on the winding of the corners |
| Triangles.InsideCornersRotated | IsolineMap/Triangle.cs:155-162 | the inclusion test does not depend on which corner comes first |
| Triangles.IsIncludingCorners | IsolineMap/Triangle.cs:155-162 | IsIncluding depends only on the set of corners |
| Triangles.IsIncluding | IsolineMap/Triangle.cs:155-162 | the point-in-triangle test includes each of the triangle's own corners |
| Triangles.RectangleInCircle | IsolineMap/Triangle.cs:198-199 | every point of the bounding rectangle is no farther from its centre than the corner `start` |
| Triangles.CornerTriangle | IsolineMap/Triangle.cs:208 | the triangle on three distinct corners is constructed without an exception, is well-formed and has exactly those corners |
| Triangles.HugeTriangle | IsolineMap/Triangle.cs:191-209 | whenever the three corners of the enclosing triangle differ, it is constructed without an exception, is well-formed and has exactly those corners |
| Triangles.HugeTriangleProper | IsolineMap/Triangle.cs:191-209 | the huge triangle is constructed without an exception, is well-formed, and has the three equilateral corners |
| Triangles.HugeTriangleCovers | IsolineMap/Triangle.cs:191-209 | the huge triangle includes every point of the rectangle it is built around |
| Triangles.Circumcenter | IsolineMap/Triangle.cs:108-117 | the circumcentre is defined exactly when the three corners are not collinear |
| Triangles.CircumWeightSum | IsolineMap/Triangle.cs:110-117 | the sum a + b + c of the barycentric weights is zero exactly when the corners are collinear |
| Triangles.CircumscribedCircle | IsolineMap/Triangle.cs:108-120 | the circumscribed circle exists exactly when the corners are not collinear, and its centre is the circumcentre |
| Triangles.CircumcenterEquidistant | IsolineMap/Triangle.cs:108-117 | the circumcentre is equally far from all three corners |
| Triangles.CircumcircleThroughVertices | IsolineMap/Triangle.cs:108-120 | the circumscribed circle passes through the three corners, so it includes none of them |
| DelaunayMaps.DelaunayMap.constructor | IsolineMap/DelaunayMap.cs:26-29 | the map keeps the given elevations and starts with no triangle |
| DelaunayMaps.Bounds | IsolineMap/DelaunayMap.cs:36-38 | finds the upper-right and lower-left corners of the marks' bounding box; there are none exactly when there is no mark |
| DelaunayMaps.CornersUnique | IsolineMap/DelaunayMap.cs:36-38 | those two corners are unique |
| DelaunayMaps.MarksInHugeTriangle | IsolineMap/DelaunayMap.cs:36-39 | the huge triangle over the bounding box includes every mark |
| DelaunayMaps.DelaunayMap.Create | IsolineMap/DelaunayMap.cs:34-102 | with no mark, fails with InvalidOperationException and changes nothing; otherwise builds the huge triangle over the bounding box, and only marks and its corners become corners; on success no triangle shares a corner with the huge triangle, and every new corner is a mark |
| DelaunayMaps.DelaunayMap.InsertAll | IsolineMap/DelaunayMap.cs:41-95 | inserting the marks in turn keeps every triangle well-formed and adds no corner other than a mark |
| DelaunayMaps.DelaunayMap.Insert | IsolineMap/DelaunayMap.cs:43-94 | fails with InvalidOperationException, changing nothing, exactly when no triangle includes the point; otherwise the corners grow by at most the point, and by exactly the point when the including triangle has area and the point is not one of its corners |
| DelaunayMaps.DelaunayMap.SplitAt | IsolineMap/DelaunayMap.cs:47-53 | the containing triangle is replaced by the triangles on its edges and the point; its three edges are pushed in order |
| DelaunayMaps.DelaunayMap.PushSplits | IsolineMap/DelaunayMap.cs:48-52 | each edge is pushed and its split triangle is added, in turn |
| DelaunayMaps.SplitsSnoc | IsolineMap/DelaunayMap.cs:48-52 | one more edge adds its split triangle, or nothing when the point is on the edge's line |
| DelaunayMaps.SplitCornersWithin | IsolineMap/DelaunayMap.cs:47-53 | splitting a triangle adds no corner other than the point |
| DelaunayMaps.SplitCornersExact | IsolineMap/DelaunayMap.cs:47-53 | splitting a triangle with area at a point that is not one of its corners keeps every corner and adds the point |
| DelaunayMaps.SplitTriangle | IsolineMap/DelaunayMap.cs:114-117 | the triangle built from an edge and a point has no corner other than the edge's ends and the point; when the constructor rejects them it is with ArgumentException |
| DelaunayMaps.DelaunayMap.AddNewTriangle | IsolineMap/DelaunayMap.cs:109-118 | adds the split triangle of the edge, or nothing when the point is on the edge's line, and keeps every triangle well-formed |
| DelaunayMaps.SplitOfCases | IsolineMap/DelaunayMap.cs:109-118 | off the line the constructor succeeds and its triangle is the one added; on the line nothing is added |
| DelaunayMaps.SplitTriangleProper | IsolineMap/DelaunayMap.cs:112-117 | a point off the edge's line gives a well-formed triangle on the edge's ends and the point, which has the edge as a side |
| DelaunayMaps.OnLineOfCorners | IsolineMap/DelaunayMap.cs:112 | the on-the-line test does not depend on the order of the endpoints |
| DelaunayMaps.AtMostOneSideLine | IsolineMap/DelaunayMap.cs:112 | a point that is not a corner of a triangle with area lies on the line of at most one of its sides |
| DelaunayMaps.DelaunayMap.Legalize | IsolineMap/DelaunayMap.cs:55-94 | popping and legalising edges until the stack is empty keeps every triangle well-formed and keeps the same corners; an empty stack changes nothing |
| DelaunayMaps.DelaunayMap.LegalizeEdge | IsolineMap/DelaunayMap.cs:57-92 | unless exactly two triangles share the edge, nothing changes; when they do and D is inside the circle through ABC, they are flipped and their four other edges are pushed; otherwise nothing changes |
| DelaunayMaps.Sharing | IsolineMap/DelaunayMap.cs:59 | the triangles found for an edge are among the map's triangles; each of them has a vertex opposite the edge, and every triangle left out has none |
| DelaunayMaps.Illegal | IsolineMap/DelaunayMap.cs:75-79 | an edge is found illegal only when ABC has a circumcircle (its corners are not collinear) and the edge belongs to ABD |
| DelaunayMaps.OtherEdges | IsolineMap/DelaunayMap.cs:90-91 | the edges of a triangle other than the given one, two of them for one of its own edges |
| DelaunayMaps.DelaunayMap.Flip | IsolineMap/DelaunayMap.cs:81-87 | ABC and ABD are replaced by the triangles on ACD and BCD, both constructed without an exception, and the corners stay the same |
| DelaunayMaps.FlipTriangles | IsolineMap/DelaunayMap.cs:73-87 | the flipped triangles are well-formed, lie on {A, C, D} and {B, C, D}, share the new diagonal CD and no longer hold AB |
| DelaunayMaps.FlipTriangle | IsolineMap/DelaunayMap.cs:84-87 | building a flipped triangle fails only with ArgumentException, and succeeds only when the edge is shared by both triangles and the dropped end is a corner of both |
| DelaunayMaps.FlipProper | IsolineMap/DelaunayMap.cs:84-87 | each flipped triangle, built from CD and the edges opposite the dropped end, is proper |
| DelaunayMaps.OppositeVerticesDiffer | IsolineMap/DelaunayMap.cs:75-76 | two distinct triangles on the same edge have different opposite vertices C and D |
| DelaunayMaps.FlipKeeps | IsolineMap/DelaunayMap.cs:81-87 | the flip keeps every triangle well-formed and keeps the same corners |
| DelaunayMaps.FlipCorners | IsolineMap/DelaunayMap.cs:81-87 | replacing ABC and ABD by ACD and BCD keeps the same corners |
| DelaunayMaps.DelaunayMap.RemoveTouching | IsolineMap/DelaunayMap.cs:98-101 | exactly the triangles that share a corner with the huge triangle are removed |
| DelaunayMaps.CornersAvoiding | IsolineMap/DelaunayMap.cs:98-101 | after the clean-up, no corner of the huge triangle is a corner |
| ContourMaps.ContourMap.constructor | IsolineMap/ContourMap.cs:29-33 | the contour map starts with no data point and keeps its Delaunay map |
| ContourMaps.Wrap32 | IsolineMap/ContourMap.cs:41 | unchecked int arithmetic: the result is an int congruent to the exact value modulo 2^32, and an int is left unchanged |
| ContourMaps.LevelCountCases | IsolineMap/ContourMap.cs:41 | the count partitionCount - 1 is exact for partitionCount >= 1, wraps around to int.MaxValue for int.MinValue, and is negative exactly for the other values below 1 |
| ContourMaps.Levels | IsolineMap/ContourMap.cs:41 | there are as many levels as the wrapped count, that is partitionCount - 1 for every partitionCount >= 1 |
| ContourMaps.LevelsIncreasing | IsolineMap/ContourMap.cs:41 | with a proper range the levels rise strictly and lie strictly between the lowest and the highest elevation |
| ContourMaps.WrappedLevelsBelow | IsolineMap/ContourMap.cs:41 | with partitionCount == int.MinValue there are int.MaxValue levels, all below the lowest elevation |
| ContourMaps.LevelsFlat | IsolineMap/ContourMap.cs:41 | when all elevations are equal, every level is that elevation |
| ContourMaps.HeightRange | IsolineMap/HeightMap.cs:30-35 | finds the lowest and the highest elevation; there are none exactly when there is no mark |
| ContourMaps.RangeUnique | IsolineMap/HeightMap.cs:30-35 | the lowest and the highest elevation are unique, and the lowest is at most the highest |
| ContourMaps.ChangeValue | IsolineMap/ContourMap.cs:70-75 | the two values trade places |
| ContourMaps.MeshEdges | IsolineMap/ContourMap.cs:43 | the distinct edges are exactly the edges of the triangles |
| ContourMaps.FillEdge | IsolineMap/ContourMap.cs:58-64 | the per-edge dictionary holds exactly the levels between the two end elevations of a non-flat edge, each mapped to its crossing point; a flat edge records nothing |
| ContourMaps.EntryContents | IsolineMap/ContourMap.cs:52-63 | an edge's entry has a key for a level exactly when the level lies between the two end elevations and the edge is not flat, and its point lies on the edge at that level's share of the way |
| ContourMaps.FlatFieldNoCrossings | IsolineMap/ContourMap.cs:43-66 | when every mark has the same elevation, every edge's stored entry is empty |
| ContourMaps.WrappedEntriesEmpty | IsolineMap/ContourMap.cs:41-66 | with partitionCount == int.MinValue and marks at different elevations, every edge's stored entry is empty |
| ContourMaps.OrientationFree | IsolineMap/ContourMap.cs:52-56 | thanks to the swap, an edge's entry does not depend on which end comes first |
| ContourMaps.RatiosSum | IsolineMap/ContourMap.cs:60-61 | on a non-flat edge the two ratios add up to 1 |
| ContourMaps.RatiosPartition | IsolineMap/ContourMap.cs:60-61 | for a level between the end elevations, both ratios lie in [0, 1] and add up to 1 |
| ContourMaps.Crossing | IsolineMap/ContourMap.cs:60-63 | on a non-flat edge the guarded crossing point is exactly the point ratio_end * str + ratio_str * end the loop body computes |
| ContourMaps.CrossingOnSegment | IsolineMap/ContourMap.cs:60-63 | on a rising edge, the crossing point lies on the segment between the two ends, at the share of the way at which the interpolated elevation equals the level |
| ContourMaps.CrossingAtEnds | IsolineMap/ContourMap.cs:60-63 | on a rising edge, the lower end's elevation is met at the lower end and the higher end's at the higher end |
| ContourMaps.CrossingAsWritten | IsolineMap/ContourMap.cs:60-63 | the interpolation as written has no point exactly when the two ends have equal elevations |
| ContourMaps.AsWrittenAgrees | IsolineMap/ContourMap.cs:58-63 | on a non-flat edge the guarded entry has the same levels as the loop as written, each with the same point |
| ContourMaps.FlatEdgeRecordsNaN | IsolineMap/ContourMap.cs:58-63 | with all marks at 5.0 and two partitions the single level is 5.0; the loop as written records key 5.0 on a flat edge with no point (NaN), while the guarded entry is empty |
| ContourMaps.ContourMap.Create | IsolineMap/ContourMap.cs:39-68 | fails with ArgumentOutOfRangeException before storing anything exactly when the wrapped count partitionCount - 1 is negative (every partitionCount below 1 except int.MinValue); otherwise succeeds exactly when every edge end has an elevation; then every edge's entry is the interpolated dictionary, and entries for other edges stay |

## Left out

- Floating point: single-precision rounding, overflow and NaN are not modelled. Numbers are exact reals. The only NaN kept is the flat-edge one (see Findings).
- Vector.Length, Normalize and the Circle radius: these need a square root. Lengths are compared as squares, and `Math.Sqrt` is a parameter that is assumed to return the square root.
- GetHashCode of Vector, Edge and Triangle: the endpoint order of an Edge and Edge.CompareTo use the 32-bit hash, which wraps around. The model replaces the hash with a lexicographic order, so hash collisions and the overflowing subtraction in CompareTo are not modelled.
- ToString, Dispose and the finaliser of Triangle: these have no effect on the algorithm.
- Reading the marks from a file: HeightMap's loading is input/output. HeightMap.Heights is a map given to the DelaunayMap constructor.
- Enumeration order of HashSet and Dictionary: it is not modelled. Each loop takes the elements in a nondeterministic order.
- DelaunayMaps.DelaunayMap.Legalize: termination of the legalisation loop is not proved. A `fuel` count bounds the number of pops, and running out gives Fail(FuelExhausted), an outcome the C# code does not have.
- DelaunayMaps.DelaunayMap.Create: the contract does not state that every mark finds an including triangle (so that First never throws), nor that the final triangulation has the empty-circumcircle property. It states what the corners of the triangles become, not the coverage of the plane.
- DelaunayMaps.DelaunayMap.LegalizeEdge: the branch that removes both triangles when they are Equals (DelaunayMap.cs:66-71) is kept as a branch, and the proof shows it is unreachable for two distinct members of a set (`assert false` there).
- ContourMaps.ContourMap.Create: the C# levels are evaluated lazily, so MinHeight and MaxHeight are computed only when an edge is reached. The model computes them once, which gives the same results: with no mark, the first edge already fails its elevation lookup.
- ContourMaps.Crossing: the C# code computes NaN for a flat edge at a level. The model's entry records nothing for a flat edge (see Findings); `CrossingAsWritten` and `EdgeEntryAsWritten` keep the unguarded computation.

## Findings

| source | as written | input that shows it | evidently intended | confidence | as-written member | corrected member |
|---|---|---|---|---|---|---|
| IsolineMap/ContourMap.cs:60-61 | both ratios divide by endHeight - strHeight with no guard, and the filter at line 58 lets a level equal to a flat edge's elevation through | every mark at elevation 5.0 and partitionCount 2: the single level is 5.0, every edge is flat at 5.0, and both ratios are 0/0, so the stored point is NaN | no crossing point on a flat edge: when all elevations are equal, there are no crossing points at all | not executed | ContourMaps.FlatEdgeRecordsNaN | ContourMaps.FlatFieldNoCrossings |
