# cutlines in Dafny

A model of the cutlines library, which clips polylines against an
axis-aligned rectangle with the Cohen–Sutherland algorithm. The model covers:

- the data model of `include/cutlines/cutlines.h`: `Point`, `Line`, `Rect`,
  `Edge` and `ClipResult` (module `Cutlines`, file `cutlines.dfy`);
- outcodes and `toEdge` (module `OutCodes`, file `outcode.dfy`);
- the segment clipper `CohenSutherlandLineClip` (module `SegmentClipper`,
  file `segment_clip.dfy`);
- the polyline assembler `clip` (module `PolylineClipper`, file
  `polyline_clip.dfy`);
- a corrected assembler for the finding below (module
  `JoinedPolylineClipper`, file `polyline_joined.dfy`).

How the model is built:

- Both loops of the library are Dafny methods over the library's own local
  variables.
  - `SegmentClipper.CohenSutherlandLineClip` keeps `x0, y0, x1, y1`,
    `outcode0/1` and `lastEdge0/1` and runs the same `while (true)` loop.
    It is proved equal to the recursive function `SegmentClip`.
  - `PolylineClipper.Clip` keeps `clippedLines` and `subLine` and runs the
    same `for` loop. It is proved equal to the recursive function
    `ClipLines`.
  - The lemmas state what those two functions compute.
- The `while (true)` loop ends because each pass strictly lowers
  `Weight(outcode0) + Weight(outcode1)`. `Weight` is 2 for a code with a
  BOTTOM or TOP bit, 1 for a code with only a LEFT or RIGHT bit, and 0
  inside.
  - A vertical cut lands on `y == yMin` or `y == yMax`, so the vertical bit
    is gone.
  - A horizontal cut happens only when neither end has a vertical bit, and
    then the moved end lands inside.
- The segment clipper keeps all of the visible part (`VisiblePointKept`).
  The proof follows points of the input segment by their parameter:
  `Along(a, b, t)` is `a + t * (b - a)`.
  - Both ends of every state are points of the input segment, with
    parameters `t0` and `t1`.
  - A pass replaces one end by the crossing with the resolved boundary line.
    A visible point's parameter stays between the two (`PassKeepsVisible`).
  - The reject test fires only when both ends are beyond one boundary line.
    Then no point between them is visible (`SharedBitOutside`).
- The library keeps an outcode in an `int`. The model keeps its four bits as
  the record `Bits(left, right, bottom, top)`.
  - `Value` gives the `int`, and `ValueRoundTrip` proves the two forms are
    in one-to-one correspondence.
  - `BitOr` and `BitAnd` are the library's `|` and `&`.
  - The tie-break `outcode1 > outcode0` compares the `Value`s, as the
    library compares the ints.
- The library's if-chain over `outcodeOut & TOP`, `& BOTTOM`, `& RIGHT`,
  `& LEFT` is `ResolvedBit`, whose last branch is LEFT. Its contract proves
  that the chosen bit is set, so the library's `x, y` are always assigned.
- An end whose initial outcode is a corner code (two bits) and that a single
  pass brings inside keeps that two-bit code as its remembered edge. Such an
  end is reported with `NoEdge` although it was cut, as `CornerExitExample`
  shows. The model keeps this behaviour.
- The assembler, as written, gives ONE polyline for the worked example: the
  input `[(-1,5), (5,5), (5,-1), (11,5)]` against `[0,10] x [0,10]` comes
  back as `[(0,5), (5,5), (5,0), (10,4)]`.
  - The library's code says nothing about the intended output of `clip`:
    `src/cutlines.cpp:148-185` has no comment, and the header gives only
    the signature.
  - A clipped drawing should contain only pieces of the input polyline. A
    path that leaves the window and comes back should therefore start a new
    polyline, which for the example gives two: one up to the exit through
    the bottom, `[(0,5), (5,5), (5,0)]`, and one for the re-entry,
    `[(6,0), (10,4)]`.
  - The model follows the code (`WorkedExample`). The Findings section
    records the discrepancy, and `ClipLinesJoined` gives the two-polyline
    behaviour.
- The edge tags follow one rule (`StartTagRule`, `EndTagRule`). An end
  inside the window is tagged `NoEdge`. An end outside is cut at least once.
  It is tagged with a side unless it starts in a corner region and its only
  cut brings it inside. So an end beyond exactly one side is always tagged
  with a side (`StartBeyondOneSideTagged`, `EndBeyondOneSideTagged`).

## Model

| member | source | states |
|---|---|---|
| OutCodes.ComputeOutCode | src/cutlines.cpp:23-42 | the code is 0 exactly when the point is in the closed window; LEFT is set exactly when x < xMin, RIGHT exactly when not left and x > xMax, BOTTOM and TOP likewise for y; LEFT never comes with RIGHT, nor BOTTOM with TOP |
| OutCodes.Value | src/cutlines.cpp:10-18 | an outcode is an int in [0, 16), and it is 0 exactly for INSIDE |
| OutCodes.ValueRoundTrip | src/cutlines.cpp:10-18 | the four flag bits and the ints 0 to 15 are in one-to-one correspondence |
| OutCodes.ConstantValues | src/cutlines.cpp:14-18 | INSIDE, LEFT, RIGHT, BOTTOM and TOP hold 0, 1, 2, 4 and 8 |
| OutCodes.BitOr | src/cutlines.cpp:83 | the or of two codes is 0 exactly when both are 0 |
| OutCodes.BitAndLargest | src/cutlines.cpp:92 | the and of two codes has its bits set in both, and holds every code whose bits are set in both |
| OutCodes.SharedBitSameSide | src/cutlines.cpp:92-95 | the reject test fires exactly when both points are beyond the same side of the window |
| OutCodes.ToEdge | src/cutlines.cpp:44-58 | a side exactly for the four one-bit codes, and then the side whose code it is; 0 and the corner codes give NoEdge |
| OutCodes.EdgeCodeRoundTrip | src/cutlines.cpp:44-58 | ToEdge and EdgeCode are inverse between the four sides and the four one-bit codes |
| OutCodes.EdgeOfPoint | src/cutlines.cpp:23-58 | the edge of a point's own outcode is a side exactly when the point is beyond that side and within the other axis' band |
| OutCodes.EdgeValues | include/cutlines/cutlines.h:27-33 | Edge has exactly five pairwise distinct values |
| SegmentClipper.OutsideCode | src/cutlines.cpp:102 | the pass works on the code of one of the two ends |
| SegmentClipper.OutsideCodeIsLarger | src/cutlines.cpp:102 | the chosen code is the larger of the two ints, so an outside end is chosen whenever there is one |
| SegmentClipper.InitialState | src/cutlines.cpp:65-80 | the loop starts from the two input points, with their own outcodes as the current and the remembered codes |
| SegmentClipper.ResolvedBit | src/cutlines.cpp:111-123 | the bit a pass resolves is set in the moved end's code, and no higher bit is set: TOP before BOTTOM before RIGHT before LEFT |
| SegmentClipper.Lerp | src/cutlines.cpp:112-121 | the library's interpolation formula gives a coordinate between those of the two ends |
| SegmentClipper.Intersection | src/cutlines.cpp:111-123 | the new point lies exactly on the boundary line of the resolved bit and within the box of the two ends |
| SegmentClipper.PassCrosses | src/cutlines.cpp:92-110 | when neither trivial test applies, the two ends lie on different sides of the resolved boundary line, so the divisor is not zero |
| SegmentClipper.Pass | src/cutlines.cpp:96-141 | after a pass the stored outcodes are again those of the two ends |
| SegmentClipper.PassMovesOneEnd | src/cutlines.cpp:102-141 | a pass moves the end with the larger code (the start when not larger) onto the resolved boundary, clears that bit, records the new code only when non-zero, and leaves the other end and its codes alone |
| SegmentClipper.PassDecreases | src/cutlines.cpp:82-143 | every pass lowers the total weight of the two codes, so the loop ends |
| SegmentClipper.ClipFrom | src/cutlines.cpp:82-145 | any accepted part has both ends inside the closed window |
| SegmentClipper.SegmentClip | src/cutlines.cpp:63-146 | any accepted part has both ends inside the closed window |
| SegmentClipper.CohenSutherlandLineClip | src/cutlines.cpp:63-146 | the loop returns SegmentClip(a, b, rect) |
| SegmentClipper.BothInsideUnchanged | src/cutlines.cpp:83-91 | both ends inside if and only if the result is the input segment with two NoEdge tags |
| SegmentClipper.SharedSideRejects | src/cutlines.cpp:92-95 | two ends beyond the same side give no result |
| SegmentClipper.InsideStartKept | src/cutlines.cpp:102-141 | a segment starting inside is never rejected, and its start is returned untouched with NoEdge |
| SegmentClipper.InsideEndKept | src/cutlines.cpp:102-141 | a segment ending inside is never rejected, and its end is returned untouched with NoEdge |
| SegmentClipper.ReportedEdgeIsExact | src/cutlines.cpp:79-80 | an end reported as cut by a side lies on that side's boundary line |
| SegmentClipper.PassLandsOnOneSide | src/cutlines.cpp:111-141 | the moved end lands with at most one outcode bit: inside after a left or right cut, at most left or right after a bottom or top cut |
| SegmentClipper.ClipFromStartTag | src/cutlines.cpp:82-143 | from any state whose start is unmoved, remembers one side or is inside, the start is tagged NoEdge exactly when its remembered code names no side and it is inside or is cut exactly once more |
| SegmentClipper.ClipFromEndTag | src/cutlines.cpp:82-143 | the same for the end |
| SegmentClipper.StartTagRule | src/cutlines.cpp:63-146 | an accepted segment's start is tagged NoEdge exactly when it is inside, or it is in a corner region and its one cut brings it inside; an outside start is cut at least once |
| SegmentClipper.EndTagRule | src/cutlines.cpp:63-146 | the same for the end |
| SegmentClipper.StartBeyondOneSideTagged | src/cutlines.cpp:63-146 | a start beyond exactly one side is always tagged with a side when the segment is accepted |
| SegmentClipper.EndBeyondOneSideTagged | src/cutlines.cpp:63-146 | an end beyond exactly one side is always tagged with a side when the segment is accepted |
| SegmentClipper.AcceptedWithinSegmentBox | src/cutlines.cpp:82-145 | the accepted ends are inside the window and within the input segment's bounding box |
| SegmentClipper.AcceptedOnSegment | src/cutlines.cpp:111-141 | the accepted ends lie on the input segment |
| SegmentClipper.SharedBitOutside | src/cutlines.cpp:92-95 | when the two ends share an outcode bit, no point between them is inside the window |
| SegmentClipper.PassKeepsVisible | src/cutlines.cpp:102-141 | a pass cuts off only a part beyond the resolved boundary line: a visible point between the ends before the pass is still between them after it |
| SegmentClipper.ClipFromKeepsVisible | src/cutlines.cpp:82-145 | from any state whose ends lie on the input segment, a visible point between them leads to acceptance and lies on the accepted piece |
| SegmentClipper.VisiblePointKept | src/cutlines.cpp:63-146 | a segment with a point inside the window is never rejected, and that point lies on the returned piece |
| SegmentClipper.RejectedMeansOutside | src/cutlines.cpp:92-95 | a rejected segment has no point inside the window |
| SegmentClipper.CrossingSegmentExample | src/cutlines.cpp:63-146 | (-5,5)-(15,5) against [0,10]^2 gives (0,5) cut by Left and (10,5) cut by Right |
| SegmentClipper.CornerExitExample | src/cutlines.cpp:131-140 | (5,5)-(12,20) against [0,10]^2 gives (5,5) and (22/3,10), both tagged NoEdge |
| PolylineClipper.Stitch | src/cutlines.cpp:159-177 | a step keeps the finished sub-lines as a prefix and adds at most one; a rejection closes the open sub-line; an accepted part's end becomes the last point of the open sub-line or, with its start, the last finished sub-line |
| PolylineClipper.Finish | src/cutlines.cpp:180-182 | the finished sub-lines followed by the open one exactly when it is not empty |
| PolylineClipper.ClipLines | src/cutlines.cpp:148-185 | every output polyline has at least two points, all inside the window |
| PolylineClipper.StitchFlushesOnlyWhen | src/cutlines.cpp:159-177 | finished sub-lines are never changed and at most one is added, exactly on a rejection with an open sub-line or on a first part whose end was cut; a later part adds only its end |
| PolylineClipper.Clip | src/cutlines.cpp:148-185 | the loop returns ClipLines(line, rect), and nothing for fewer than two points |
| PolylineClipper.StitchKeepsInvariant | src/cutlines.cpp:159-177 | each step keeps the sub-lines well shaped and the point count balanced |
| PolylineClipper.ClipLinesShape | src/cutlines.cpp:148-185 | every output polyline has at least two points, all inside the window; the output holds one point per accepted segment plus one per polyline; there are at most as many polylines as accepted segments, and at most line.size() - 1 |
| PolylineClipper.AllInsideSingle | src/cutlines.cpp:148-185 | a polyline of two or more points comes back as itself alone exactly when all its points are inside |
| PolylineClipper.ClipIdempotent | src/cutlines.cpp:148-185 | each output polyline clips to itself alone |
| PolylineClipper.EmptyIffAllRejected | src/cutlines.cpp:148-185 | the output is empty exactly when every segment is rejected |
| PolylineClipper.EntirelyOutsideEmpty | src/cutlines.cpp:148-185 | a polyline none of whose points is inside the window clips to nothing |
| PolylineClipper.BeyondOneSideEmpty | src/cutlines.cpp:148-185 | a polyline entirely beyond one side clips to nothing |
| PolylineClipper.ClipLinesOnPolyline | src/cutlines.cpp:148-185 | every output point lies on the input polyline |
| PolylineClipper.ExampleSegments | src/cutlines.cpp:63-146 | the three segments of the worked example clip to (0,5)-(5,5), (5,5)-(5,0) and (6,0)-(10,4) with their edges |
| PolylineClipper.WorkedExample | src/cutlines.cpp:169-171 | the worked example gives the single polyline [(0,5), (5,5), (5,0), (10,4)] |
| JoinedPolylineClipper.WorkedExampleNotJoined | src/cutlines.cpp:169-171 | the library's output for the worked example draws a piece that lies on no input segment |
| JoinedPolylineClipper.ClipLinesJoinedAreJoined | src/cutlines.cpp:148-185 | every piece drawn by the corrected assembler lies on one input segment |
| JoinedPolylineClipper.ClipLinesJoinedKeepsParts | src/cutlines.cpp:159-177 | the corrected assembler's polylines have at least two points, all inside the window, and the two ends of every visible part are consecutive points of one of them |
| JoinedPolylineClipper.WorkedExampleJoined | src/cutlines.cpp:148-185 | the corrected assembler gives [(0,5), (5,5), (5,0)] and [(6,0), (10,4)] for the worked example |

## Left out

- Floating point: coordinates are exact reals. Rounding in the intersection formulas, NaN (every comparison is false, so the outcode is 0) and infinities are not modelled.
- Rectangles with `xMin > xMax` or `yMin > yMax`: the library does not check for them, and the model requires a well-formed rectangle.
- The default member initialisers of `ClipResult` (both edges `NoEdge`): the library sets all four fields before returning, so a `ClipResult` value is always built whole.
- The `operator<<` stream printers and the export macro header: debugging output and build plumbing.
- The `int` loop counter of `clip` compared with `line.size()`: polylines of more than 2^31 points are not modelled.

## Findings

| source | as written | input that shows it | evidently intended | confidence | as-written member | corrected member |
|---|---|---|---|---|---|---|
| src/cutlines.cpp:169-171 | when a sub-line is open, an accepted segment only appends its end. Its start and its end edge are not looked at, so a polyline that leaves the window and comes back in is joined across the gap | `[(-1,5), (5,5), (5,-1), (11,5)]` against `[0,10] x [0,10]` gives `[(0,5), (5,5), (5,0), (10,4)]`. The piece from (5,0) to (10,4) lies on no input segment | one polyline per connected visible run: `[(0,5), (5,5), (5,0)]` and `[(6,0), (10,4)]` | high; not executed | JoinedPolylineClipper.WorkedExampleNotJoined | JoinedPolylineClipper.ClipLinesJoinedAreJoined |

`PolylineClipper.Clip` keeps the library's behaviour, since it models the
library. `JoinedPolylineClipper.ClipLinesJoined` extends the open sub-line
only with a part that starts at its last point, and otherwise opens a new
sub-line. It closes a sub-line whenever a part's end was cut by a side.
`ClipLinesJoinedKeepsParts` proves that it still keeps every visible part.
Keying the join on the start point, not on the edge tags, also avoids the
`NoEdge` tag of ends cut through a corner region.
