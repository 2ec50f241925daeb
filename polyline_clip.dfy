/**
 The polyline clipper: every segment of the input polyline is clipped in
 turn, and the visible parts are stitched into sub-lines.

 Clip is the library's loop over the same local variables; Walk is the same
 loop as a recursive function, one Stitch per segment, and ClipLines is what
 Clip returns.
 */
module PolylineClipper {
  import opened Cutlines
  import opened OutCodes
  import opened SegmentClipper

  /** The assembler's locals: the finished sub-lines and the one being built. */
  datatype Assembly = Assembly(clippedLines: seq<Line>, subLine: Line)

  /**
   The effect of one segment's clip result. A visible part starts a new
   sub-line from both its ends when none is open, and closes it at once when
   its end was cut by a side; an open sub-line only gets the end appended. A
   rejected segment closes the open sub-line.
   */
  function Stitch(acc: Assembly, clipped: Option<ClipResult>): (next: Assembly)
    ensures acc.clippedLines <= next.clippedLines && |next.clippedLines| <= |acc.clippedLines| + 1
    ensures clipped.None? ==> next.subLine == [] && next.clippedLines == acc.clippedLines + (if acc.subLine == [] then [] else [acc.subLine])
    ensures clipped.Some? ==>
              (next.subLine != [] && next.subLine[|next.subLine| - 1] == clipped.value.end) ||
              (next.subLine == [] && |next.clippedLines| > 0 &&
               next.clippedLines[|next.clippedLines| - 1] == [clipped.value.start, clipped.value.end])
  {
    match clipped
    case Some(r) =>
      if |acc.subLine| == 0 then
        if r.endClipEdge != NoEdge then Assembly(acc.clippedLines + [[r.start, r.end]], [])
        else Assembly(acc.clippedLines, [r.start, r.end])
      else
        Assembly(acc.clippedLines, acc.subLine + [r.end])
    case None =>
      if |acc.subLine| != 0 then Assembly(acc.clippedLines + [acc.subLine], []) else acc
  }

  /** The assembly once the segments ending at line[1], ..., line[n - 1] are stitched. */
  function Walk(line: Line, rect: Rect, n: nat): Assembly
    requires WellFormed(rect) && 1 <= n <= |line|
  {
    if n == 1 then Assembly([], [])
    else Stitch(Walk(line, rect, n - 1), SegmentClip(line[n - 2], line[n - 1], rect))
  }

  /** The finished sub-lines, with the open one appended when it is not empty. */
  function Finish(acc: Assembly): (lines: seq<Line>)
    ensures acc.clippedLines <= lines && |lines| <= |acc.clippedLines| + 1
    ensures |lines| == |acc.clippedLines| <==> acc.subLine == []
    ensures |lines| > |acc.clippedLines| ==> lines[|acc.clippedLines|] == acc.subLine
  {
    if |acc.subLine| != 0 then acc.clippedLines + [acc.subLine] else acc.clippedLines
  }

  /**
   A stitch never changes a finished sub-line and finishes at most one more:
   the open one on a rejection, or a new two-point one whose end was cut by a
   side. A visible part that meets an open sub-line adds only its end; its
   start and both edges are not looked at.
   */
  lemma StitchFlushesOnlyWhen(acc: Assembly, clipped: Option<ClipResult>)
    ensures var next := Stitch(acc, clipped);
            acc.clippedLines <= next.clippedLines && |next.clippedLines| <= |acc.clippedLines| + 1
    ensures var next := Stitch(acc, clipped);
            |next.clippedLines| == |acc.clippedLines| + 1 <==>
              (clipped.None? && |acc.subLine| != 0) ||
              (clipped.Some? && |acc.subLine| == 0 && clipped.value.endClipEdge != NoEdge)
    ensures var next := Stitch(acc, clipped);
            |next.clippedLines| == |acc.clippedLines| + 1 ==>
              next.subLine == [] &&
              next.clippedLines[|acc.clippedLines|] ==
                (if clipped.None? then acc.subLine else [clipped.value.start, clipped.value.end])
    ensures clipped.Some? && |acc.subLine| != 0 ==>
              Stitch(acc, clipped) == Assembly(acc.clippedLines, acc.subLine + [clipped.value.end])
  {
  }

  /** What Clip returns: nothing for fewer than two points. */
  function ClipLines(line: Line, rect: Rect): (lines: seq<Line>)
    requires WellFormed(rect)
    ensures WellShaped(lines, rect)
  {
    if |line| < 2 then []
    else
      WalkInvariant(line, rect, |line|);
      Finish(Walk(line, rect, |line|))
  }

  /** The polyline clipper, over the library's own locals. */
  method Clip(line: Line, rect: Rect) returns (clippedLines: seq<Line>)
    requires WellFormed(rect)
    ensures clippedLines == ClipLines(line, rect)
    ensures |line| < 2 ==> clippedLines == []
  {
    if |line| < 2 {
      return [];
    }
    clippedLines := [];
    var subLine: Line := [];
    for i := 1 to |line|
      invariant Assembly(clippedLines, subLine) == Walk(line, rect, i)
    {
      var clipped := CohenSutherlandLineClip(line[i - 1], line[i], rect);
      ghost var next := Stitch(Assembly(clippedLines, subLine), clipped);
      assert next == Walk(line, rect, i + 1);
      if clipped.Some? {
        var clipResult := clipped.value;
        if |subLine| == 0 {
          subLine := subLine + [clipResult.start];
          subLine := subLine + [clipResult.end];
          assert subLine == [clipResult.start, clipResult.end];
          if clipResult.endClipEdge != NoEdge {
            clippedLines := clippedLines + [subLine];
            subLine := [];
          }
        } else {
          subLine := subLine + [clipResult.end];
        }
        assert Assembly(clippedLines, subLine) == next;
      } else {
        if |subLine| != 0 {
          clippedLines := clippedLines + [subLine];
          subLine := [];
        }
      }
    }
    if |subLine| != 0 {
      clippedLines := clippedLines + [subLine];
    }
  }

  /** The number of points over all the given lines. */
  function TotalPoints(lines: seq<Line>): nat
  {
    if |lines| == 0 then 0 else TotalPoints(lines[..|lines| - 1]) + |lines[|lines| - 1]|
  }

  lemma TotalPointsAppend(lines: seq<Line>, l: Line)
    ensures TotalPoints(lines + [l]) == TotalPoints(lines) + |l|
  {
    assert (lines + [l])[..|lines|] == lines;
  }

  /** The number of the segments ending at line[1], ..., line[n - 1] that are not rejected. */
  function Accepted(line: Line, rect: Rect, n: nat): (count: nat)
    requires WellFormed(rect) && 1 <= n <= |line|
    ensures count <= n - 1
  {
    if n == 1 then 0
    else Accepted(line, rect, n - 1) + (if SegmentClip(line[n - 2], line[n - 1], rect).Some? then 1 else 0)
  }

  /** Every line has at least two points, all of them inside the window. */
  predicate WellShaped(lines: seq<Line>, rect: Rect)
  {
    forall k | 0 <= k < |lines| ::
      |lines[k]| >= 2 && forall j | 0 <= j < |lines[k]| :: Inside(lines[k][j], rect)
  }

  /** What every stitch keeps: finished sub-lines are well shaped, the open one
      is empty or has at least two points inside the window, and each accepted
      segment has contributed one point besides the first point of its sub-line. */
  predicate AssemblyInvariant(acc: Assembly, accepted: nat, rect: Rect)
  {
    WellShaped(acc.clippedLines, rect) &&
    (|acc.subLine| == 0 || WellShaped([acc.subLine], rect)) &&
    TotalPoints(acc.clippedLines) + |acc.subLine|
      == accepted + |acc.clippedLines| + (if |acc.subLine| == 0 then 0 else 1)
  }

  lemma StitchKeepsInvariant(acc: Assembly, accepted: nat, clipped: Option<ClipResult>, rect: Rect)
    requires AssemblyInvariant(acc, accepted, rect)
    requires clipped.Some? ==> Inside(clipped.value.start, rect) && Inside(clipped.value.end, rect)
    ensures AssemblyInvariant(Stitch(acc, clipped), accepted + (if clipped.Some? then 1 else 0), rect)
    ensures acc.clippedLines <= Stitch(acc, clipped).clippedLines
  {
    var next := Stitch(acc, clipped);
    if clipped.Some? {
      var r := clipped.value;
      if |acc.subLine| == 0 {
        if r.endClipEdge != NoEdge {
          TotalPointsAppend(acc.clippedLines, [r.start, r.end]);
        }
      } else {
        assert WellShaped([next.subLine], rect) by {
          assert next.subLine == acc.subLine + [r.end];
          assert [acc.subLine][0] == acc.subLine;
        }
      }
    } else if |acc.subLine| != 0 {
      TotalPointsAppend(acc.clippedLines, acc.subLine);
      assert [acc.subLine][0] == acc.subLine;
    }
  }

  lemma {:induction false} WalkInvariant(line: Line, rect: Rect, n: nat)
    requires WellFormed(rect) && 1 <= n <= |line|
    ensures AssemblyInvariant(Walk(line, rect, n), Accepted(line, rect, n), rect)
  {
    if n > 1 {
      WalkInvariant(line, rect, n - 1);
      StitchKeepsInvariant(Walk(line, rect, n - 1), Accepted(line, rect, n - 1),
                           SegmentClip(line[n - 2], line[n - 1], rect), rect);
    }
  }

  lemma {:induction false} TotalPointsAtLeastTwice(lines: seq<Line>, rect: Rect)
    requires WellShaped(lines, rect)
    ensures TotalPoints(lines) >= 2 * |lines|
  {
    if |lines| > 0 {
      TotalPointsAtLeastTwice(lines[..|lines| - 1], rect);
    }
  }

  /**
   Every output polyline has at least two points, all inside the window; the
   outputs hold one point per accepted segment plus one per polyline, so there
   are at most as many polylines as accepted segments.
   */
  lemma ClipLinesShape(line: Line, rect: Rect)
    requires WellFormed(rect) && |line| >= 2
    ensures WellShaped(ClipLines(line, rect), rect)
    ensures TotalPoints(ClipLines(line, rect)) == Accepted(line, rect, |line|) + |ClipLines(line, rect)|
    ensures |ClipLines(line, rect)| <= Accepted(line, rect, |line|) <= |line| - 1
  {
    var acc := Walk(line, rect, |line|);
    WalkInvariant(line, rect, |line|);
    if |acc.subLine| != 0 {
      TotalPointsAppend(acc.clippedLines, acc.subLine);
      assert [acc.subLine][0] == acc.subLine;
    }
    TotalPointsAtLeastTwice(ClipLines(line, rect), rect);
  }

  lemma {:induction false} WalkAllInside(line: Line, rect: Rect, n: nat)
    requires WellFormed(rect) && 2 <= n <= |line|
    requires forall i | 0 <= i < |line| :: Inside(line[i], rect)
    ensures Walk(line, rect, n) == Assembly([], line[..n])
  {
    BothInsideUnchanged(line[n - 2], line[n - 1], rect);
    if n > 2 {
      WalkAllInside(line, rect, n - 1);
      assert line[..n - 1] + [line[n - 1]] == line[..n];
    } else {
      assert line[..2] == [line[0], line[1]];
    }
  }

  /**
   A polyline of two or more points comes back as the single polyline it is
   exactly when all its points are inside the window.
   */
  lemma AllInsideSingle(line: Line, rect: Rect)
    requires WellFormed(rect) && |line| >= 2
    ensures (forall i | 0 <= i < |line| :: Inside(line[i], rect)) <==> ClipLines(line, rect) == [line]
  {
    if forall i | 0 <= i < |line| :: Inside(line[i], rect) {
      WalkAllInside(line, rect, |line|);
      assert line[..|line|] == line;
    }
    ClipLinesShape(line, rect);
  }

  /** Clipping is idempotent: each output polyline clips to itself alone. */
  lemma ClipIdempotent(line: Line, rect: Rect)
    requires WellFormed(rect)
    ensures forall k | 0 <= k < |ClipLines(line, rect)| ::
              ClipLines(ClipLines(line, rect)[k], rect) == [ClipLines(line, rect)[k]]
  {
    if |line| >= 2 {
      ClipLinesShape(line, rect);
      forall k | 0 <= k < |ClipLines(line, rect)|
        ensures ClipLines(ClipLines(line, rect)[k], rect) == [ClipLines(line, rect)[k]]
      {
        AllInsideSingle(ClipLines(line, rect)[k], rect);
      }
    }
  }

  /** Every segment is rejected. */
  predicate AllRejected(line: Line, rect: Rect)
    requires WellFormed(rect)
  {
    forall i | 1 <= i < |line| :: SegmentClip(line[i - 1], line[i], rect) == None
  }

  lemma {:induction false} WalkAllRejected(line: Line, rect: Rect, n: nat)
    requires WellFormed(rect) && 1 <= n <= |line| && AllRejected(line, rect)
    ensures Walk(line, rect, n) == Assembly([], []) && Accepted(line, rect, n) == 0
  {
    if n > 1 {
      WalkAllRejected(line, rect, n - 1);
    }
  }

  lemma {:induction false} NoneAccepted(line: Line, rect: Rect, n: nat)
    requires WellFormed(rect) && 1 <= n <= |line|
    requires Accepted(line, rect, n) == 0
    ensures forall i | 1 <= i < n :: SegmentClip(line[i - 1], line[i], rect) == None
  {
    if n > 1 {
      NoneAccepted(line, rect, n - 1);
    }
  }

  /** The output is empty exactly when every segment is rejected. */
  lemma EmptyIffAllRejected(line: Line, rect: Rect)
    requires WellFormed(rect)
    ensures ClipLines(line, rect) == [] <==> AllRejected(line, rect)
  {
    if |line| >= 2 {
      if AllRejected(line, rect) {
        WalkAllRejected(line, rect, |line|);
      }
      if ClipLines(line, rect) == [] {
        ClipLinesShape(line, rect);
        NoneAccepted(line, rect, |line|);
      }
    }
  }

  /** p lies on one of the segments of the polyline. */
  predicate OnPolyline(p: Point, line: Line)
  {
    exists i | 1 <= i < |line| :: OnSegment(p, line[i - 1], line[i])
  }

  /**
   A polyline none of whose points is inside the window clips to nothing:
   every accepted part would start at a point of the polyline inside it.
   */
  lemma EntirelyOutsideEmpty(line: Line, rect: Rect)
    requires WellFormed(rect)
    requires forall p :: OnPolyline(p, line) ==> !Inside(p, rect)
    ensures ClipLines(line, rect) == []
  {
    forall i | 1 <= i < |line|
      ensures SegmentClip(line[i - 1], line[i], rect) == None
    {
      var r := SegmentClip(line[i - 1], line[i], rect);
      if r.Some? {
        AcceptedWithinSegmentBox(line[i - 1], line[i], rect);
        AcceptedOnSegment(line[i - 1], line[i], rect);
        assert OnPolyline(r.value.start, line);
        assert false;
      }
    }
    EmptyIffAllRejected(line, rect);
  }

  /** A polyline whose points all lie beyond one side of the window clips to nothing. */
  lemma BeyondOneSideEmpty(line: Line, rect: Rect)
    requires WellFormed(rect)
    requires (forall i | 0 <= i < |line| :: line[i].x < rect.xMin) ||
             (forall i | 0 <= i < |line| :: line[i].x > rect.xMax) ||
             (forall i | 0 <= i < |line| :: line[i].y < rect.yMin) ||
             (forall i | 0 <= i < |line| :: line[i].y > rect.yMax)
    ensures ClipLines(line, rect) == []
  {
    forall p | OnPolyline(p, line)
      ensures !Inside(p, rect)
    {
      var i :| 1 <= i < |line| && OnSegment(p, line[i - 1], line[i]);
      assert InBox(p, line[i - 1], line[i]);
    }
    EntirelyOutsideEmpty(line, rect);
  }

  /** Every point of the given lines lies on the polyline. */
  predicate PointsOn(lines: seq<Line>, line: Line)
  {
    forall k, j | 0 <= k < |lines| && 0 <= j < |lines[k]| :: OnPolyline(lines[k][j], line)
  }

  lemma StitchKeepsPointsOn(acc: Assembly, clipped: Option<ClipResult>, line: Line)
    requires PointsOn(acc.clippedLines, line) && PointsOn([acc.subLine], line)
    requires clipped.Some? ==> OnPolyline(clipped.value.start, line) && OnPolyline(clipped.value.end, line)
    ensures PointsOn(Stitch(acc, clipped).clippedLines, line) && PointsOn([Stitch(acc, clipped).subLine], line)
  {
    assert [acc.subLine][0] == acc.subLine;
  }

  lemma {:induction false} WalkPointsOn(line: Line, rect: Rect, n: nat)
    requires WellFormed(rect) && 1 <= n <= |line|
    ensures PointsOn(Walk(line, rect, n).clippedLines, line) && PointsOn([Walk(line, rect, n).subLine], line)
  {
    if n > 1 {
      WalkPointsOn(line, rect, n - 1);
      var clipped := SegmentClip(line[n - 2], line[n - 1], rect);
      if clipped.Some? {
        AcceptedOnSegment(line[n - 2], line[n - 1], rect);
        assert OnSegment(clipped.value.start, line[n - 1 - 1], line[n - 1]);
        assert OnSegment(clipped.value.end, line[n - 1 - 1], line[n - 1]);
      }
      StitchKeepsPointsOn(Walk(line, rect, n - 1), clipped, line);
    }
  }

  /** Every output point lies on the input polyline. */
  lemma ClipLinesOnPolyline(line: Line, rect: Rect)
    requires WellFormed(rect)
    ensures PointsOn(ClipLines(line, rect), line)
  {
    if |line| >= 2 {
      var acc := Walk(line, rect, |line|);
      WalkPointsOn(line, rect, |line|);
      assert [acc.subLine][0] == acc.subLine;
    }
  }

  /** The window [0, 10] x [0, 10] of the worked example. */
  const ExampleRect := Rect(0.0, 10.0, 0.0, 10.0)

  /** A polyline that enters through the left side, leaves through the bottom and comes back in. */
  const ExampleLine: Line := [Point(-1.0, 5.0), Point(5.0, 5.0), Point(5.0, -1.0), Point(11.0, 5.0)]

  /** The clip result of each segment of the example. */
  lemma ExampleSegments()
    ensures SegmentClip(ExampleLine[0], ExampleLine[1], ExampleRect)
            == Some(ClipResult(Left, NoEdge, Point(0.0, 5.0), Point(5.0, 5.0)))
    ensures SegmentClip(ExampleLine[1], ExampleLine[2], ExampleRect)
            == Some(ClipResult(NoEdge, Bottom, Point(5.0, 5.0), Point(5.0, 0.0)))
    ensures SegmentClip(ExampleLine[2], ExampleLine[3], ExampleRect)
            == Some(ClipResult(Bottom, Right, Point(6.0, 0.0), Point(10.0, 4.0)))
  {
    var rect := ExampleRect;
    var s := InitialState(ExampleLine[0], ExampleLine[1], rect);
    assert s == ClipState(Point(-1.0, 5.0), Point(5.0, 5.0), LEFT, INSIDE, LEFT, INSIDE);
    PassStep(s, rect);
    assert Pass(s, rect) == ClipState(Point(0.0, 5.0), Point(5.0, 5.0), INSIDE, INSIDE, LEFT, INSIDE);

    s := InitialState(ExampleLine[1], ExampleLine[2], rect);
    assert s == ClipState(Point(5.0, 5.0), Point(5.0, -1.0), INSIDE, BOTTOM, INSIDE, BOTTOM);
    PassStep(s, rect);
    assert Pass(s, rect) == ClipState(Point(5.0, 5.0), Point(5.0, 0.0), INSIDE, INSIDE, INSIDE, BOTTOM);

    s := InitialState(ExampleLine[2], ExampleLine[3], rect);
    assert s == ClipState(Point(5.0, -1.0), Point(11.0, 5.0), BOTTOM, RIGHT, BOTTOM, RIGHT);
    PassStep(s, rect);
    var s1 := Pass(s, rect);
    assert s1 == ClipState(Point(6.0, 0.0), Point(11.0, 5.0), INSIDE, RIGHT, BOTTOM, RIGHT);
    PassStep(s1, rect);
    assert Pass(s1, rect) == ClipState(Point(6.0, 0.0), Point(10.0, 4.0), INSIDE, INSIDE, BOTTOM, RIGHT);
  }

  /**
   The example comes back as ONE polyline: the bottom cut of the second
   segment does not close the open sub-line, and the third segment's end is
   appended to it.
   */
  lemma WorkedExample()
    ensures ClipLines(ExampleLine, ExampleRect)
            == [[Point(0.0, 5.0), Point(5.0, 5.0), Point(5.0, 0.0), Point(10.0, 4.0)]]
  {
    ExampleSegments();
    var w1 := Walk(ExampleLine, ExampleRect, 1);
    assert w1 == Assembly([], []);
    var w2 := Walk(ExampleLine, ExampleRect, 2);
    assert w2 == Stitch(w1, SegmentClip(ExampleLine[0], ExampleLine[1], ExampleRect));
    assert w2 == Assembly([], [Point(0.0, 5.0), Point(5.0, 5.0)]);
    var w3 := Walk(ExampleLine, ExampleRect, 3);
    assert w3 == Stitch(w2, SegmentClip(ExampleLine[1], ExampleLine[2], ExampleRect));
    assert w3 == Assembly([], [Point(0.0, 5.0), Point(5.0, 5.0), Point(5.0, 0.0)]);
    var w4 := Walk(ExampleLine, ExampleRect, 4);
    assert w4 == Stitch(w3, SegmentClip(ExampleLine[2], ExampleLine[3], ExampleRect));
    assert w4 == Assembly([], [Point(0.0, 5.0), Point(5.0, 5.0), Point(5.0, 0.0), Point(10.0, 4.0)]);
  }
}
