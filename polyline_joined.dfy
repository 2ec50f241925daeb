/**
 A polyline assembler that keeps the drawing faithful: an output polyline is
 a run of visible parts in which each part starts where the previous one ends,
 so a path that leaves the window and comes back starts a new polyline.

 The library's assembler appends a visible part's end to the open sub-line
 without looking at where the part starts, so when the polyline leaves the
 window and comes back (ExampleLine), the exit point and the re-entry part
 are joined by a segment that lies on no input segment. ClipLinesJoined opens
 a new sub-line in that case instead, and closes a sub-line whenever a part's
 end was cut by a side, whether or not it was open before.
 */
module JoinedPolylineClipper {
  import opened Cutlines
  import opened SegmentClipper
  import opened PolylineClipper

  /** Consecutive points p, q lie on one common segment of the polyline. */
  predicate SameSegment(p: Point, q: Point, line: Line)
  {
    exists i | 1 <= i < |line| :: OnSegment(p, line[i - 1], line[i]) && OnSegment(q, line[i - 1], line[i])
  }

  /** Every piece drawn between consecutive points of the given lines is part of the polyline. */
  predicate Joined(lines: seq<Line>, line: Line)
  {
    forall k, j | 0 <= k < |lines| && 0 <= j < |lines[k]| - 1 :: SameSegment(lines[k][j], lines[k][j + 1], line)
  }

  /**
   The library's output for ExampleLine draws the piece from (5, 0) to
   (10, 4), which lies on none of the three input segments.
   */
  lemma WorkedExampleNotJoined()
    ensures !Joined(ClipLines(ExampleLine, ExampleRect), ExampleLine)
  {
    WorkedExample();
    var out := ClipLines(ExampleLine, ExampleRect);
    var p, q := Point(5.0, 0.0), Point(10.0, 4.0);
    ExamplePieceOffLine(p, q);
    assert out[0][2] == p && out[0][3] == q;
  }

  /** The piece from (5, 0) to (10, 4) lies on none of ExampleLine's segments. */
  lemma ExamplePieceOffLine(p: Point, q: Point)
    requires p == Point(5.0, 0.0) && q == Point(10.0, 4.0)
    ensures !SameSegment(p, q, ExampleLine)
  {
    forall i | 1 <= i < |ExampleLine|
      ensures !(OnSegment(p, ExampleLine[i - 1], ExampleLine[i]) && OnSegment(q, ExampleLine[i - 1], ExampleLine[i]))
    {
      if i == 1 {
        assert !Collinear(p, ExampleLine[0], ExampleLine[1]);
      } else if i == 2 {
        assert !InBox(q, ExampleLine[1], ExampleLine[2]);
      } else {
        assert !Collinear(p, ExampleLine[2], ExampleLine[3]);
      }
    }
  }

  /**
   One visible part (or a rejection): the part extends the open sub-line only
   when it starts at that sub-line's last point, and otherwise opens a new
   one; a part whose end was cut by a side closes the sub-line it ends.
   */
  function StitchJoined(acc: Assembly, clipped: Option<ClipResult>): Assembly
  {
    match clipped
    case Some(r) =>
      var continues := |acc.subLine| != 0 && acc.subLine[|acc.subLine| - 1] == r.start;
      var finished := if |acc.subLine| != 0 && !continues then acc.clippedLines + [acc.subLine] else acc.clippedLines;
      var open := if continues then acc.subLine + [r.end] else [r.start, r.end];
      if r.endClipEdge != NoEdge then Assembly(finished + [open], []) else Assembly(finished, open)
    case None =>
      if |acc.subLine| != 0 then Assembly(acc.clippedLines + [acc.subLine], []) else acc
  }

  /** The assembly once the segments ending at line[1], ..., line[n - 1] are stitched. */
  function WalkJoined(line: Line, rect: Rect, n: nat): Assembly
    requires WellFormed(rect) && 1 <= n <= |line|
  {
    if n == 1 then Assembly([], [])
    else StitchJoined(WalkJoined(line, rect, n - 1), SegmentClip(line[n - 2], line[n - 1], rect))
  }

  /** The corrected polyline clipper. */
  function ClipLinesJoined(line: Line, rect: Rect): seq<Line>
    requires WellFormed(rect)
  {
    if |line| < 2 then [] else Finish(WalkJoined(line, rect, |line|))
  }

  lemma StitchJoinedKeepsJoined(acc: Assembly, clipped: Option<ClipResult>, line: Line)
    requires Joined(acc.clippedLines, line) && Joined([acc.subLine], line)
    requires clipped.Some? ==> SameSegment(clipped.value.start, clipped.value.end, line)
    ensures Joined(StitchJoined(acc, clipped).clippedLines, line) && Joined([StitchJoined(acc, clipped).subLine], line)
  {
    assert [acc.subLine][0] == acc.subLine;
    if clipped.Some? {
      var r := clipped.value;
      var pair := [r.start, r.end];
      assert Joined([pair], line) by {
        assert [pair][0] == pair;
      }
      if |acc.subLine| != 0 && acc.subLine[|acc.subLine| - 1] == r.start {
        var open := acc.subLine + [r.end];
        assert Joined([open], line) by {
          assert [open][0] == open;
          forall j | 0 <= j < |open| - 1
            ensures SameSegment(open[j], open[j + 1], line)
          {
            if j < |acc.subLine| - 1 {
              assert SameSegment([acc.subLine][0][j], [acc.subLine][0][j + 1], line);
            }
          }
        }
      }
    }
  }

  lemma {:induction false} WalkJoinedJoined(line: Line, rect: Rect, n: nat)
    requires WellFormed(rect) && 1 <= n <= |line|
    ensures Joined(WalkJoined(line, rect, n).clippedLines, line) && Joined([WalkJoined(line, rect, n).subLine], line)
  {
    if n > 1 {
      WalkJoinedJoined(line, rect, n - 1);
      var clipped := SegmentClip(line[n - 2], line[n - 1], rect);
      if clipped.Some? {
        AcceptedOnSegment(line[n - 2], line[n - 1], rect);
        assert OnSegment(clipped.value.start, line[n - 1 - 1], line[n - 1]);
      }
      StitchJoinedKeepsJoined(WalkJoined(line, rect, n - 1), clipped, line);
    }
  }

  /** Every piece the corrected clipper draws is part of the input polyline. */
  lemma ClipLinesJoinedAreJoined(line: Line, rect: Rect)
    requires WellFormed(rect)
    ensures Joined(ClipLinesJoined(line, rect), line)
  {
    if |line| >= 2 {
      var acc := WalkJoined(line, rect, |line|);
      WalkJoinedJoined(line, rect, |line|);
      assert [acc.subLine][0] == acc.subLine;
    }
  }

  /** p and q are consecutive points of one of the lines. */
  predicate HasPair(lines: seq<Line>, p: Point, q: Point)
  {
    exists k, j | 0 <= k < |lines| && 0 <= j < |lines[k]| - 1 :: lines[k][j] == p && lines[k][j + 1] == q
  }

  /** The later lines keep every earlier line as a prefix of the line at its place. */
  predicate Extends(before: seq<Line>, after: seq<Line>)
  {
    |before| <= |after| && forall k | 0 <= k < |before| :: before[k] <= after[k]
  }

  lemma ExtendsKeepsPair(before: seq<Line>, after: seq<Line>, p: Point, q: Point)
    requires Extends(before, after) && HasPair(before, p, q)
    ensures HasPair(after, p, q)
  {
    var k, j :| 0 <= k < |before| && 0 <= j < |before[k]| - 1 && before[k][j] == p && before[k][j + 1] == q;
    assert before[k] <= after[k];
    assert after[k][j] == p && after[k][j + 1] == q;
  }

  /** A stitch keeps the sub-lines well shaped when the visible parts are inside the window. */
  lemma StitchJoinedWellShaped(acc: Assembly, clipped: Option<ClipResult>, rect: Rect)
    requires WellShaped(acc.clippedLines, rect) && (|acc.subLine| == 0 || WellShaped([acc.subLine], rect))
    requires clipped.Some? ==> Inside(clipped.value.start, rect) && Inside(clipped.value.end, rect)
    ensures var next := StitchJoined(acc, clipped);
            WellShaped(next.clippedLines, rect) && (|next.subLine| == 0 || WellShaped([next.subLine], rect))
  {
    assert [acc.subLine][0] == acc.subLine;
    if clipped.Some? {
      var r := clipped.value;
      var continues := |acc.subLine| != 0 && acc.subLine[|acc.subLine| - 1] == r.start;
      var open := if continues then acc.subLine + [r.end] else [r.start, r.end];
      assert [open][0] == open;
      assert WellShaped([open], rect);
    }
  }

  /**
   A stitch only grows the output: every line finished or open before is a
   prefix of the line at its place after.
   */
  lemma StitchJoinedExtends(acc: Assembly, clipped: Option<ClipResult>)
    ensures Extends(Finish(acc), Finish(StitchJoined(acc, clipped)))
  {
    var before, after := Finish(acc), Finish(StitchJoined(acc, clipped));
    assert |before| <= |after|;
    forall k | 0 <= k < |before|
      ensures before[k] <= after[k]
    {
      if k < |acc.clippedLines| {
        assert before[k] == acc.clippedLines[k];
      }
    }
  }

  /** A visible part's two ends become consecutive points of the last line of the output. */
  lemma StitchJoinedHasPair(acc: Assembly, clipped: Option<ClipResult>)
    requires clipped.Some?
    ensures HasPair(Finish(StitchJoined(acc, clipped)), clipped.value.start, clipped.value.end)
  {
    var r := clipped.value;
    var continues := |acc.subLine| != 0 && acc.subLine[|acc.subLine| - 1] == r.start;
    var open := if continues then acc.subLine + [r.end] else [r.start, r.end];
    var out := Finish(StitchJoined(acc, clipped));
    assert out[|out| - 1] == open;
    assert open[|open| - 2] == r.start && open[|open| - 1] == r.end;
  }

  lemma {:induction false} WalkJoinedWellShaped(line: Line, rect: Rect, n: nat)
    requires WellFormed(rect) && 1 <= n <= |line|
    ensures var acc := WalkJoined(line, rect, n);
            WellShaped(acc.clippedLines, rect) && (|acc.subLine| == 0 || WellShaped([acc.subLine], rect))
  {
    if n > 1 {
      WalkJoinedWellShaped(line, rect, n - 1);
      StitchJoinedWellShaped(WalkJoined(line, rect, n - 1), SegmentClip(line[n - 2], line[n - 1], rect), rect);
    }
  }

  lemma {:induction false} WalkJoinedKeepsParts(line: Line, rect: Rect, n: nat)
    requires WellFormed(rect) && 1 <= n <= |line|
    ensures forall i | 1 <= i < n :: SegmentClip(line[i - 1], line[i], rect).Some? ==>
              HasPair(Finish(WalkJoined(line, rect, n)),
                      SegmentClip(line[i - 1], line[i], rect).value.start,
                      SegmentClip(line[i - 1], line[i], rect).value.end)
  {
    if n > 1 {
      WalkJoinedKeepsParts(line, rect, n - 1);
      var acc := WalkJoined(line, rect, n - 1);
      var clipped := SegmentClip(line[n - 2], line[n - 1], rect);
      StitchJoinedExtends(acc, clipped);
      if clipped.Some? {
        StitchJoinedHasPair(acc, clipped);
      }
      var out := Finish(WalkJoined(line, rect, n));
      assert out == Finish(StitchJoined(acc, clipped));
      forall i | 1 <= i < n && SegmentClip(line[i - 1], line[i], rect).Some?
        ensures HasPair(out, SegmentClip(line[i - 1], line[i], rect).value.start,
                        SegmentClip(line[i - 1], line[i], rect).value.end)
      {
        var r := SegmentClip(line[i - 1], line[i], rect).value;
        if i < n - 1 {
          ExtendsKeepsPair(Finish(acc), out, r.start, r.end);
        } else {
          assert i - 1 == n - 2;
          assert r == clipped.value;
        }
      }
    }
  }

  /**
   The corrected clipper keeps every visible part: its output polylines have
   at least two points, all inside the window, and the two ends of each
   segment's visible part are consecutive points of one of them.
   */
  lemma ClipLinesJoinedKeepsParts(line: Line, rect: Rect)
    requires WellFormed(rect)
    ensures WellShaped(ClipLinesJoined(line, rect), rect)
    ensures forall i | 1 <= i < |line| :: SegmentClip(line[i - 1], line[i], rect).Some? ==>
              HasPair(ClipLinesJoined(line, rect),
                      SegmentClip(line[i - 1], line[i], rect).value.start,
                      SegmentClip(line[i - 1], line[i], rect).value.end)
  {
    if |line| >= 2 {
      var acc := WalkJoined(line, rect, |line|);
      WalkJoinedWellShaped(line, rect, |line|);
      WalkJoinedKeepsParts(line, rect, |line|);
      assert [acc.subLine][0] == acc.subLine;
    }
  }

  /** The corrected clipper splits the example into the part before the bottom exit and the re-entry part. */
  lemma WorkedExampleJoined()
    ensures ClipLinesJoined(ExampleLine, ExampleRect)
            == [[Point(0.0, 5.0), Point(5.0, 5.0), Point(5.0, 0.0)], [Point(6.0, 0.0), Point(10.0, 4.0)]]
  {
    ExampleSegments();
    var w1 := WalkJoined(ExampleLine, ExampleRect, 1);
    assert w1 == Assembly([], []);
    var w2 := WalkJoined(ExampleLine, ExampleRect, 2);
    assert w2 == StitchJoined(w1, SegmentClip(ExampleLine[0], ExampleLine[1], ExampleRect));
    assert w2 == Assembly([], [Point(0.0, 5.0), Point(5.0, 5.0)]);
    var w3 := WalkJoined(ExampleLine, ExampleRect, 3);
    assert w3 == StitchJoined(w2, SegmentClip(ExampleLine[1], ExampleLine[2], ExampleRect));
    assert w2.subLine + [Point(5.0, 0.0)] == [Point(0.0, 5.0), Point(5.0, 5.0), Point(5.0, 0.0)];
    assert w3 == Assembly([[Point(0.0, 5.0), Point(5.0, 5.0), Point(5.0, 0.0)]], []);
    var w4 := WalkJoined(ExampleLine, ExampleRect, 4);
    assert w4 == StitchJoined(w3, SegmentClip(ExampleLine[2], ExampleLine[3], ExampleRect));
    assert w4 == Assembly(w3.clippedLines + [[Point(6.0, 0.0), Point(10.0, 4.0)]], []);
  }
}
