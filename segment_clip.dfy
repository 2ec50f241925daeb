/**
 The Cohen-Sutherland segment clipper.

 CohenSutherlandLineClip is the loop of the library, written over the same
 local variables; ClipFrom is the same loop as a recursive function over a
 ClipState, one Pass per iteration, and the lemmas below state what it
 computes.
 */
module SegmentClipper {
  import opened Cutlines
  import opened OutCodes

  /** The loop variables of the clipper: both (possibly moved) ends, their outcodes,
      and for each end the last non-zero outcode it had. */
  datatype ClipState = ClipState(p0: Point, p1: Point,
                                 outcode0: OutCode, outcode1: OutCode,
                                 lastEdge0: OutCode, lastEdge1: OutCode)

  /** The outcodes held in the state are those of its points. */
  predicate Consistent(s: ClipState, rect: Rect)
  {
    s.outcode0 == OutCodeOf(s.p0, rect) && s.outcode1 == OutCodeOf(s.p1, rect)
  }

  /** The state before the first pass: the input ends, and their outcodes as the remembered ones. */
  function InitialState(a: Point, b: Point, rect: Rect): (s: ClipState)
    ensures Consistent(s, rect)
    ensures s.p0 == a && s.p1 == b
    ensures s.lastEdge0 == s.outcode0 && s.lastEdge1 == s.outcode1
  {
    var code0 := OutCodeOf(a, rect);
    var code1 := OutCodeOf(b, rect);
    ClipState(a, b, code0, code1, code0, code1)
  }

  /** Neither the trivial accept (both codes 0) nor the trivial reject (a shared bit) applies. */
  predicate NeedsPass(s: ClipState)
  {
    BitOr(s.outcode0, s.outcode1) != INSIDE && BitAnd(s.outcode0, s.outcode1) == INSIDE
  }

  /** The code of the end that a pass moves: the numerically larger one, the start on a tie. */
  function OutsideCode(s: ClipState): (out: OutCode)
    ensures out == s.outcode0 || out == s.outcode1
  {
    if Value(s.outcode1) > Value(s.outcode0) then s.outcode1 else s.outcode0
  }

  /** The chosen code is the larger of the two as an int, so an end inside is never chosen over one outside. */
  lemma OutsideCodeIsLarger(s: ClipState)
    ensures Value(OutsideCode(s)) >= Value(s.outcode0) && Value(OutsideCode(s)) >= Value(s.outcode1)
    ensures s.outcode0 != INSIDE || s.outcode1 != INSIDE ==> OutsideCode(s) != INSIDE
  {
  }

  /** The bit of a non-zero code that a pass resolves: TOP, then BOTTOM, then RIGHT, then LEFT. */
  function ResolvedBit(out: OutCode): (bit: OutCode)
    requires out != INSIDE
    ensures IsSingleSide(bit) && BitAnd(out, bit) == bit
    ensures Value(out) < 2 * Value(bit)  // no higher-priority bit is set
  {
    if BitAnd(out, TOP) != INSIDE then TOP
    else if BitAnd(out, BOTTOM) != INSIDE then BOTTOM
    else if BitAnd(out, RIGHT) != INSIDE then RIGHT
    else LEFT
  }

  /** The bit is one the two ends do not share, so the segment crosses that boundary line. */
  predicate Crosses(p0: Point, p1: Point, bit: OutCode, rect: Rect)
  {
    IsSingleSide(bit) &&
    (bit == TOP ==> (p0.y > rect.yMax) != (p1.y > rect.yMax)) &&
    (bit == BOTTOM ==> (p0.y < rect.yMin) != (p1.y < rect.yMin)) &&
    (bit == RIGHT ==> (p0.x > rect.xMax) != (p1.x > rect.xMax)) &&
    (bit == LEFT ==> (p0.x < rect.xMin) != (p1.x < rect.xMin))
  }

  /** The point of the line through p0 and p1 on the boundary line named by bit. */
  function Intersection(p0: Point, p1: Point, bit: OutCode, rect: Rect): (q: Point)
    requires Crosses(p0, p1, bit, rect)
    ensures OnSide(q, ToEdge(bit), rect)
    ensures Between(q.x, p0.x, p1.x) && Between(q.y, p0.y, p1.y)
  {
    if bit == TOP then
      Point(Lerp(p0.x, p1.x, p0.y, p1.y, rect.yMax), rect.yMax)
    else if bit == BOTTOM then
      Point(Lerp(p0.x, p1.x, p0.y, p1.y, rect.yMin), rect.yMin)
    else if bit == RIGHT then
      Point(rect.xMax, Lerp(p0.y, p1.y, p0.x, p1.x, rect.xMax))
    else
      Point(rect.xMin, Lerp(p0.y, p1.y, p0.x, p1.x, rect.xMin))
  }

  /** u lies in the closed interval spanned by a and b. */
  predicate Between(u: real, a: real, b: real)
  {
    a <= u <= b || b <= u <= a
  }

  /**
   The coordinate u at which the line through (u0, v0) and (u1, v1) reaches
   v == target, by the library's formula u0 + (u1 - u0) * (target - v0) / (v1 - v0).
   */
  function Lerp(u0: real, u1: real, v0: real, v1: real, target: real): (u: real)
    requires v0 != v1 && Between(target, v0, v1)
    ensures Between(u, u0, u1)
  {
    Interpolate(u0, u1, v0, v1, target);
    u0 + (u1 - u0) * (target - v0) / (v1 - v0)
  }

  /** The point lies on the boundary line of the given side (any point, for NoEdge). */
  predicate OnSide(p: Point, e: Edge, rect: Rect)
  {
    match e
    case NoEdge => true
    case Left => p.x == rect.xMin
    case Right => p.x == rect.xMax
    case Bottom => p.y == rect.yMin
    case Top => p.y == rect.yMax
  }

  /** When neither trivial test applies, the ends lie on different sides of the resolved boundary line. */
  lemma PassCrosses(s: ClipState, rect: Rect)
    requires WellFormed(rect) && Consistent(s, rect) && NeedsPass(s)
    ensures OutsideCode(s) != INSIDE
    ensures Crosses(s.p0, s.p1, ResolvedBit(OutsideCode(s)), rect)
  {
  }

  /** One iteration of the loop that neither accepts nor rejects. */
  function Pass(s: ClipState, rect: Rect): (t: ClipState)
    requires WellFormed(rect) && Consistent(s, rect) && NeedsPass(s)
    ensures Consistent(t, rect)
  {
    var out := OutsideCode(s);
    PassCrosses(s, rect);
    var q := Intersection(s.p0, s.p1, ResolvedBit(out), rect);
    var code := OutCodeOf(q, rect);
    if out == s.outcode0 then
      ClipState(q, s.p1, code, s.outcode1, if code != INSIDE then code else s.lastEdge0, s.lastEdge1)
    else
      ClipState(s.p0, q, s.outcode0, code, s.lastEdge0, if code != INSIDE then code else s.lastEdge1)
  }

  /** How far a point is from being inside: 2 beyond the bottom or top, 1 only
      beyond the left or right, 0 inside. */
  function Weight(code: OutCode): nat
  {
    if code.bottom || code.top then 2 else if code != INSIDE then 1 else 0
  }

  /** Multiplying and then dividing is multiplying by the quotient. */
  lemma MulDiv(a: real, b: real, c: real)
    requires c != 0.0
    ensures a * b / c == a * (b / c)
  {
    var q := b / c;
    assert b == q * c;
    assert a * b == (a * q) * c;
  }

  /** A fraction t of d lies between 0 and d. */
  lemma ScaleBetween(d: real, t: real)
    requires 0.0 <= t <= 1.0
    ensures Between(d * t, 0.0, d)
  {
    if d >= 0.0 {
      assert d * (1.0 - t) >= 0.0;
    } else {
      assert d * (1.0 - t) <= 0.0;
    }
  }

  /** A quotient n / d with n between 0 and d lies between 0 and 1. */
  lemma FractionInUnit(n: real, d: real)
    requires d != 0.0
    requires 0.0 <= n <= d || d <= n <= 0.0
    ensures 0.0 <= n / d <= 1.0
  {
    var t := n / d;
    assert n == t * d;
    if d < 0.0 && t > 1.0 {
      assert (t - 1.0) * d < 0.0;
    }
  }

  /** d * n / m lies between 0 and d when n lies between 0 and m. */
  lemma ScaledFraction(d: real, n: real, m: real)
    requires m != 0.0
    requires 0.0 <= n <= m || m <= n <= 0.0
    ensures Between(d * n / m, 0.0, d)
  {
    FractionInUnit(n, m);
    MulDiv(d, n, m);
    ScaleBetween(d, n / m);
  }

  /** Shifting a value between 0 and u1 - u0 by u0 gives a value between u0 and u1. */
  lemma ShiftBetween(u0: real, u1: real, w: real)
    requires Between(w, 0.0, u1 - u0)
    ensures Between(u0 + w, u0, u1)
  {
  }

  /** u0 + (u1 - u0) * (target - v0) / (v1 - v0) lies between u0 and u1 when target lies between v0 and v1. */
  lemma Interpolate(u0: real, u1: real, v0: real, v1: real, target: real)
    requires v0 != v1 && Between(target, v0, v1)
    ensures Between(u0 + (u1 - u0) * (target - v0) / (v1 - v0), u0, u1)
  {
    var d, n, m := u1 - u0, target - v0, v1 - v0;
    ScaledFraction(d, n, m);
    ShiftBetween(u0, u1, d * n / m);
  }

  /**
   What one iteration of the loop needs to know: which end moves, that the
   division is defined, that the moved end lands on q with a smaller weight,
   and that the loop goes on from Pass(s, rect).
   */
  lemma PassStep(s: ClipState, rect: Rect)
    requires WellFormed(rect) && Consistent(s, rect) && NeedsPass(s)
    ensures OutsideCode(s) != INSIDE && Crosses(s.p0, s.p1, ResolvedBit(OutsideCode(s)), rect)
    ensures var q := Intersection(s.p0, s.p1, ResolvedBit(OutsideCode(s)), rect);
            var code := OutCodeOf(q, rect);
            Weight(code) < Weight(OutsideCode(s)) &&
            Pass(s, rect) ==
              if OutsideCode(s) == s.outcode0
              then ClipState(q, s.p1, code, s.outcode1, if code != INSIDE then code else s.lastEdge0, s.lastEdge1)
              else ClipState(s.p0, q, s.outcode0, code, s.lastEdge0, if code != INSIDE then code else s.lastEdge1)
    ensures ClipFrom(Pass(s, rect), rect) == ClipFrom(s, rect)
  {
    PassDecreases(s, rect);
  }

  /** Every pass lowers the total weight of the two outcodes, so the loop ends. */
  lemma PassDecreases(s: ClipState, rect: Rect)
    requires WellFormed(rect) && Consistent(s, rect) && NeedsPass(s)
    ensures Weight(Pass(s, rect).outcode0) + Weight(Pass(s, rect).outcode1)
            < Weight(s.outcode0) + Weight(s.outcode1)
  {
    var out := OutsideCode(s);
    var bit := ResolvedBit(out);
    if bit == RIGHT || bit == LEFT {
      // both codes are below BOTTOM, so both ends lie in the vertical band
      assert !s.outcode0.bottom && !s.outcode0.top && !s.outcode1.bottom && !s.outcode1.top;
      var target := if bit == RIGHT then rect.xMax else rect.xMin;
      PassCrosses(s, rect);
      var q := Intersection(s.p0, s.p1, bit, rect);
      assert q.x == target;
      assert rect.yMin <= q.y <= rect.yMax;
      assert OutCodeOf(q, rect) == INSIDE;
    }
  }

  /**
   The loop from state s: accept when both codes are 0, reporting for each
   end the edge of its last non-zero code; reject when the codes share a
   bit; otherwise make one pass and go on.
   */
  function ClipFrom(s: ClipState, rect: Rect): (r: Option<ClipResult>)
    requires WellFormed(rect) && Consistent(s, rect)
    ensures r.Some? ==> Inside(r.value.start, rect) && Inside(r.value.end, rect)
    decreases Weight(s.outcode0) + Weight(s.outcode1)
  {
    if BitOr(s.outcode0, s.outcode1) == INSIDE then
      Some(ClipResult(ToEdge(s.lastEdge0), ToEdge(s.lastEdge1), s.p0, s.p1))
    else if BitAnd(s.outcode0, s.outcode1) != INSIDE then
      None
    else
      PassDecreases(s, rect);
      ClipFrom(Pass(s, rect), rect)
  }

  /** What CohenSutherlandLineClip returns for the segment from a to b. */
  function SegmentClip(a: Point, b: Point, rect: Rect): (r: Option<ClipResult>)
    requires WellFormed(rect)
    ensures r.Some? ==> Inside(r.value.start, rect) && Inside(r.value.end, rect)
  {
    ClipFrom(InitialState(a, b, rect), rect)
  }

  /** The clipper, over the library's own local variables. */
  method CohenSutherlandLineClip(a: Point, b: Point, rect: Rect) returns (r: Option<ClipResult>)
    requires WellFormed(rect)
    ensures r == SegmentClip(a, b, rect)
  {
    var x0, y0, x1, y1 := a.x, a.y, b.x, b.y;
    var outcode0 := ComputeOutCode(x0, y0, rect);
    var outcode1 := ComputeOutCode(x1, y1, rect);
    var lastEdge0, lastEdge1 := outcode0, outcode1;
    while true
      invariant Consistent(ClipState(Point(x0, y0), Point(x1, y1), outcode0, outcode1, lastEdge0, lastEdge1), rect)
      invariant ClipFrom(ClipState(Point(x0, y0), Point(x1, y1), outcode0, outcode1, lastEdge0, lastEdge1), rect)
                == SegmentClip(a, b, rect)
      decreases Weight(outcode0) + Weight(outcode1)
    {
      ghost var s := ClipState(Point(x0, y0), Point(x1, y1), outcode0, outcode1, lastEdge0, lastEdge1);
      if BitOr(outcode0, outcode1) == INSIDE {
        r := Some(ClipResult(ToEdge(lastEdge0), ToEdge(lastEdge1), Point(x0, y0), Point(x1, y1)));
        return;
      } else if BitAnd(outcode0, outcode1) != INSIDE {
        break;
      } else {
        var outcodeOut := if Value(outcode1) > Value(outcode0) then outcode1 else outcode0;
        assert outcodeOut == OutsideCode(s);
        PassStep(s, rect);
        var q := Intersection(Point(x0, y0), Point(x1, y1), ResolvedBit(outcodeOut), rect);
        if outcodeOut == outcode0 {
          x0, y0 := q.x, q.y;
          outcode0 := ComputeOutCode(x0, y0, rect);
          if outcode0 != INSIDE {
            lastEdge0 := outcode0;
          }
        } else {
          x1, y1 := q.x, q.y;
          outcode1 := ComputeOutCode(x1, y1, rect);
          if outcode1 != INSIDE {
            lastEdge1 := outcode1;
          }
        }
        assert ClipState(Point(x0, y0), Point(x1, y1), outcode0, outcode1, lastEdge0, lastEdge1) == Pass(s, rect);
      }
    }
    r := None;
  }

  /** p lies in the axis-aligned bounding box of the segment from a to b. */
  predicate InBox(p: Point, a: Point, b: Point)
  {
    Between(p.x, a.x, b.x) && Between(p.y, a.y, b.y)
  }

  /**
   One pass moves exactly one end: the one with the larger code, the start on
   a tie. It lands on the boundary line of the resolved bit, within the box of
   the two old ends, and that bit leaves its code; its remembered code becomes
   the new code unless that is 0. The other end and its codes are untouched.
   */
  lemma PassMovesOneEnd(s: ClipState, rect: Rect)
    requires WellFormed(rect) && Consistent(s, rect) && NeedsPass(s)
    ensures OutsideCode(s) != INSIDE
    ensures var bit := ResolvedBit(OutsideCode(s));
            var t := Pass(s, rect);
            if Value(s.outcode0) >= Value(s.outcode1) then
              t.p1 == s.p1 && t.outcode1 == s.outcode1 && t.lastEdge1 == s.lastEdge1 &&
              BitAnd(s.outcode0, bit) == bit && BitAnd(t.outcode0, bit) == INSIDE &&
              OnSide(t.p0, ToEdge(bit), rect) && InBox(t.p0, s.p0, s.p1) &&
              t.lastEdge0 == (if t.outcode0 != INSIDE then t.outcode0 else s.lastEdge0)
            else
              t.p0 == s.p0 && t.outcode0 == s.outcode0 && t.lastEdge0 == s.lastEdge0 &&
              BitAnd(s.outcode1, bit) == bit && BitAnd(t.outcode1, bit) == INSIDE &&
              OnSide(t.p1, ToEdge(bit), rect) && InBox(t.p1, s.p0, s.p1) &&
              t.lastEdge1 == (if t.outcode1 != INSIDE then t.outcode1 else s.lastEdge1)
  {
    PassStep(s, rect);
  }

  /** Two ends both inside the window are returned as they are, with no clip edge. */
  lemma BothInsideUnchanged(a: Point, b: Point, rect: Rect)
    requires WellFormed(rect)
    ensures Inside(a, rect) && Inside(b, rect) <==>
            SegmentClip(a, b, rect) == Some(ClipResult(NoEdge, NoEdge, a, b))
  {
  }

  /** Two ends beyond the same side of the window are rejected at once. */
  lemma SharedSideRejects(a: Point, b: Point, rect: Rect)
    requires WellFormed(rect)
    requires (a.x < rect.xMin && b.x < rect.xMin) || (a.x > rect.xMax && b.x > rect.xMax) ||
             (a.y < rect.yMin && b.y < rect.yMin) || (a.y > rect.yMax && b.y > rect.yMax)
    ensures SegmentClip(a, b, rect) == None
  {
  }

  lemma {:induction false} ClipFromKeepsInsideStart(s: ClipState, rect: Rect)
    requires WellFormed(rect) && Consistent(s, rect) && s.outcode0 == INSIDE
    ensures ClipFrom(s, rect).Some?
    ensures ClipFrom(s, rect).value.start == s.p0
    ensures ClipFrom(s, rect).value.startClipEdge == ToEdge(s.lastEdge0)
    decreases Weight(s.outcode0) + Weight(s.outcode1)
  {
    if NeedsPass(s) {
      PassMovesOneEnd(s, rect);
      PassStep(s, rect);
      ClipFromKeepsInsideStart(Pass(s, rect), rect);
    }
  }

  lemma {:induction false} ClipFromKeepsInsideEnd(s: ClipState, rect: Rect)
    requires WellFormed(rect) && Consistent(s, rect) && s.outcode1 == INSIDE
    ensures ClipFrom(s, rect).Some?
    ensures ClipFrom(s, rect).value.end == s.p1
    ensures ClipFrom(s, rect).value.endClipEdge == ToEdge(s.lastEdge1)
    decreases Weight(s.outcode0) + Weight(s.outcode1)
  {
    if NeedsPass(s) {
      PassMovesOneEnd(s, rect);
      PassStep(s, rect);
      ClipFromKeepsInsideEnd(Pass(s, rect), rect);
    }
  }

  /** A segment that starts inside the window is never rejected, and its start is kept untouched. */
  lemma InsideStartKept(a: Point, b: Point, rect: Rect)
    requires WellFormed(rect) && Inside(a, rect)
    ensures SegmentClip(a, b, rect).Some?
    ensures SegmentClip(a, b, rect).value.start == a
    ensures SegmentClip(a, b, rect).value.startClipEdge == NoEdge
  {
    ClipFromKeepsInsideStart(InitialState(a, b, rect), rect);
  }

  /** A segment that ends inside the window is never rejected, and its end is kept untouched. */
  lemma InsideEndKept(a: Point, b: Point, rect: Rect)
    requires WellFormed(rect) && Inside(b, rect)
    ensures SegmentClip(a, b, rect).Some?
    ensures SegmentClip(a, b, rect).value.end == b
    ensures SegmentClip(a, b, rect).value.endClipEdge == NoEdge
  {
    ClipFromKeepsInsideEnd(InitialState(a, b, rect), rect);
  }

  /** What each end's remembered code says: a non-zero outcode is also the
      remembered one, and an end inside on a one-bit remembered code lies on that side. */
  predicate Remembers(p: Point, code: OutCode, last: OutCode, rect: Rect)
  {
    (code != INSIDE ==> last == code) &&
    (code == INSIDE && IsSingleSide(last) ==> OnSide(p, ToEdge(last), rect))
  }

  predicate EdgesRemembered(s: ClipState, rect: Rect)
  {
    Remembers(s.p0, s.outcode0, s.lastEdge0, rect) && Remembers(s.p1, s.outcode1, s.lastEdge1, rect)
  }

  lemma {:induction false} ClipFromReportsExactEdges(s: ClipState, rect: Rect)
    requires WellFormed(rect) && Consistent(s, rect) && EdgesRemembered(s, rect)
    ensures var r := ClipFrom(s, rect);
            r.Some? ==> OnSide(r.value.start, r.value.startClipEdge, rect) &&
                        OnSide(r.value.end, r.value.endClipEdge, rect)
    decreases Weight(s.outcode0) + Weight(s.outcode1)
  {
    if NeedsPass(s) {
      PassMovesOneEnd(s, rect);
      PassStep(s, rect);
      ClipFromReportsExactEdges(Pass(s, rect), rect);
    }
  }

  /** An end reported as clipped by a side lies on that side's boundary line. */
  lemma ReportedEdgeIsExact(a: Point, b: Point, rect: Rect)
    requires WellFormed(rect)
    ensures var r := SegmentClip(a, b, rect);
            r.Some? ==> OnSide(r.value.start, r.value.startClipEdge, rect) &&
                        OnSide(r.value.end, r.value.endClipEdge, rect)
  {
    ClipFromReportsExactEdges(InitialState(a, b, rect), rect);
  }

  /** A code with at most one bit: inside, or beyond exactly one side. */
  predicate AtMostOneBit(code: OutCode)
  {
    code == INSIDE || IsSingleSide(code)
  }

  /** A code of a corner region: beyond one vertical and one horizontal side. */
  predicate IsCorner(code: OutCode)
  {
    code != INSIDE && !IsSingleSide(code)
  }

  /**
   The end a pass moves lands with at most one bit: a cut on a bottom or top
   line leaves at most a left or right bit, and a cut on a left or right line
   happens only inside the vertical band, so it lands inside.
   */
  lemma PassLandsOnOneSide(s: ClipState, rect: Rect)
    requires WellFormed(rect) && Consistent(s, rect) && NeedsPass(s)
    ensures if Value(s.outcode0) >= Value(s.outcode1)
            then AtMostOneBit(Pass(s, rect).outcode0)
            else AtMostOneBit(Pass(s, rect).outcode1)
  {
    PassMovesOneEnd(s, rect);
    var bit := ResolvedBit(OutsideCode(s));
    var t := Pass(s, rect);
    var moves0 := Value(s.outcode0) >= Value(s.outcode1);
    var p := if moves0 then t.p0 else t.p1;
    var code := if moves0 then t.outcode0 else t.outcode1;
    assert code == OutCodeOf(p, rect) && OnSide(p, ToEdge(bit), rect) && InBox(p, s.p0, s.p1);
    if bit == RIGHT || bit == LEFT {
      // both codes are below BOTTOM, so both ends lie in the vertical band
      assert !s.outcode0.bottom && !s.outcode0.top && !s.outcode1.bottom && !s.outcode1.top;
      assert rect.yMin <= p.y <= rect.yMax;
      assert code == INSIDE;
    } else {
      assert p.y == rect.yMin || p.y == rect.yMax;
      assert !code.bottom && !code.top;
    }
  }

  /** How many passes of the loop from s move the start. */
  function StartCuts(s: ClipState, rect: Rect): nat
    requires WellFormed(rect) && Consistent(s, rect)
    decreases Weight(s.outcode0) + Weight(s.outcode1)
  {
    if !NeedsPass(s) then 0
    else
      PassDecreases(s, rect);
      (if Value(s.outcode0) >= Value(s.outcode1) then 1 else 0) + StartCuts(Pass(s, rect), rect)
  }

  /** How many passes of the loop from s move the end. */
  function EndCuts(s: ClipState, rect: Rect): nat
    requires WellFormed(rect) && Consistent(s, rect)
    decreases Weight(s.outcode0) + Weight(s.outcode1)
  {
    if !NeedsPass(s) then 0
    else
      PassDecreases(s, rect);
      (if Value(s.outcode1) > Value(s.outcode0) then 1 else 0) + EndCuts(Pass(s, rect), rect)
  }

  /**
   The start's tag from a state whose start is not yet moved, or remembers
   one side, or is inside: NoEdge exactly when the remembered code names no
   side and the start is inside or is cut exactly once more.
   */
  lemma {:induction false} ClipFromStartTag(s: ClipState, rect: Rect)
    requires WellFormed(rect) && Consistent(s, rect)
    requires s.lastEdge0 == s.outcode0 || IsSingleSide(s.lastEdge0) || s.outcode0 == INSIDE
    ensures s.outcode0 == INSIDE ==> StartCuts(s, rect) == 0
    ensures ClipFrom(s, rect).Some? && s.outcode0 != INSIDE ==> StartCuts(s, rect) >= 1
    ensures ClipFrom(s, rect).Some? ==>
              (ClipFrom(s, rect).value.startClipEdge == NoEdge <==>
               !IsSingleSide(s.lastEdge0) && (s.outcode0 == INSIDE || StartCuts(s, rect) == 1))
    decreases Weight(s.outcode0) + Weight(s.outcode1)
  {
    if NeedsPass(s) {
      PassMovesOneEnd(s, rect);
      PassLandsOnOneSide(s, rect);
      PassStep(s, rect);
      ClipFromStartTag(Pass(s, rect), rect);
    }
  }

  /**
   The end's tag from a state whose end is not yet moved, or remembers one
   side, or is inside: NoEdge exactly when the remembered code names no side
   and the end is inside or is cut exactly once more.
   */
  lemma {:induction false} ClipFromEndTag(s: ClipState, rect: Rect)
    requires WellFormed(rect) && Consistent(s, rect)
    requires s.lastEdge1 == s.outcode1 || IsSingleSide(s.lastEdge1) || s.outcode1 == INSIDE
    ensures s.outcode1 == INSIDE ==> EndCuts(s, rect) == 0
    ensures ClipFrom(s, rect).Some? && s.outcode1 != INSIDE ==> EndCuts(s, rect) >= 1
    ensures ClipFrom(s, rect).Some? ==>
              (ClipFrom(s, rect).value.endClipEdge == NoEdge <==>
               !IsSingleSide(s.lastEdge1) && (s.outcode1 == INSIDE || EndCuts(s, rect) == 1))
    decreases Weight(s.outcode0) + Weight(s.outcode1)
  {
    if NeedsPass(s) {
      PassMovesOneEnd(s, rect);
      PassLandsOnOneSide(s, rect);
      PassStep(s, rect);
      ClipFromEndTag(Pass(s, rect), rect);
    }
  }

  /**
   When the start of an accepted segment is tagged: an outside start is cut
   at least once, and its tag is NoEdge exactly when it was inside, or it lies
   in a corner region and its one cut brought it inside.
   */
  lemma StartTagRule(a: Point, b: Point, rect: Rect)
    requires WellFormed(rect)
    ensures var r := SegmentClip(a, b, rect);
            r.Some? ==>
              (!Inside(a, rect) ==> StartCuts(InitialState(a, b, rect), rect) >= 1) &&
              (r.value.startClipEdge == NoEdge <==>
                 Inside(a, rect) ||
                 (IsCorner(OutCodeOf(a, rect)) && StartCuts(InitialState(a, b, rect), rect) == 1))
  {
    ClipFromStartTag(InitialState(a, b, rect), rect);
  }

  /**
   When the end of an accepted segment is tagged: an outside end is cut at
   least once, and its tag is NoEdge exactly when it was inside, or it lies in
   a corner region and its one cut brought it inside.
   */
  lemma EndTagRule(a: Point, b: Point, rect: Rect)
    requires WellFormed(rect)
    ensures var r := SegmentClip(a, b, rect);
            r.Some? ==>
              (!Inside(b, rect) ==> EndCuts(InitialState(a, b, rect), rect) >= 1) &&
              (r.value.endClipEdge == NoEdge <==>
                 Inside(b, rect) ||
                 (IsCorner(OutCodeOf(b, rect)) && EndCuts(InitialState(a, b, rect), rect) == 1))
  {
    ClipFromEndTag(InitialState(a, b, rect), rect);
  }

  /** A start beyond exactly one side is always reported with a side when the segment is accepted. */
  lemma StartBeyondOneSideTagged(a: Point, b: Point, rect: Rect)
    requires WellFormed(rect) && IsSingleSide(OutCodeOf(a, rect))
    ensures SegmentClip(a, b, rect).Some? ==> SegmentClip(a, b, rect).value.startClipEdge != NoEdge
  {
    StartTagRule(a, b, rect);
  }

  /** An end beyond exactly one side is always reported with a side when the segment is accepted. */
  lemma EndBeyondOneSideTagged(a: Point, b: Point, rect: Rect)
    requires WellFormed(rect) && IsSingleSide(OutCodeOf(b, rect))
    ensures SegmentClip(a, b, rect).Some? ==> SegmentClip(a, b, rect).value.endClipEdge != NoEdge
  {
    EndTagRule(a, b, rect);
  }

  lemma {:induction false} ClipFromStaysInBox(s: ClipState, a: Point, b: Point, rect: Rect)
    requires WellFormed(rect) && Consistent(s, rect)
    requires InBox(s.p0, a, b) && InBox(s.p1, a, b)
    ensures var r := ClipFrom(s, rect);
            r.Some? ==> InBox(r.value.start, a, b) && InBox(r.value.end, a, b)
    decreases Weight(s.outcode0) + Weight(s.outcode1)
  {
    if NeedsPass(s) {
      PassMovesOneEnd(s, rect);
      PassStep(s, rect);
      ClipFromStaysInBox(Pass(s, rect), a, b, rect);
    }
  }

  /** The accepted part lies inside the window and within the bounding box of the input segment. */
  lemma AcceptedWithinSegmentBox(a: Point, b: Point, rect: Rect)
    requires WellFormed(rect)
    ensures var r := SegmentClip(a, b, rect);
            r.Some? ==> Inside(r.value.start, rect) && Inside(r.value.end, rect) &&
                        InBox(r.value.start, a, b) && InBox(r.value.end, a, b)
  {
    ClipFromStaysInBox(InitialState(a, b, rect), a, b, rect);
  }

  /** p lies on the line through a and b (any p, when a == b). */
  predicate Collinear(p: Point, a: Point, b: Point)
  {
    (p.x - a.x) * (b.y - a.y) == (p.y - a.y) * (b.x - a.x)
  }

  /** The point a fraction t of the way from p0 to p1. */
  function Along(p0: Point, p1: Point, t: real): Point
  {
    Point(p0.x + t * (p1.x - p0.x), p0.y + t * (p1.y - p0.y))
  }

  /** Points of the line through a and b are closed under Along. */
  lemma AlongCollinear(p0: Point, p1: Point, t: real, a: Point, b: Point)
    requires Collinear(p0, a, b) && Collinear(p1, a, b)
    ensures Collinear(Along(p0, p1, t), a, b)
  {
    var dx, dy := b.x - a.x, b.y - a.y;
    var q := Along(p0, p1, t);
    assert (p1.x - p0.x) * dy == (p1.y - p0.y) * dx by {
      assert (p1.x - p0.x) * dy == (p1.x - a.x) * dy - (p0.x - a.x) * dy;
      assert (p1.y - p0.y) * dx == (p1.y - a.y) * dx - (p0.y - a.y) * dx;
    }
    assert (q.x - a.x) * dy == (p0.x - a.x) * dy + t * ((p1.x - p0.x) * dy);
    assert (q.y - a.y) * dx == (p0.y - a.y) * dx + t * ((p1.y - p0.y) * dx);
  }

  /** The library's formula gives the point a fraction (target - v0) / (v1 - v0) of the way. */
  lemma LerpAlong(u0: real, u1: real, v0: real, v1: real, target: real)
    requires v0 != v1 && Between(target, v0, v1)
    ensures var t := (target - v0) / (v1 - v0);
            Lerp(u0, u1, v0, v1, target) == u0 + t * (u1 - u0) && v0 + t * (v1 - v0) == target
  {
    var t := (target - v0) / (v1 - v0);
    MulDiv(u1 - u0, target - v0, v1 - v0);
    assert t * (v1 - v0) == target - v0;
  }

  /** A point found on a horizontal boundary line is on the line through p0 and p1. */
  lemma AlongAtY(p0: Point, p1: Point, target: real)
    requires p0.y != p1.y && Between(target, p0.y, p1.y)
    ensures Point(Lerp(p0.x, p1.x, p0.y, p1.y, target), target)
            == Along(p0, p1, (target - p0.y) / (p1.y - p0.y))
  {
    LerpAlong(p0.x, p1.x, p0.y, p1.y, target);
  }

  /** A point found on a vertical boundary line is on the line through p0 and p1. */
  lemma AlongAtX(p0: Point, p1: Point, target: real)
    requires p0.x != p1.x && Between(target, p0.x, p1.x)
    ensures Point(target, Lerp(p0.y, p1.y, p0.x, p1.x, target))
            == Along(p0, p1, (target - p0.x) / (p1.x - p0.x))
  {
    LerpAlong(p0.y, p1.y, p0.x, p1.x, target);
  }

  /** The intersection point is a point of the line through the two ends. */
  lemma IntersectionAlong(p0: Point, p1: Point, bit: OutCode, rect: Rect)
    requires Crosses(p0, p1, bit, rect)
    ensures exists t :: Intersection(p0, p1, bit, rect) == Along(p0, p1, t)
  {
    if bit == TOP {
      AlongAtY(p0, p1, rect.yMax);
    } else if bit == BOTTOM {
      AlongAtY(p0, p1, rect.yMin);
    } else if bit == RIGHT {
      AlongAtX(p0, p1, rect.xMax);
    } else {
      AlongAtX(p0, p1, rect.xMin);
    }
  }

  lemma {:induction false} ClipFromStaysOnLine(s: ClipState, a: Point, b: Point, rect: Rect)
    requires WellFormed(rect) && Consistent(s, rect)
    requires Collinear(s.p0, a, b) && Collinear(s.p1, a, b)
    ensures var r := ClipFrom(s, rect);
            r.Some? ==> Collinear(r.value.start, a, b) && Collinear(r.value.end, a, b)
    decreases Weight(s.outcode0) + Weight(s.outcode1)
  {
    if NeedsPass(s) {
      PassStep(s, rect);
      var bit := ResolvedBit(OutsideCode(s));
      IntersectionAlong(s.p0, s.p1, bit, rect);
      var t :| Intersection(s.p0, s.p1, bit, rect) == Along(s.p0, s.p1, t);
      AlongCollinear(s.p0, s.p1, t, a, b);
      ClipFromStaysOnLine(Pass(s, rect), a, b, rect);
    }
  }

  /** p lies on the closed segment from a to b (for a != b). */
  predicate OnSegment(p: Point, a: Point, b: Point)
  {
    Collinear(p, a, b) && InBox(p, a, b)
  }

  /**
   The accepted part lies on the input segment: both its ends are on the line
   through a and b and within their bounding box.
   */
  lemma AcceptedOnSegment(a: Point, b: Point, rect: Rect)
    requires WellFormed(rect)
    ensures var r := SegmentClip(a, b, rect);
            r.Some? ==> OnSegment(r.value.start, a, b) && OnSegment(r.value.end, a, b)
  {
    AcceptedWithinSegmentBox(a, b, rect);
    ClipFromStaysOnLine(InitialState(a, b, rect), a, b, rect);
  }

  /**
   A horizontal segment across the whole unit-10 window is cut at both sides,
   the end first (its code, RIGHT, is the larger), and both cuts are reported.
   */
  lemma CrossingSegmentExample()
    ensures SegmentClip(Point(-5.0, 5.0), Point(15.0, 5.0), Rect(0.0, 10.0, 0.0, 10.0))
            == Some(ClipResult(Left, Right, Point(0.0, 5.0), Point(10.0, 5.0)))
  {
    var rect := Rect(0.0, 10.0, 0.0, 10.0);
    var s0 := InitialState(Point(-5.0, 5.0), Point(15.0, 5.0), rect);
    assert s0 == ClipState(Point(-5.0, 5.0), Point(15.0, 5.0), LEFT, RIGHT, LEFT, RIGHT);
    PassStep(s0, rect);
    var s1 := Pass(s0, rect);
    assert s1 == ClipState(Point(-5.0, 5.0), Point(10.0, 5.0), LEFT, INSIDE, LEFT, RIGHT);
    PassStep(s1, rect);
    var s2 := Pass(s1, rect);
    assert s2 == ClipState(Point(0.0, 5.0), Point(10.0, 5.0), INSIDE, INSIDE, LEFT, RIGHT);
  }

  /**
   An end beyond a corner region keeps its two-bit code as the remembered one
   when a single pass brings it inside, so its cut is reported as NoEdge.
   */
  lemma CornerExitExample()
    ensures SegmentClip(Point(5.0, 5.0), Point(12.0, 20.0), Rect(0.0, 10.0, 0.0, 10.0))
            == Some(ClipResult(NoEdge, NoEdge, Point(5.0, 5.0), Point(22.0 / 3.0, 10.0)))
  {
    var rect := Rect(0.0, 10.0, 0.0, 10.0);
    var s0 := InitialState(Point(5.0, 5.0), Point(12.0, 20.0), rect);
    var corner := Bits(false, true, false, true);
    assert s0 == ClipState(Point(5.0, 5.0), Point(12.0, 20.0), INSIDE, corner, INSIDE, corner);
    PassStep(s0, rect);
    var s1 := Pass(s0, rect);
    assert s1 == ClipState(Point(5.0, 5.0), Point(22.0 / 3.0, 10.0), INSIDE, INSIDE, INSIDE, corner);
  }

  /** An affine function c + t * k maps t between t0 and t1 to a value between the two images. */
  lemma AffineBetween(c: real, k: real, t0: real, t1: real, t: real)
    requires Between(t, t0, t1)
    ensures Between(c + t * k, c + t0 * k, c + t1 * k)
  {
    assert (t - t0) * k == t * k - t0 * k;
    assert (t1 - t) * k == t1 * k - t * k;
    if k >= 0.0 {
      if t0 <= t <= t1 {
        assert (t - t0) * k >= 0.0 && (t1 - t) * k >= 0.0;
      } else {
        assert (t0 - t) * k >= 0.0 && (t - t1) * k >= 0.0;
      }
    } else {
      if t0 <= t <= t1 {
        assert (t - t0) * k <= 0.0 && (t1 - t) * k <= 0.0;
      } else {
        assert (t0 - t) * k <= 0.0 && (t - t1) * k <= 0.0;
      }
    }
  }

  /**
   Cutting at the crossing: along an affine c + t * k that is at most m at
   tIn and above m at tOut, with value exactly m at tq, a parameter t between
   tIn and tOut whose value is at most m lies between tIn and tq.
   */
  lemma CutKeeps(c: real, k: real, m: real, tIn: real, tOut: real, tq: real, t: real)
    requires c + tIn * k <= m < c + tOut * k
    requires c + tq * k == m && c + t * k <= m
    requires Between(t, tIn, tOut)
    ensures Between(t, tIn, tq)
  {
    assert (tOut - tIn) * k == tOut * k - tIn * k;
    assert (t - tq) * k == t * k - tq * k;
    assert (tOut - tIn) * k > 0.0;
    assert (t - tq) * k <= 0.0;
    if k > 0.0 {
      assert tIn < tOut;
      assert t <= tq;
    } else {
      assert tOut < tIn;
      assert tq <= t;
    }
  }

  /** CutKeeps for a boundary crossed downwards: at least m at tIn, below m at tOut. */
  lemma CutKeepsBelow(c: real, k: real, m: real, tIn: real, tOut: real, tq: real, t: real)
    requires c + tOut * k < m <= c + tIn * k
    requires c + tq * k == m && m <= c + t * k
    requires Between(t, tIn, tOut)
    ensures Between(t, tIn, tq)
  {
    assert (tOut - tIn) * k == tOut * k - tIn * k;
    assert (t - tq) * k == t * k - tq * k;
    assert (tOut - tIn) * k < 0.0;
    assert (t - tq) * k >= 0.0;
    if k > 0.0 {
      assert tOut < tIn;
      assert tq <= t;
    } else {
      assert tIn < tOut;
      assert t <= tq;
    }
  }

  /** Along the line through a and b, parameters between t0 and t1 give points in their box. */
  lemma AlongBetween(a: Point, b: Point, t0: real, t1: real, t: real)
    requires Between(t, t0, t1)
    ensures InBox(Along(a, b, t), Along(a, b, t0), Along(a, b, t1))
  {
    var dx, dy := b.x - a.x, b.y - a.y;
    var p, p0, p1 := Along(a, b, t), Along(a, b, t0), Along(a, b, t1);
    assert p.x == a.x + t * dx && p0.x == a.x + t0 * dx && p1.x == a.x + t1 * dx;
    AffineBetween(a.x, dx, t0, t1, t);
    assert p.y == a.y + t * dy && p0.y == a.y + t0 * dy && p1.y == a.y + t1 * dy;
    AffineBetween(a.y, dy, t0, t1, t);
  }

  /** Going a fraction u from the image of t0 towards the image of t1 under c + t * k. */
  lemma AffineCompose(c: real, k: real, t0: real, t1: real, u: real)
    ensures (c + t0 * k) + u * ((c + t1 * k) - (c + t0 * k)) == c + (t0 + u * (t1 - t0)) * k
  {
    assert (c + t1 * k) - (c + t0 * k) == (t1 - t0) * k;
    assert u * ((t1 - t0) * k) == (u * (t1 - t0)) * k;
    assert (t0 + u * (t1 - t0)) * k == t0 * k + (u * (t1 - t0)) * k;
  }

  /** A point a fraction of the way between two points of the line through a and b is again one. */
  lemma AlongCompose(a: Point, b: Point, t0: real, t1: real, u: real)
    ensures Along(Along(a, b, t0), Along(a, b, t1), u) == Along(a, b, t0 + u * (t1 - t0))
  {
    var dx, dy, tu := b.x - a.x, b.y - a.y, t0 + u * (t1 - t0);
    var p0, p1, q := Along(a, b, t0), Along(a, b, t1), Along(a, b, tu);
    assert p0.x == a.x + t0 * dx && p1.x == a.x + t1 * dx && q.x == a.x + tu * dx;
    AffineCompose(a.x, dx, t0, t1, u);
    assert p0.y == a.y + t0 * dy && p1.y == a.y + t1 * dy && q.y == a.y + tu * dy;
    AffineCompose(a.y, dy, t0, t1, u);
  }

  /** Between two points of a segment, the points of the segment form the piece joining them. */
  lemma AlongOnSegment(a: Point, b: Point, t0: real, t1: real, t: real)
    requires Between(t, t0, t1)
    ensures OnSegment(Along(a, b, t), Along(a, b, t0), Along(a, b, t1))
  {
    var dx, dy := b.x - a.x, b.y - a.y;
    AffineBetween(a.x, dx, t0, t1, t);
    AffineBetween(a.y, dy, t0, t1, t);
    var v, p, q := Along(a, b, t), Along(a, b, t0), Along(a, b, t1);
    assert v.x - p.x == (t - t0) * dx && q.y - p.y == (t1 - t0) * dy;
    assert v.y - p.y == (t - t0) * dy && q.x - p.x == (t1 - t0) * dx;
    assert ((t - t0) * dx) * ((t1 - t0) * dy) == ((t - t0) * dy) * ((t1 - t0) * dx);
  }

  /** When the two ends share an outcode bit, no point of the piece between them is inside. */
  lemma SharedBitOutside(s: ClipState, rect: Rect, a: Point, b: Point, t0: real, t1: real, t: real)
    requires Consistent(s, rect) && BitAnd(s.outcode0, s.outcode1) != INSIDE
    requires s.p0 == Along(a, b, t0) && s.p1 == Along(a, b, t1) && Between(t, t0, t1)
    ensures !Inside(Along(a, b, t), rect)
  {
    AlongBetween(a, b, t0, t1, t);
  }

  /** p lies strictly beyond the boundary line of the one-bit code. */
  predicate Beyond(p: Point, bit: OutCode, rect: Rect)
  {
    (bit == TOP && p.y > rect.yMax) || (bit == BOTTOM && p.y < rect.yMin) ||
    (bit == RIGHT && p.x > rect.xMax) || (bit == LEFT && p.x < rect.xMin)
  }

  /** CutKeeps and CutKeepsBelow for the y coordinate along the line through a and b. */
  lemma CutAlongY(a: Point, b: Point, m: real, above: bool, tIn: real, tOut: real, tq: real, t: real)
    requires if above then Along(a, b, tIn).y <= m < Along(a, b, tOut).y
             else Along(a, b, tOut).y < m <= Along(a, b, tIn).y
    requires Along(a, b, tq).y == m
    requires if above then Along(a, b, t).y <= m else m <= Along(a, b, t).y
    requires Between(t, tIn, tOut)
    ensures Between(t, tIn, tq)
  {
    var c, k := a.y, b.y - a.y;
    assert Along(a, b, tIn).y == c + tIn * k && Along(a, b, tOut).y == c + tOut * k;
    assert Along(a, b, tq).y == c + tq * k && Along(a, b, t).y == c + t * k;
    if above {
      CutKeeps(c, k, m, tIn, tOut, tq, t);
    } else {
      CutKeepsBelow(c, k, m, tIn, tOut, tq, t);
    }
  }

  /** CutKeeps and CutKeepsBelow for the x coordinate along the line through a and b. */
  lemma CutAlongX(a: Point, b: Point, m: real, above: bool, tIn: real, tOut: real, tq: real, t: real)
    requires if above then Along(a, b, tIn).x <= m < Along(a, b, tOut).x
             else Along(a, b, tOut).x < m <= Along(a, b, tIn).x
    requires Along(a, b, tq).x == m
    requires if above then Along(a, b, t).x <= m else m <= Along(a, b, t).x
    requires Between(t, tIn, tOut)
    ensures Between(t, tIn, tq)
  {
    var c, k := a.x, b.x - a.x;
    assert Along(a, b, tIn).x == c + tIn * k && Along(a, b, tOut).x == c + tOut * k;
    assert Along(a, b, tq).x == c + tq * k && Along(a, b, t).x == c + t * k;
    if above {
      CutKeeps(c, k, m, tIn, tOut, tq, t);
    } else {
      CutKeepsBelow(c, k, m, tIn, tOut, tq, t);
    }
  }

  /**
   Along the line through a and b: if tOut is beyond a boundary line, tIn is
   not, and tq is on it, then an inside point between tIn and tOut lies
   between tIn and tq.
   */
  lemma CutOnBoundary(a: Point, b: Point, bit: OutCode, rect: Rect, tIn: real, tOut: real, tq: real, t: real)
    requires IsSingleSide(bit)
    requires Beyond(Along(a, b, tOut), bit, rect) && !Beyond(Along(a, b, tIn), bit, rect)
    requires OnSide(Along(a, b, tq), ToEdge(bit), rect)
    requires Inside(Along(a, b, t), rect) && Between(t, tIn, tOut)
    ensures Between(t, tIn, tq)
  {
    var pIn, pOut, pq, p := Along(a, b, tIn), Along(a, b, tOut), Along(a, b, tq), Along(a, b, t);
    if bit == TOP {
      assert pIn.y <= rect.yMax < pOut.y && pq.y == rect.yMax && p.y <= rect.yMax;
      CutAlongY(a, b, rect.yMax, true, tIn, tOut, tq, t);
    } else if bit == BOTTOM {
      assert pOut.y < rect.yMin <= pIn.y && pq.y == rect.yMin && rect.yMin <= p.y;
      CutAlongY(a, b, rect.yMin, false, tIn, tOut, tq, t);
    } else if bit == RIGHT {
      assert pIn.x <= rect.xMax < pOut.x && pq.x == rect.xMax && p.x <= rect.xMax;
      CutAlongX(a, b, rect.xMax, true, tIn, tOut, tq, t);
    } else {
      assert pOut.x < rect.xMin <= pIn.x && pq.x == rect.xMin && rect.xMin <= p.x;
      CutAlongX(a, b, rect.xMin, false, tIn, tOut, tq, t);
    }
  }

  /** The end a pass moves is beyond the resolved boundary line, and the other end is not. */
  lemma MovedEndBeyond(s: ClipState, rect: Rect)
    requires WellFormed(rect) && Consistent(s, rect) && NeedsPass(s)
    ensures OutsideCode(s) != INSIDE
    ensures var bit := ResolvedBit(OutsideCode(s));
            if Value(s.outcode0) >= Value(s.outcode1)
            then Beyond(s.p0, bit, rect) && !Beyond(s.p1, bit, rect)
            else Beyond(s.p1, bit, rect) && !Beyond(s.p0, bit, rect)
  {
    PassCrosses(s, rect);
  }

  /** The piece a pass keeps still holds every visible point the piece before it held. */
  lemma PassKeepsVisible(s: ClipState, rect: Rect, a: Point, b: Point, t0: real, t1: real, t: real)
    returns (u0: real, u1: real)
    requires WellFormed(rect) && Consistent(s, rect) && NeedsPass(s)
    requires s.p0 == Along(a, b, t0) && s.p1 == Along(a, b, t1) && Between(t, t0, t1)
    requires Inside(Along(a, b, t), rect)
    ensures Pass(s, rect).p0 == Along(a, b, u0) && Pass(s, rect).p1 == Along(a, b, u1)
    ensures Between(t, u0, u1)
  {
    PassStep(s, rect);
    MovedEndBeyond(s, rect);
    var bit := ResolvedBit(OutsideCode(s));
    var q := Intersection(s.p0, s.p1, bit, rect);
    IntersectionAlong(s.p0, s.p1, bit, rect);
    var w :| q == Along(s.p0, s.p1, w);
    AlongCompose(a, b, t0, t1, w);
    var tq := t0 + w * (t1 - t0);
    assert q == Along(a, b, tq);
    if Value(s.outcode0) >= Value(s.outcode1) {
      CutOnBoundary(a, b, bit, rect, t1, t0, tq, t);
      u0, u1 := tq, t1;
    } else {
      CutOnBoundary(a, b, bit, rect, t0, t1, tq, t);
      u0, u1 := t0, tq;
    }
  }

  /**
   From any state whose ends are points of the line through a and b, a point
   inside the window between them leads to acceptance and lies on the piece
   accepted.
   */
  lemma {:induction false} ClipFromKeepsVisible(s: ClipState, rect: Rect, a: Point, b: Point, t0: real, t1: real, t: real)
    requires WellFormed(rect) && Consistent(s, rect)
    requires s.p0 == Along(a, b, t0) && s.p1 == Along(a, b, t1) && Between(t, t0, t1)
    requires Inside(Along(a, b, t), rect)
    ensures ClipFrom(s, rect).Some?
    ensures OnSegment(Along(a, b, t), ClipFrom(s, rect).value.start, ClipFrom(s, rect).value.end)
    decreases Weight(s.outcode0) + Weight(s.outcode1)
  {
    if BitOr(s.outcode0, s.outcode1) == INSIDE {
      AlongOnSegment(a, b, t0, t1, t);
    } else if BitAnd(s.outcode0, s.outcode1) != INSIDE {
      SharedBitOutside(s, rect, a, b, t0, t1, t);
      assert false;
    } else {
      var u0, u1 := PassKeepsVisible(s, rect, a, b, t0, t1, t);
      PassStep(s, rect);
      ClipFromKeepsVisible(Pass(s, rect), rect, a, b, u0, u1, t);
    }
  }

  /**
   A segment with a point inside the window is never rejected, and that point
   lies on the piece that is returned: the clipper keeps all of the visible part.
   */
  lemma VisiblePointKept(a: Point, b: Point, rect: Rect, t: real)
    requires WellFormed(rect) && 0.0 <= t <= 1.0 && Inside(Along(a, b, t), rect)
    ensures SegmentClip(a, b, rect).Some?
    ensures OnSegment(Along(a, b, t), SegmentClip(a, b, rect).value.start, SegmentClip(a, b, rect).value.end)
  {
    assert Along(a, b, 0.0) == a && Along(a, b, 1.0) == b;
    ClipFromKeepsVisible(InitialState(a, b, rect), rect, a, b, 0.0, 1.0, t);
  }

  /** A rejected segment has no point inside the window. */
  lemma RejectedMeansOutside(a: Point, b: Point, rect: Rect)
    requires WellFormed(rect)
    ensures SegmentClip(a, b, rect) == None ==>
            forall t | 0.0 <= t <= 1.0 :: !Inside(Along(a, b, t), rect)
  {
    forall t | 0.0 <= t <= 1.0 && Inside(Along(a, b, t), rect)
      ensures SegmentClip(a, b, rect).Some?
    {
      VisiblePointKept(a, b, rect, t);
    }
  }
}
