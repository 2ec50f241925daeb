/**
 Outcodes: the 4-bit classification of a point against the nine regions that
 the clip window's four boundary lines cut the plane into, and the conversion
 of an outcode into the edge tag reported to callers.
 */
module OutCodes {
  import opened Cutlines

  /**
   An outcode: the library keeps it in an int of which only the four low bits
   are ever set; bit 0 is LEFT, bit 1 RIGHT, bit 2 BOTTOM and bit 3 TOP.
   */
  datatype OutCode = Bits(left: bool, right: bool, bottom: bool, top: bool)

  const INSIDE: OutCode := Bits(false, false, false, false)
  const LEFT: OutCode := Bits(true, false, false, false)
  const RIGHT: OutCode := Bits(false, true, false, false)
  const BOTTOM: OutCode := Bits(false, false, true, false)
  const TOP: OutCode := Bits(false, false, false, true)

  /** The int the library holds for a code. */
  function Value(code: OutCode): (n: int)
    ensures 0 <= n < 16
    ensures n == 0 <==> code == INSIDE
  {
    (if code.left then 1 else 0) + (if code.right then 2 else 0) +
    (if code.bottom then 4 else 0) + (if code.top then 8 else 0)
  }

  /** The code whose int is n; the partner of Value. */
  function FromValue(n: int): (code: OutCode)
    requires 0 <= n < 16
  {
    Bits(n % 2 == 1, n / 2 % 2 == 1, n / 4 % 2 == 1, n / 8 == 1)
  }

  /** Value is a bijection between codes and the ints 0 to 15. */
  lemma ValueRoundTrip(code: OutCode, n: int)
    requires 0 <= n < 16
    ensures FromValue(Value(code)) == code
    ensures Value(FromValue(n)) == n
  {
  }

  /** The named constants hold the library's values. */
  lemma ConstantValues()
    ensures Value(INSIDE) == 0 && Value(LEFT) == 1 && Value(RIGHT) == 2
    ensures Value(BOTTOM) == 4 && Value(TOP) == 8
  {
  }

  /** a | b on the int. */
  function BitOr(a: OutCode, b: OutCode): (c: OutCode)
    ensures c == INSIDE <==> a == INSIDE && b == INSIDE
  {
    Bits(a.left || b.left, a.right || b.right, a.bottom || b.bottom, a.top || b.top)
  }

  /** a & b on the int. */
  function BitAnd(a: OutCode, b: OutCode): (c: OutCode)
  {
    Bits(a.left && b.left, a.right && b.right, a.bottom && b.bottom, a.top && b.top)
  }

  /**
   BitAnd(a, b) is the largest code whose bits are set in both a and b: its
   bits are set in each, and so are those of every code whose bits are set in both.
   */
  lemma BitAndLargest(a: OutCode, b: OutCode, d: OutCode)
    ensures BitOr(BitAnd(a, b), a) == a && BitOr(BitAnd(a, b), b) == b
    ensures BitOr(d, a) == a && BitOr(d, b) == b ==> BitOr(d, BitAnd(a, b)) == BitAnd(a, b)
  {
  }

  /**
   The outcode of (x, y). Left is tested before right and bottom before top,
   so a code never holds both bits of one axis, and the comparisons are strict,
   so a point on the boundary is inside.
   */
  function ComputeOutCode(x: real, y: real, rect: Rect): (code: OutCode)
    ensures code == INSIDE <==> Inside(Point(x, y), rect)
    ensures code.left <==> x < rect.xMin
    ensures code.right <==> !(x < rect.xMin) && x > rect.xMax
    ensures code.bottom <==> y < rect.yMin
    ensures code.top <==> !(y < rect.yMin) && y > rect.yMax
    ensures !(code.left && code.right) && !(code.bottom && code.top)
  {
    var horizontal := if x < rect.xMin then LEFT else if x > rect.xMax then RIGHT else INSIDE;
    var vertical := if y < rect.yMin then BOTTOM else if y > rect.yMax then TOP else INSIDE;
    BitOr(horizontal, vertical)
  }

  /** The outcode of a point. */
  function OutCodeOf(p: Point, rect: Rect): OutCode
  {
    ComputeOutCode(p.x, p.y, rect)
  }
  /** The reject test: two points' codes share a bit exactly when both lie beyond one side. */
  lemma SharedBitSameSide(p: Point, q: Point, rect: Rect)
    requires WellFormed(rect)
    ensures BitAnd(OutCodeOf(p, rect), OutCodeOf(q, rect)) != INSIDE <==>
            (p.x < rect.xMin && q.x < rect.xMin) || (p.x > rect.xMax && q.x > rect.xMax) ||
            (p.y < rect.yMin && q.y < rect.yMin) || (p.y > rect.yMax && q.y > rect.yMax)
  {
    var c0, c1 := OutCodeOf(p, rect), OutCodeOf(q, rect);
    assert BitAnd(c0, c1).left <==> p.x < rect.xMin && q.x < rect.xMin;
    assert BitAnd(c0, c1).right <==> p.x > rect.xMax && q.x > rect.xMax;
    assert BitAnd(c0, c1).bottom <==> p.y < rect.yMin && q.y < rect.yMin;
    assert BitAnd(c0, c1).top <==> p.y > rect.yMax && q.y > rect.yMax;
  }


  /** A code that names exactly one side of the window. */
  predicate IsSingleSide(code: OutCode)
  {
    code == LEFT || code == RIGHT || code == BOTTOM || code == TOP
  }

  /** The one-bit code of a side; the partner of ToEdge. */
  function EdgeCode(e: Edge): (code: OutCode)
    requires e != NoEdge
    ensures IsSingleSide(code)
  {
    match e
    case Left => LEFT
    case Right => RIGHT
    case Bottom => BOTTOM
    case Top => TOP
  }

  /**
   The edge tag of a code: a side only for the four one-bit codes; INSIDE and
   the two-bit corner codes give NoEdge.
   */
  function ToEdge(code: OutCode): (e: Edge)
    ensures e != NoEdge <==> IsSingleSide(code)
    ensures e != NoEdge ==> EdgeCode(e) == code
  {
    if code == LEFT then Left
    else if code == RIGHT then Right
    else if code == BOTTOM then Bottom
    else if code == TOP then Top
    else NoEdge
  }

  /** ToEdge and EdgeCode are inverse bijections between the four sides and the one-bit codes. */
  lemma EdgeCodeRoundTrip(e: Edge, code: OutCode)
    ensures e != NoEdge ==> ToEdge(EdgeCode(e)) == e
    ensures IsSingleSide(code) ==> EdgeCode(ToEdge(code)) == code
  {
  }

  /** Every edge is NoEdge or one of the four sides, and the five are pairwise distinct. */
  lemma EdgeValues(e: Edge)
    ensures e == NoEdge || e == Left || e == Right || e == Bottom || e == Top
    ensures NoEdge != Left && NoEdge != Right && NoEdge != Bottom && NoEdge != Top
    ensures Left != Right && Left != Bottom && Left != Top
    ensures Right != Bottom && Right != Top && Bottom != Top
  {
  }

  /**
   The edge tag of a point's own outcode names a side exactly when the point
   lies beyond that side and inside the band of the other axis; a point in a
   corner region gets NoEdge.
   */
  lemma EdgeOfPoint(p: Point, rect: Rect)
    ensures ToEdge(OutCodeOf(p, rect)) == Left <==>
              p.x < rect.xMin && rect.yMin <= p.y <= rect.yMax
    ensures ToEdge(OutCodeOf(p, rect)) == Right <==>
              rect.xMin <= p.x && rect.xMax < p.x && rect.yMin <= p.y <= rect.yMax
    ensures ToEdge(OutCodeOf(p, rect)) == Bottom <==>
              p.y < rect.yMin && rect.xMin <= p.x <= rect.xMax
    ensures ToEdge(OutCodeOf(p, rect)) == Top <==>
              rect.yMin <= p.y && rect.yMax < p.y && rect.xMin <= p.x <= rect.xMax
  {
  }
}
