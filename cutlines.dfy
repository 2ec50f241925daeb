/**
 The data model of the cutlines library: points, polylines, the clip window,
 the edge tags and the result of clipping one segment.

 Coordinates are modelled as exact reals; the library itself uses doubles.
 */
module Cutlines {

  /** A point is exactly two coordinates. */
  datatype Point = Point(x: real, y: real)

  /** A polyline: an ordered sequence of points joined by straight segments. */
  type Line = seq<Point>

  /** The clip window: four independent bounds, with no ordering enforced. */
  datatype Rect = Rect(xMin: real, xMax: real, yMin: real, yMax: real)

  /** The ordering every caller is expected to respect; nothing in the library checks it. */
  predicate WellFormed(rect: Rect)
  {
    rect.xMin <= rect.xMax && rect.yMin <= rect.yMax
  }

  /** A point of the closed window: boundary points count as inside. */
  predicate Inside(p: Point, rect: Rect)
  {
    rect.xMin <= p.x <= rect.xMax && rect.yMin <= p.y <= rect.yMax
  }

  /** Which side of the window clipped an end of a segment; NoEdge when none did. */
  datatype Edge = NoEdge | Left | Right | Bottom | Top

  /** The visible part of one segment, with the edge that clipped each of its ends. */
  datatype ClipResult = ClipResult(startClipEdge: Edge, endClipEdge: Edge, start: Point, end: Point)

  datatype Option<T> = None | Some(value: T)
}
