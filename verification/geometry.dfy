/** Axis-aligned rectangles and points on the screen (raylib's `Rectangle`
    and `Vector2`), with exact real arithmetic in place of `float`. */
module Geometry {

  datatype Vec2 = Vec2(x: real, y: real)

  /** Top-left corner `(x, y)`, extending `width` to the right and `height`
      downwards. Nothing forbids a negative width or height. */
  datatype Rect = Rect(x: real, y: real, width: real, height: real)
  {
    function Right(): real { x + width }
    function Bottom(): real { y + height }
    function TopLeft(): Vec2 { Vec2(x, y) }
    predicate NonNegative() { width >= 0.0 && height >= 0.0 }
  }

  /** `bs_point_in_rect`: containment with all four edges inclusive. Only a
      rectangle of non-negative size can contain anything. */
  function PointInRect(p: Vec2, r: Rect): (inside: bool)
    ensures inside ==> r.NonNegative()
  {
    p.x >= r.x && p.x <= r.Right() && p.y >= r.y && p.y <= r.Bottom()
  }

  /** `bs_rect_overlap`: the closed intervals of the two rectangles meet on
      both axes. Equivalently, the top-left corner of `a` lies in `b` grown
      by the size of `a` to the left and upwards. */
  function RectOverlap(a: Rect, b: Rect): (overlap: bool)
    ensures overlap <==> PointInRect(a.TopLeft(), Grown(b, a))
  {
    a.x <= b.Right() && a.Right() >= b.x && a.y <= b.Bottom() && a.Bottom() >= b.y
  }

  /** `b` extended by the width and height of `a` to the left and upwards:
      the positions of the top-left corner of `a` at which `a` meets `b`. */
  function Grown(b: Rect, a: Rect): Rect
  {
    Rect(b.x - a.width, b.y - a.height, b.width + a.width, b.height + a.height)
  }

  /** The degenerate rectangle consisting of the single point `p`. */
  function PointRect(p: Vec2): Rect
  {
    Rect(p.x, p.y, 0.0, 0.0)
  }

  /** Containment is exactly overlap with a zero-size rectangle at the point. */
  lemma PointInRectIsPointOverlap(p: Vec2, r: Rect)
    ensures PointInRect(p, r) <==> RectOverlap(PointRect(p), r)
  {
  }

  /** All four corners of a rectangle of non-negative size lie in it: the
      edges are inclusive. */
  lemma CornersInRect(r: Rect)
    requires r.NonNegative()
    ensures PointInRect(Vec2(r.x, r.y), r) && PointInRect(Vec2(r.Right(), r.y), r)
    ensures PointInRect(Vec2(r.x, r.Bottom()), r) && PointInRect(Vec2(r.Right(), r.Bottom()), r)
  {
  }

  /** A rectangle with a negative width or height contains no point. */
  lemma NegativeRectIsEmpty(p: Vec2, r: Rect)
    requires r.width < 0.0 || r.height < 0.0
    ensures !PointInRect(p, r)
  {
  }

  /** Overlap does not depend on the order of the arguments. */
  lemma RectOverlapSymmetric(a: Rect, b: Rect)
    ensures RectOverlap(a, b) <==> RectOverlap(b, a)
  {
  }

  /** Rectangles that only share part of an edge overlap: `b` starts on the
      right edge of `a`, or on its bottom edge, and the two spans along that
      edge meet. */
  lemma SharedEdgeOverlaps(a: Rect, b: Rect)
    requires a.NonNegative() && b.NonNegative()
    requires || (b.x == a.Right() && a.y <= b.Bottom() && b.y <= a.Bottom())
             || (b.y == a.Bottom() && a.x <= b.Right() && b.x <= a.Right())
    ensures RectOverlap(a, b) && RectOverlap(b, a)
  {
  }

  /** Rectangles that only share a corner overlap: `b` starts at the
      bottom-right corner of `a`. */
  lemma SharedCornerOverlaps(a: Rect, b: Rect)
    requires a.NonNegative() && b.NonNegative()
    requires b.TopLeft() == Vec2(a.Right(), a.Bottom())
    ensures RectOverlap(a, b) && RectOverlap(b, a)
  {
  }

  /** For rectangles of non-negative size, overlap means having a point in
      common; the common point can be taken to be the larger of the two
      top-left corners. */
  lemma RectOverlapIffCommonPoint(a: Rect, b: Rect)
    requires a.NonNegative() && b.NonNegative()
    ensures RectOverlap(a, b) <==> exists p :: PointInRect(p, a) && PointInRect(p, b)
  {
    if RectOverlap(a, b) {
      var p := Vec2(if a.x >= b.x then a.x else b.x, if a.y >= b.y then a.y else b.y);
      assert PointInRect(p, a) && PointInRect(p, b);
    }
  }

  /** The point test used as a fallback in the grid check adds nothing for a
      rectangle of non-negative size: if its top-left corner lies in `a`, the
      two rectangles already overlap. */
  lemma CornerInRectImpliesOverlap(a: Rect, r: Rect)
    requires r.NonNegative()
    requires PointInRect(r.TopLeft(), a)
    ensures RectOverlap(a, r)
  {
  }
}
