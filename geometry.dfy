/** Axis-aligned rectangles in screen coordinates (y grows downwards) and
    the strict overlap test that every rectangle collision of the game uses:
    rectangles that only touch along an edge do not collide. */
module Geometry {

  datatype Rect = Rect(x: real, y: real, width: real, height: real)

  /** True iff the interiors of `a` and `b` intersect. */
  predicate Overlap(a: Rect, b: Rect)
  {
    a.x < b.x + b.width && b.x < a.x + a.width &&
    a.y < b.y + b.height && b.y < a.y + a.height
  }

  /** Two rectangles whose horizontal extents are separated by a gap, however
      small, never overlap; the same holds vertically. */
  lemma SeparatedDoNotOverlap(a: Rect, b: Rect)
    requires a.x + a.width <= b.x || b.x + b.width <= a.x ||
             a.y + a.height <= b.y || b.y + b.height <= a.y
    ensures !Overlap(a, b) && !Overlap(b, a)
  {
  }
}
