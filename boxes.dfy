/** Axis-aligned pixel rectangles: the bounding boxes the face detector
    reports and the crop regions cut out of an image. */
module Boxes {

  /** A bounding box (x1, y1, x2, y2) in integer pixel coordinates, with
      (x1, y1) the top-left and (x2, y2) the bottom-right corner. */
  datatype Box = Box(x1: int, y1: int, x2: int, y2: int)

  /** Image dimensions as reported by the decoder (shape[:2]). */
  datatype Size = Size(width: nat, height: nat)

  function Width(b: Box): int { b.x2 - b.x1 }

  function Height(b: Box): int { b.y2 - b.y1 }

  /** The key the largest face is chosen by: (x2 - x1) * (y2 - y1). A
      well-formed box has a non-negative area, and a box that has both
      extents positive has a positive one. */
  function Area(b: Box): (a: int)
    ensures WellFormed(b) ==> 0 <= a
    ensures Width(b) > 0 && Height(b) > 0 ==> a > 0
  {
    Width(b) * Height(b)
  }

  /** Corners in order: the box spans a (possibly empty) rectangle. */
  predicate WellFormed(b: Box) { b.x1 <= b.x2 && b.y1 <= b.y2 }

  /** The left and top edges are not negative and the right and bottom edges
      do not pass the width and height. This bounds neither x1 by the width
      nor x2 from below: a box meeting it may still have x1 > x2 or a
      negative x2. */
  predicate InImage(b: Box, s: Size) {
    0 <= b.x1 && b.x2 <= s.width && 0 <= b.y1 && b.y2 <= s.height
  }

  /** The box reaches the image extent on both axes. */
  predicate Overlaps(b: Box, s: Size) {
    b.x1 <= s.width && 0 <= b.x2 && b.y1 <= s.height && 0 <= b.y2
  }

  /** Every edge of `inner` lies on or inside the edges of `outer`. */
  predicate Contains(outer: Box, inner: Box) {
    outer.x1 <= inner.x1 && outer.y1 <= inner.y1 && inner.x2 <= outer.x2 && inner.y2 <= outer.y2
  }

  function Min(a: int, b: int): int { if a <= b then a else b }

  function Max(a: int, b: int): int { if a >= b then a else b }

  /** The box with its edges clamped to the image: the detected face
      intersected with the image extent. */
  function Clip(b: Box, s: Size): (r: Box)
    ensures InImage(r, s) && Contains(b, r)
    ensures WellFormed(b) && Overlaps(b, s) ==> WellFormed(r)
  {
    Box(Max(0, b.x1), Max(0, b.y1), Min(s.width, b.x2), Min(s.height, b.y2))
  }

  /** Clamping is idempotent: a box already inside the image is unchanged,
      and clipping twice is clipping once. */
  lemma ClipIdempotent(b: Box, s: Size)
    ensures InImage(b, s) ==> Clip(b, s) == b
    ensures Clip(Clip(b, s), s) == Clip(b, s)
  {
  }
}
