/** The padded crop region: the selected face box grown by a fraction of its
    own width and height on every side (to take in hair and neck), then
    clamped to the image. Coordinates are integers and the padding ratio is
    an exact real. */
module Crop {
  import opened Boxes

  /** Python's `int(x)` on a number: truncation toward zero. */
  function Truncate(x: real): (n: int)
    ensures 0.0 <= x ==> n as real <= x < n as real + 1.0
    ensures x < 0.0 ==> n as real - 1.0 < x <= n as real
  {
    if x >= 0.0 then x.Floor else -((-x).Floor)
  }

  /** `int(padding * size)`: the margin added on each side along one axis.
      A non-negative ratio of a non-negative size gives a margin between 0
      and the exact `padding * size`. */
  function Pad(padding: real, size: int): (pad: int)
    ensures 0.0 <= padding && 0 <= size ==> 0 <= pad && pad as real <= padding * size as real
  {
    Truncate(padding * size as real)
  }

  /** The crop rectangle `extract_faces` cuts out for face box `b` in an
      image of size `s`: each edge moved outward by the pad of its axis,
      then clamped on one side only, the near edges to at least 0 and the
      far edges to at most the width and height. Nothing bounds `x1` by the
      width or `x2` from below. */
  function PaddedCrop(b: Box, s: Size, padding: real): (r: Box)
    ensures InImage(r, s)
  {
    var padX := Pad(padding, Width(b));
    var padY := Pad(padding, Height(b));
    Box(Max(0, b.x1 - padX), Max(0, b.y1 - padY), Min(s.width, b.x2 + padX), Min(s.height, b.y2 + padY))
  }

  /** For a non-negative ratio and a non-negative size the pad is the floor
      of `padding * size`: a whole number of pixels between 0 and the exact
      margin. */
  lemma PadBounds(padding: real, size: int)
    requires 0.0 <= padding && 0 <= size
    ensures Pad(padding, size) == (padding * size as real).Floor
    ensures 0 <= Pad(padding, size)
    ensures Pad(padding, size) as real <= padding * size as real
  {
  }

  /** Helper: a product of non-negative reals is non-negative. */
  lemma NonNegativeProduct(a: real, b: real)
    requires 0.0 <= a && 0.0 <= b
    ensures 0.0 <= a * b
  {
  }

  /** A larger ratio never gives a smaller pad. */
  lemma PadMonotone(p: real, q: real, size: int)
    requires 0.0 <= p <= q && 0 <= size
    ensures Pad(p, size) <= Pad(q, size)
  {
    var x := p * size as real;
    var y := q * size as real;
    NonNegativeProduct(p, size as real);
    assert x <= y by {
      NonNegativeProduct(q - p, size as real);
      assert (q - p) * size as real == y - x;
    }
    assert Pad(p, size) == x.Floor && Pad(q, size) == y.Floor;
    FloorMonotone(x, y);
  }

  /** Helper: the floor of a smaller real is not larger. */
  lemma FloorMonotone(x: real, y: real)
    requires x <= y
    ensures x.Floor <= y.Floor
  {
    assert x.Floor as real <= y;
  }

  /** Python's normalisation of a slice bound against a length `len`: a
      negative bound counts back from the end, and the result is clamped to
      [0, len]. */
  function SliceIndex(i: int, len: nat): (r: nat)
    ensures r <= len
    ensures 0 <= i <= len ==> r == i
    ensures i < 0 ==> r as int == Max(0, len + i)
    ensures len < i ==> r == len
  {
    if i < 0 then Max(0, len + i) else Min(i, len)
  }

  /** The pixels `img[y1:y2, x1:x2]` actually selects for region `r` in an
      image of size `s`: each bound normalised as a slice bound, and an
      empty range when the normalised end is not past the start. */
  function Cut(r: Box, s: Size): (p: Box)
    ensures InImage(p, s) && WellFormed(p)
    ensures InImage(r, s) && WellFormed(r) ==> p == r
  {
    var x1 := SliceIndex(r.x1, s.width);
    var y1 := SliceIndex(r.y1, s.height);
    Box(x1, y1, Max(x1, SliceIndex(r.x2, s.width)), Max(y1, SliceIndex(r.y2, s.height)))
  }

  /** A cut with no pixels: the image library refuses to write it. */
  predicate IsEmpty(p: Box) { Width(p) <= 0 || Height(p) <= 0 }

  /** A negative right or bottom edge is not an empty crop: the slice end
      counts back from the image's far edge. Face (-100, -100, -50, -50) in a
      300 x 300 image with no padding gives region (0, 0, -50, -50), which
      selects the 250 x 250 pixels (0, 0, 250, 250). */
  lemma CutNegativeEndExample()
    ensures var r := PaddedCrop(Box(-100, -100, -50, -50), Size(300, 300), 0.0);
            r == Box(0, 0, -50, -50) && Cut(r, Size(300, 300)) == Box(0, 0, 250, 250)
  {
  }

  /** A negative ratio shrinks the face: ratio -0.5 on face
      (100, 100, 200, 200) gives pads of -50 and the empty region
      (150, 150, 150, 150). */
  lemma NegativePaddingEmptyExample()
    ensures var r := PaddedCrop(Box(100, 100, 200, 200), Size(300, 300), -0.5);
            Pad(-0.5, 100) == -50 && r == Box(150, 150, 150, 150) && IsEmpty(Cut(r, Size(300, 300)))
  {
  }

  /** With a non-negative ratio, a face whose part inside a non-empty image
      has positive width and height yields a non-empty cut, equal to the
      region. */
  lemma PaddedCropNonEmpty(b: Box, s: Size, padding: real)
    requires 0.0 <= padding && 0 < s.width && 0 < s.height
    requires b.x1 < b.x2 && b.x1 < s.width && 0 < b.x2
    requires b.y1 < b.y2 && b.y1 < s.height && 0 < b.y2
    ensures var r := PaddedCrop(b, s, padding);
            Cut(r, s) == r && !IsEmpty(Cut(r, s))
  {
    PaddedCropWellFormed(b, s, padding);
    PaddedCropContainsFace(b, s, padding);
    var c := Clip(b, s);
    assert c.x1 < c.x2 && c.y1 < c.y2;
  }

  /** With a non-negative ratio, a well-formed face and a face that reaches
      the image on both axes, the crop has its corners in order. */
  lemma PaddedCropWellFormed(b: Box, s: Size, padding: real)
    requires 0.0 <= padding && WellFormed(b) && Overlaps(b, s)
    ensures WellFormed(PaddedCrop(b, s, padding))
  {
  }

  /** The non-negative ratio above cannot be dropped either: ratio -0.75
      on face (100, 100, 200, 200), which reaches a 300 x 300 image, gives
      pads of -75 and the crop (175, 175, 125, 125), whose corners are out
      of order. */
  lemma NegativePaddingInvertsExample()
    ensures var b := Box(100, 100, 200, 200);
            var s := Size(300, 300);
            var r := PaddedCrop(b, s, -0.75);
            WellFormed(b) && Overlaps(b, s) && Pad(-0.75, 100) == -75 &&
            r == Box(175, 175, 125, 125) && !WellFormed(r)
  {
  }

  /** The overlap requirement above cannot be dropped: a well-formed face
      lying wholly to the right of a 300 x 300 image, cropped with no
      padding, gives a crop whose left edge is past its right edge. */
  lemma PaddedCropNeedsOverlap()
    ensures var b := Box(400, 0, 500, 10);
            var s := Size(300, 300);
            WellFormed(b) && !Overlaps(b, s) && !WellFormed(PaddedCrop(b, s, 0.0))
  {
  }

  /** Reaching the image is sufficient for well-formedness but not
      necessary: face (310, 0, 400, 10) lies right of a 300 x 300 image, yet
      ratio 0.5 pads it by 45 and gives the well-formed crop
      (265, 0, 300, 15). */
  lemma OverlapNotNecessary()
    ensures var b := Box(310, 0, 400, 10);
            var s := Size(300, 300);
            var r := PaddedCrop(b, s, 0.5);
            !Overlaps(b, s) && r == Box(265, 0, 300, 15) && WellFormed(r)
  {
  }

  /** Padding never shrinks the face: the crop contains the detected face
      intersected with the image. */
  lemma PaddedCropContainsFace(b: Box, s: Size, padding: real)
    requires 0.0 <= padding && WellFormed(b)
    ensures Contains(PaddedCrop(b, s, padding), Clip(b, s))
  {
  }

  /** With zero padding the crop is exactly the face clipped to the image. */
  lemma ZeroPaddingClips(b: Box, s: Size)
    ensures PaddedCrop(b, s, 0.0) == Clip(b, s)
  {
  }

  /** A larger ratio gives a crop that contains the smaller ratio's crop. */
  lemma PaddedCropMonotone(b: Box, s: Size, p: real, q: real)
    requires 0.0 <= p <= q && WellFormed(b)
    ensures Contains(PaddedCrop(b, s, q), PaddedCrop(b, s, p))
  {
    PadMonotone(p, q, Width(b));
    PadMonotone(p, q, Height(b));
  }

  /** The crop is never wider than the face plus the exact margin on both
      sides, i.e. (1 + 2 * padding) times the face's width, and likewise
      for the height. */
  lemma PaddedCropSizeBound(b: Box, s: Size, padding: real)
    requires 0.0 <= padding && WellFormed(b)
    ensures Width(PaddedCrop(b, s, padding)) as real <= (1.0 + 2.0 * padding) * Width(b) as real
    ensures Height(PaddedCrop(b, s, padding)) as real <= (1.0 + 2.0 * padding) * Height(b) as real
  {
  }

  /** The worked example: face (100, 100, 200, 200) in a 300 x 300 image with
      ratio 0.3 gets pads of 30 and the crop (70, 70, 230, 230). */
  lemma PaddedCropExample()
    ensures Pad(0.3, 100) == 30
    ensures PaddedCrop(Box(100, 100, 200, 200), Size(300, 300), 0.3) == Box(70, 70, 230, 230)
  {
  }
}
