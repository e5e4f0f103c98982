/** Page geometry: points and axis-aligned rectangles in page coordinates. */
module Geometry {

  datatype Point = Point(x: real, y: real)

  /** A rectangle given by its top-left corner (x0, y0) and its bottom-right corner (x1, y1). */
  datatype Rect = Rect(x0: real, y0: real, x1: real, y1: real)

  /** Corners in order; the rectangles that text search reports are of this kind. */
  predicate WellFormed(r: Rect) {
    r.x0 <= r.x1 && r.y0 <= r.y1
  }

  /** Horizontal extent; an inverted rectangle has width 0. */
  function Width(r: Rect): real {
    if r.x0 < r.x1 then r.x1 - r.x0 else 0.0
  }

  /** Vertical extent; an inverted rectangle has height 0. */
  function Height(r: Rect): real {
    if r.y0 < r.y1 then r.y1 - r.y0 else 0.0
  }

  predicate Contains(outer: Rect, inner: Rect) {
    outer.x0 <= inner.x0 && inner.x1 <= outer.x1 && outer.y0 <= inner.y0 && inner.y1 <= outer.y1
  }

  function Max(a: real, b: real): real {
    if a < b then b else a
  }

  /** Smallest box a signature image is drawn into. */
  const MinSignatureWidth: real := 150.0
  const MinSignatureHeight: real := 40.0

  /** Fraction of the tag's height at which replacement text is anchored. */
  const BaselineRatio: real := 0.8

  /** Where replacement text for a tag is inserted: the tag's left edge, 80% of the way down. */
  function TextAnchor(tag: Rect): (p: Point)
    ensures p.x == tag.x0
    ensures p.y == tag.y0 + BaselineRatio * Height(tag)
    ensures tag.y0 <= p.y
    ensures WellFormed(tag) ==> p.y <= tag.y1
  {
    Point(tag.x0, tag.y0 + Height(tag) * BaselineRatio)
  }

  /** The box a signature image is placed in: anchored at the tag's top-left corner and at least
      MinSignatureWidth by MinSignatureHeight, so it always covers the tag it replaces. */
  function SignatureRect(tag: Rect): (s: Rect)
    ensures s.x0 == tag.x0 && s.y0 == tag.y0
    ensures Width(s) == Max(Width(tag), MinSignatureWidth)
    ensures Height(s) == Max(Height(tag), MinSignatureHeight)
    ensures Width(s) >= MinSignatureWidth && Height(s) >= MinSignatureHeight
    ensures WellFormed(s)
    ensures WellFormed(tag) ==> Contains(s, tag)
  {
    var w := Max(Width(tag), MinSignatureWidth);
    var h := Max(Height(tag), MinSignatureHeight);
    Rect(tag.x0, tag.y0, tag.x0 + w, tag.y0 + h)
  }

  /** A 100 by 20 tag at (100, 200) gets a 150 by 40 signature box. */
  lemma SignatureRectExample()
    ensures SignatureRect(Rect(100.0, 200.0, 200.0, 220.0)) == Rect(100.0, 200.0, 250.0, 240.0)
  {
  }
}
