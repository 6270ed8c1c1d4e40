/**
  The Qt value types the widget works with, reduced to integers.

  Assumptions about Qt 5 (the toolkit the widget is written against), each stated
  once here and relied on everywhere else:
  - a QRect stores two inclusive corners (x1, y1) and (x2, y2); its width is
    x2 - x1 + 1 and its height y2 - y1 + 1, so the default QRect() = (0, 0, -1, -1)
    has width and height 0;
  - QRect::isNull holds exactly when width and height are both 0;
  - QRect::normalized swaps the x corners only when x2 < x1 - 1 (likewise y);
  - an image is known only by its size; a null QImage has size 0 x 0;
  - QImage::copy(rect) of a null rectangle returns the whole image; of a rectangle with
    a side of 0 or less, or of a null image, a null image; otherwise an image of the
    rectangle's size, pixels outside the source being filled.
 */
module Geometry {
  import opened Arith

  /** A widget-space pixel position (QPoint). */
  datatype Point = Point(x: int, y: int)

  /** Qt's QRect, stored as inclusive corners. */
  datatype Rect = Rect(left: int, top: int, right: int, bottom: int) {

    function Width(): int { right - left + 1 }

    function Height(): int { bottom - top + 1 }

    /** QRect::isNull: zero width and zero height. */
    predicate IsNull() { right == left - 1 && bottom == top - 1 }

    /** A rectangle whose size is not negative in either direction. */
    predicate IsNormal() { Width() >= 0 && Height() >= 0 }

    /** QRect::normalized in Qt 5: each axis is swapped only when its far corner lies
        more than one pixel before its near corner. */
    function Normalized(): (r: Rect)
      ensures r.IsNormal()
      ensures r.IsNull() <==> IsNull()
      ensures IsNormal() ==> r == this
    {
      var (l, rt) := if right < left - 1 then (right, left) else (left, right);
      var (t, b) := if bottom < top - 1 then (bottom, top) else (top, bottom);
      Rect(l, t, rt, b)
    }
  }

  /** QRect(): the null rectangle a fresh widget starts with and load and crop restore. */
  const NullRect: Rect := Rect(0, 0, -1, -1)

  /** QRect(QPoint, QPoint): the two points become the two inclusive corners. */
  function FromCorners(a: Point, b: Point): Rect
  {
    Rect(a.x, a.y, b.x, b.y)
  }

  /** QRect(x, y, w, h): origin plus size. */
  function FromSize(x: int, y: int, w: int, h: int): (r: Rect)
    ensures r.left == x && r.top == y
    ensures r.Width() == w && r.Height() == h
    ensures r.IsNull() <==> w == 0 && h == 0
  {
    Rect(x, y, x + w - 1, y + h - 1)
  }

  /** A decoded image, known only by its size; a null image is 0 x 0. */
  datatype Image = Image(width: nat, height: nat) {
    predicate IsNull() { width == 0 || height == 0 }
  }

  const NullImage: Image := Image(0, 0)

  /** The size of the image QImage::copy(rect) returns. */
  function CopySize(img: Image, r: Rect): (c: Image)
    ensures img.IsNull() ==> c == NullImage
    ensures !img.IsNull() && r.IsNull() ==> c == img
    ensures !img.IsNull() && !r.IsNull() && r.Width() > 0 && r.Height() > 0 ==>
              c.width == r.Width() && c.height == r.Height()
    ensures !r.IsNull() && (r.Width() <= 0 || r.Height() <= 0) ==> c == NullImage
    ensures c.IsNull() <==> c == NullImage
  {
    if img.IsNull() then NullImage
    else if r.IsNull() then img
    else if r.Width() <= 0 || r.Height() <= 0 then NullImage
    else Image(r.Width(), r.Height())
  }

  /** The axis-wise view of dragging from `a` to `b`: where the normalized rectangle's
      near and far edge lie on one axis. */
  function SpanOf(a: int, b: int): (int, int)
  {
    if b == a - 1 then (a, b) else (Min(a, b), Max(a, b))
  }

  /** A rectangle drawn from corner `a` to corner `b` and normalized covers the two
      points: its near edges are the component-wise minimum and its far edges the
      maximum, and its size is the absolute difference plus one (corners are inclusive).
      The single exception, a Qt 5 quirk, is a far corner exactly one pixel before the
      near one on some axis: that axis stays as drawn with size 0. */
  lemma DragRectangle(a: Point, b: Point)
    ensures var r := FromCorners(a, b).Normalized();
      && (r.left, r.right) == SpanOf(a.x, b.x)
      && (r.top, r.bottom) == SpanOf(a.y, b.y)
      && r.Width() == (if b.x == a.x - 1 then 0 else Abs(b.x - a.x) + 1)
      && r.Height() == (if b.y == a.y - 1 then 0 else Abs(b.y - a.y) + 1)
  {
  }

  /** Dragging exactly one pixel up and to the left produces a null rectangle; no other
      drag does. */
  lemma DragRectangleNull(a: Point, b: Point)
    ensures FromCorners(a, b).Normalized().IsNull() <==> b == Point(a.x - 1, a.y - 1)
  {
  }
}
