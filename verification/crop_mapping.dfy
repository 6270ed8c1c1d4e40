/**
  The arithmetic of cropping: a selection drawn in label coordinates is moved into the
  preview's coordinates (the preview is centred in the label), clipped to the preview,
  and scaled to the original image by the single factor originalWidth / previewWidth,
  each component truncated toward zero.

  The source computes the factor as a Python float and truncates `v * factor` with
  `int()`. This model computes the exact rational v * originalWidth / previewWidth
  and truncates it toward zero; floating-point rounding can differ from it by one
  when the exact value is an integer or very close to one.
 */
module CropMapping {
  import opened Arith
  import opened Geometry

  /** The sizes the crop reads from the widget: the label's size and the size of the
      preview pixmap shown in it. */
  datatype Layout = Layout(labelWidth: nat, labelHeight: nat, previewWidth: nat, previewHeight: nat)

  /** An (x, y, width, height) quadruple, the form the source passes to QRect. */
  datatype Box = Box(x: int, y: int, w: int, h: int)

  /** The preview's top-left corner within the label: the leftover space halved with
      Python's floor division, which is negative when the label is smaller than the
      preview. */
  function PreviewOffset(layout: Layout): (off: Point)
    ensures IsFloorQuotient(off.x, layout.labelWidth - layout.previewWidth, 2)
    ensures IsFloorQuotient(off.y, layout.labelHeight - layout.previewHeight, 2)
  {
    Point(FloorDiv(layout.labelWidth - layout.previewWidth, 2),
          FloorDiv(layout.labelHeight - layout.previewHeight, 2))
  }

  /** The selection in preview coordinates: the origin is shifted by the offset and
      raised to 0, then the size is cut so that the box ends at the preview's edge at
      the latest. The size comes out negative when the origin lies past that edge. */
  function ClipToPreview(sel: Rect, layout: Layout): (b: Box)
    ensures b.x >= 0 && b.y >= 0
    ensures b.x + b.w <= layout.previewWidth && b.y + b.h <= layout.previewHeight
    ensures b.w <= sel.Width() && b.h <= sel.Height()
    ensures b.x + PreviewOffset(layout).x >= sel.left && b.y + PreviewOffset(layout).y >= sel.top
    ensures b.x + PreviewOffset(layout).x == sel.left || b.x == 0
    ensures b.y + PreviewOffset(layout).y == sel.top || b.y == 0
    ensures b.w == sel.Width() || b.x + b.w == layout.previewWidth
    ensures b.h == sel.Height() || b.y + b.h == layout.previewHeight
  {
    var off := PreviewOffset(layout);
    var sx := Max(0, sel.left - off.x);
    var sy := Max(0, sel.top - off.y);
    Box(sx, sy, Min(sel.Width(), layout.previewWidth - sx), Min(sel.Height(), layout.previewHeight - sy))
  }

  /** Scale a preview-space box to the original image: every component, the vertical ones
      included, is multiplied by originalWidth / previewWidth and truncated toward zero. */
  function ScaleToOriginal(b: Box, originalWidth: nat, previewWidth: nat): Box
    requires previewWidth > 0
  {
    Box(TruncDiv(b.x * originalWidth, previewWidth),
        TruncDiv(b.y * originalWidth, previewWidth),
        TruncDiv(b.w * originalWidth, previewWidth),
        TruncDiv(b.h * originalWidth, previewWidth))
  }

  /** Each scaled component is the exact product v * originalWidth / previewWidth rounded
      toward zero, not to the nearest integer and not toward minus infinity. */
  lemma ScaleToOriginalTruncates(b: Box, originalWidth: nat, previewWidth: nat)
    requires previewWidth > 0
    ensures var r := ScaleToOriginal(b, originalWidth, previewWidth);
      && IsTruncQuotient(r.x, b.x * originalWidth, previewWidth)
      && IsTruncQuotient(r.y, b.y * originalWidth, previewWidth)
      && IsTruncQuotient(r.w, b.w * originalWidth, previewWidth)
      && IsTruncQuotient(r.h, b.h * originalWidth, previewWidth)
  {
    TruncDivIsTruncation(b.x * originalWidth, previewWidth);
    TruncDivIsTruncation(b.y * originalWidth, previewWidth);
    TruncDivIsTruncation(b.w * originalWidth, previewWidth);
    TruncDivIsTruncation(b.h * originalWidth, previewWidth);
  }

  /** The rectangle of the original image the crop copies. */
  function CropRect(sel: Rect, layout: Layout, originalWidth: nat): Rect
    requires layout.previewWidth > 0
  {
    var r := ScaleToOriginal(ClipToPreview(sel, layout), originalWidth, layout.previewWidth);
    FromSize(r.x, r.y, r.w, r.h)
  }

  /** Whatever the selection, the mapped origin is not negative and the mapped width and
      height never exceed the original width and the scaled preview height. When the
      clipped width is not negative the mapped rectangle ends inside the original image
      horizontally; when the clipped height is not negative it ends inside the preview
      height scaled by the width factor. */
  lemma CropRectBounds(sel: Rect, layout: Layout, originalWidth: nat)
    requires layout.previewWidth > 0
    ensures var c := ClipToPreview(sel, layout);
      var r := CropRect(sel, layout, originalWidth);
      var heightBound := TruncDiv(layout.previewHeight * originalWidth, layout.previewWidth);
      && r.left >= 0 && r.top >= 0
      && r.Width() <= originalWidth
      && r.Height() <= heightBound
      && (c.w >= 0 ==> r.left + r.Width() <= originalWidth)
      && (c.h >= 0 ==> r.top + r.Height() <= heightBound)
      && (c.w < 0 ==> r.Width() <= 0)
      && (c.h < 0 ==> r.Height() <= 0)
  {
    var c := ClipToPreview(sel, layout);
    var pw := layout.previewWidth;
    ScaledIntervalInside(c.x, c.w, pw, originalWidth, pw);
    ScaledIntervalInside(c.y, c.h, layout.previewHeight, originalWidth, pw);
    assert pw * originalWidth == originalWidth * pw;
    TruncDivOfMultiple(originalWidth, pw);
  }

  /** A selection covering exactly the visible preview maps back to the whole original
      image when the preview has the original's aspect ratio. */
  lemma FullPreviewSelection(layout: Layout, original: Image)
    requires layout.previewWidth > 0
    requires layout.previewHeight * original.width == original.height * layout.previewWidth
    ensures var off := PreviewOffset(layout);
      var sel := FromSize(off.x, off.y, layout.previewWidth, layout.previewHeight);
      CropRect(sel, layout, original.width) == FromSize(0, 0, original.width, original.height)
  {
    var pw := layout.previewWidth;
    var off := PreviewOffset(layout);
    var sel := FromSize(off.x, off.y, layout.previewWidth, layout.previewHeight);
    assert ClipToPreview(sel, layout) == Box(0, 0, pw, layout.previewHeight);
    assert pw * original.width == original.width * pw;
    TruncDivOfMultiple(original.width, pw);
    TruncDivOfMultiple(original.height, pw);
    assert 0 * original.width == 0;
  }

  /** The worked example: a 1000-pixel-wide original previewed at 800 x 400 in an
      800 x 600 label, selection (100, 150, 200, 100) in label coordinates. The preview
      sits 100 pixels down, the clipped box is (100, 50, 200, 100) and the original-image
      rectangle is (125, 62, 250, 125): 50 * 1.25 = 62.5 truncates to 62. */
  lemma WorkedExample()
    ensures var layout := Layout(800, 600, 800, 400);
      var sel := FromSize(100, 150, 200, 100);
      && PreviewOffset(layout) == Point(0, 100)
      && ClipToPreview(sel, layout) == Box(100, 50, 200, 100)
      && ScaleToOriginal(Box(100, 50, 200, 100), 1000, 800) == Box(125, 62, 250, 125)
      && CropRect(sel, layout, 1000) == FromSize(125, 62, 250, 125)
  {
  }

  /** A selection lying wholly in the letterbox left of the preview is not cut down: its
      origin is raised to the preview's edge and its size is kept, so it selects preview
      pixels it never covered. */
  lemma LetterboxSelectionKeepsSize(sel: Rect, layout: Layout)
    requires 0 <= sel.Width() <= layout.previewWidth
    requires sel.left + sel.Width() <= PreviewOffset(layout).x
    ensures ClipToPreview(sel, layout).x == 0
    ensures ClipToPreview(sel, layout).w == sel.Width()
  {
  }

  /** A selection that starts past the preview's right edge gets a negative clipped width,
      and truncation toward zero keeps the mapped width from being positive. */
  lemma SelectionPastRightEdge(sel: Rect, layout: Layout, originalWidth: nat)
    requires layout.previewWidth > 0
    requires sel.Width() >= 0
    requires sel.left - PreviewOffset(layout).x > layout.previewWidth
    ensures ClipToPreview(sel, layout).w < 0
    ensures CropRect(sel, layout, originalWidth).Width() <= 0
  {
    CropRectBounds(sel, layout, originalWidth);
  }
}
