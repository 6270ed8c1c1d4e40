/**
  The image label's state and the events that change it: loading an image, the three
  mouse events that draw the selection, and the crop action of the context menu.

  The label's own size and the size of the preview it shows are inputs of the crop
  (they come from the toolkit's layout and aspect-fit scaling); the decoded image is an
  input of the load (it comes from the image codec).
 */
module ImageLabel {
  import opened Wrappers
  import opened Arith
  import opened Geometry
  import opened CropMapping

  datatype Button = LeftButton | RightButton | OtherButton

  /** The fields of the label the events read and write. `image` is None until the
      first successful load. */
  datatype Widget = Widget(image: Option<Image>, cropping: bool, start: Point, end: Point, selection: Rect)

  /** A freshly constructed label: no image, not cropping, both points at the origin and
      the null selection. */
  const Initial: Widget := Widget(None, false, Point(0, 0), Point(0, 0), NullRect)

  /** The one way an event can fail: the crop divides by a preview width of 0, which
      happens once a crop has left a null image behind and a new selection is drawn over
      it. A crop leaves a null image when its selection lies past the preview's right or
      bottom edge, or when the selection is 0 pixels wide or high (a drag that ends one
      pixel before its start on one axis only). */
  datatype Fault = DivisionByZero

  /** The facts every reachable state keeps: the selection is either null or the
      normalized rectangle between the stored start and end points; a drag is only in
      progress while an image is loaded; and an image is either null (0 x 0) or has both
      sides positive. */
  predicate Valid(w: Widget)
  {
    && (w.selection == NullRect || w.selection == FromCorners(w.start, w.end).Normalized())
    && (w.cropping ==> w.image.Some?)
    && (w.image.Some? ==> (w.image.value.IsNull() <==> w.image.value == NullImage))
  }

  /** Whether the context menu's Crop entry is enabled. */
  predicate CropEnabled(w: Widget)
  {
    !w.selection.IsNull()
  }

  /** Loading a file whose decoding gave `decoded`. A null decoding is rejected with a
      warning and changes nothing; otherwise the image is replaced and the selection
      cleared, and the drag fields are left as they were. */
  function LoadImage(w: Widget, decoded: Image): (r: Widget)
    ensures decoded.IsNull() ==> r == w
    ensures !decoded.IsNull() ==> r.image == Some(decoded) && r.selection == NullRect
    ensures (r.cropping, r.start, r.end) == (w.cropping, w.start, w.end)
  {
    if decoded.IsNull() then w
    else w.(image := Some(decoded), selection := NullRect)
  }

  /** A mouse press at `pos`. Without an image nothing happens. A left press starts a
      drag at `pos` and clears the selection; a right press only opens the context menu,
      which does not change the state. */
  function Press(w: Widget, button: Button, pos: Point): (r: Widget)
    ensures w.image.None? || button != LeftButton ==> r == w
    ensures w.image.Some? && button == LeftButton ==>
              r.cropping && r.start == pos && r.end == pos && r.selection == NullRect
    ensures r.image == w.image
  {
    if w.image.None? then w
    else if button == LeftButton then w.(cropping := true, start := pos, end := pos, selection := NullRect)
    else w
  }

  /** A mouse move to `pos`. Outside a drag nothing happens; during a drag the end point
      follows the mouse and the selection is redrawn from the start point to `pos`. */
  function Move(w: Widget, pos: Point): (r: Widget)
    ensures !w.cropping ==> r == w
    ensures w.cropping ==> r.end == pos && r.selection == FromCorners(w.start, pos).Normalized()
    ensures (r.image, r.cropping, r.start) == (w.image, w.cropping, w.start)
  {
    if w.cropping then w.(end := pos, selection := FromCorners(w.start, pos).Normalized())
    else w
  }

  /** A mouse release. A left release ends the drag and sets the selection from the
      stored start and end points, whether or not an image is loaded and wherever the
      mouse was released; other buttons change nothing. */
  function Release(w: Widget, button: Button): (r: Widget)
    ensures button != LeftButton ==> r == w
    ensures button == LeftButton ==> !r.cropping && r.selection == FromCorners(w.start, w.end).Normalized()
    ensures (r.image, r.start, r.end) == (w.image, w.start, w.end)
  {
    if button == LeftButton then w.(cropping := false, selection := FromCorners(w.start, w.end).Normalized())
    else w
  }

  /** During a drag the selection spans the start point and the mouse position: near
      edges at their component-wise minimum, far edges at the maximum (with Qt 5's
      exception for a far corner exactly one pixel before the near one). */
  lemma MoveSpansDrag(w: Widget, pos: Point)
    requires w.cropping
    ensures var r := Move(w, pos);
      && (r.selection.left, r.selection.right) == SpanOf(w.start.x, pos.x)
      && (r.selection.top, r.selection.bottom) == SpanOf(w.start.y, pos.y)
  {
    DragRectangle(w.start, pos);
  }

  /** After a left release the selection spans the stored start and end points. */
  lemma ReleaseSpansDrag(w: Widget)
    ensures var r := Release(w, LeftButton);
      && (r.selection.left, r.selection.right) == SpanOf(w.start.x, w.end.x)
      && (r.selection.top, r.selection.bottom) == SpanOf(w.start.y, w.end.y)
      && r.selection.IsNormal()
  {
    DragRectangle(w.start, w.end);
  }

  /** The crop action. Without an image or with a null selection it does nothing. Otherwise
      it fails when the preview is 0 pixels wide; else the image becomes the part of it
      the selection maps to and the selection is cleared. */
  function Crop(w: Widget, layout: Layout): (r: Result<Widget, Fault>)
    ensures w.image.None? || !CropEnabled(w) ==> r == Success(w)
    ensures w.image.Some? && CropEnabled(w) && layout.previewWidth == 0 ==> r == Failure(DivisionByZero)
    ensures w.image.Some? && CropEnabled(w) && layout.previewWidth > 0 ==>
              && r.Success?
              && r.value.image == Some(CopySize(w.image.value, CropRect(w.selection, layout, w.image.value.width)))
              && r.value.selection == NullRect
              && (r.value.cropping, r.value.start, r.value.end) == (w.cropping, w.start, w.end)
  {
    if w.image.None? || w.selection.IsNull() then Success(w)
    else if layout.previewWidth == 0 then Failure(DivisionByZero)
    else
      var img := w.image.value;
      var cropped := CopySize(img, CropRect(w.selection, layout, img.width));
      Success(w.(image := Some(cropped), selection := NullRect))
  }

  /** The events the label reacts to. */
  datatype Event =
    | Load(decoded: Image)
    | MousePress(button: Button, pos: Point)
    | MouseMove(pos: Point)
    | MouseRelease(button: Button)
    | CropAction(layout: Layout)

  function Step(w: Widget, e: Event): Result<Widget, Fault>
  {
    match e
    case Load(decoded) => Success(LoadImage(w, decoded))
    case MousePress(button, pos) => Success(Press(w, button, pos))
    case MouseMove(pos) => Success(Move(w, pos))
    case MouseRelease(button) => Success(Release(w, button))
    case CropAction(layout) => Crop(w, layout)
  }

  /** The state after a sequence of events, stopping at the first fault. */
  function Run(w: Widget, events: seq<Event>): Result<Widget, Fault>
    decreases |events|
  {
    if events == [] then Success(w)
    else match Step(w, events[0])
      case Failure(f) => Failure(f)
      case Success(w') => Run(w', events[1..])
  }

  lemma InitialValid()
    ensures Valid(Initial)
  {
  }

  /** Every event keeps the state valid. */
  lemma StepPreservesValid(w: Widget, e: Event)
    requires Valid(w)
    ensures Step(w, e).Success? ==> Valid(Step(w, e).value)
  {
    match e
    case Load(decoded) =>
      assert Step(w, e) == Success(LoadImage(w, decoded));
    case MousePress(button, pos) =>
      assert Step(w, e) == Success(Press(w, button, pos));
    case MouseMove(pos) =>
      var r := Move(w, pos);
      assert Step(w, e) == Success(r);
      assert r.selection == w.selection || r.selection == FromCorners(r.start, r.end).Normalized();
    case MouseRelease(button) =>
      var r := Release(w, button);
      assert Step(w, e) == Success(r);
      assert r.selection == w.selection || r.selection == FromCorners(r.start, r.end).Normalized();
    case CropAction(layout) =>
      CropPreservesValid(w, layout);
  }

  lemma CropPreservesValid(w: Widget, layout: Layout)
    requires Valid(w)
    ensures Crop(w, layout).Success? ==> Valid(Crop(w, layout).value)
  {
    if w.image.Some? && CropEnabled(w) && layout.previewWidth > 0 {
      var img := w.image.value;
      var c := CopySize(img, CropRect(w.selection, layout, img.width));
      assert Crop(w, layout) == Success(w.(image := Some(c), selection := NullRect));
    }
  }

  /** Every sequence of events from a valid state ends in a valid state. */
  lemma {:induction false} RunPreservesValid(w: Widget, events: seq<Event>)
    requires Valid(w)
    ensures Run(w, events).Success? ==> Valid(Run(w, events).value)
    decreases |events|
  {
    if events != [] {
      StepPreservesValid(w, events[0]);
      if Step(w, events[0]).Success? {
        RunPreservesValid(Step(w, events[0]).value, events[1..]);
      }
    }
  }

  /** In a valid state the selection never has a negative size. */
  lemma ValidSelectionIsNormal(w: Widget)
    requires Valid(w)
    ensures w.selection.IsNormal()
  {
  }

  /** Pressing and releasing the left button without moving selects the single pixel
      under the mouse: a 1 x 1 rectangle, which is not null, so Crop becomes enabled. */
  lemma ClickSelectsOnePixel(w: Widget, p: Point)
    requires w.image.Some?
    ensures var r := Release(Press(w, LeftButton, p), LeftButton);
      && r.selection == Rect(p.x, p.y, p.x, p.y)
      && r.selection.Width() == 1 && r.selection.Height() == 1
      && CropEnabled(r)
  {
  }

  /** A full drag from p to q selects the rectangle spanned by the two points. */
  lemma DragSelects(w: Widget, p: Point, q: Point)
    requires w.image.Some?
    ensures var r := Release(Move(Press(w, LeftButton, p), q), LeftButton);
      && !r.cropping
      && r.selection == FromCorners(p, q).Normalized()
      && (r.selection.left, r.selection.right) == SpanOf(p.x, q.x)
      && (r.selection.top, r.selection.bottom) == SpanOf(p.y, q.y)
      && (CropEnabled(r) <==> q != Point(p.x - 1, p.y - 1))
  {
    var pressed := Press(w, LeftButton, p);
    assert pressed.cropping && pressed.start == p;
    var moved := Move(pressed, q);
    assert moved.start == p && moved.end == q;
    assert Release(moved, LeftButton).selection == FromCorners(p, q).Normalized();
    DragRectangle(p, q);
    DragRectangleNull(p, q);
  }

  /** The release has no image check: releasing on a fresh label selects the pixel at the
      origin and enables Crop. Nothing can act on that selection: cropping does nothing
      without an image, a press of any button changes nothing, and a successful load
      clears it. */
  lemma ReleaseWithoutImage(layout: Layout, button: Button, pos: Point, decoded: Image)
    ensures var r := Release(Initial, LeftButton);
      && r.selection == Rect(0, 0, 0, 0)
      && CropEnabled(r)
      && Crop(r, layout) == Success(r)
      && Press(r, button, pos) == r
      && (!decoded.IsNull() ==> !CropEnabled(LoadImage(r, decoded)))
  {
  }

  /** An enabled crop with a preview replaces the image by its copy of the mapped
      rectangle and clears the selection, leaving every other field as it was. */
  lemma CropCopiesMappedRect(w: Widget, layout: Layout, rect: Rect)
    requires w.image.Some? && CropEnabled(w) && layout.previewWidth > 0
    requires CropRect(w.selection, layout, w.image.value.width) == rect
    ensures Crop(w, layout) == Success(w.(image := Some(CopySize(w.image.value, rect)), selection := NullRect))
  {
    var r := Crop(w, layout);
    assert r.Success? && r.value.image == Some(CopySize(w.image.value, rect));
    assert r.value.selection == NullRect;
  }

  /** A selection lying wholly in the letterbox left of the preview still crops: the origin
      is raised to the preview's left edge but the size is kept, so the crop takes real
      pixels from the image's left edge. Label 800 x 600, preview and image 400 x 600,
      selection (10, 10, 40, 40). */
  lemma LeftLetterboxSelectionCrops()
    ensures var w := Widget(Some(Image(400, 600)), false, Point(10, 10), Point(49, 49), FromSize(10, 10, 40, 40));
      Crop(w, Layout(800, 600, 400, 600)) == Success(w.(image := Some(Image(40, 40)), selection := NullRect))
  {
    var layout := Layout(800, 600, 400, 600);
    var sel := FromSize(10, 10, 40, 40);
    assert PreviewOffset(layout) == Point(200, 0);
    assert ClipToPreview(sel, layout) == Box(0, 10, 40, 40);
    TruncDivOfMultiple(0, 400);
    TruncDivOfMultiple(10, 400);
    TruncDivOfMultiple(40, 400);
    assert ScaleToOriginal(Box(0, 10, 40, 40), 400, 400) == Box(0, 10, 40, 40);
    var rect := FromSize(0, 10, 40, 40);
    assert CropRect(sel, layout, 400) == rect;
    assert CopySize(Image(400, 600), rect) == Image(40, 40);
    CropCopiesMappedRect(Widget(Some(Image(400, 600)), false, Point(10, 10), Point(49, 49), sel), layout, rect);
  }

  /** A selection past the preview's right edge, with the preview at the image's own
      size, maps to a rectangle of negative width that is not null, so the crop leaves a
      null image. Label 800 x 600, preview and image 400 x 600, selection (700, 10, 20, 20). */
  lemma CropPastRightEdgeLeavesNullImage()
    ensures var w := Widget(Some(Image(400, 600)), false, Point(700, 10), Point(719, 29), FromSize(700, 10, 20, 20));
      Crop(w, Layout(800, 600, 400, 600)) == Success(w.(image := Some(NullImage), selection := NullRect))
  {
    var layout := Layout(800, 600, 400, 600);
    var sel := FromSize(700, 10, 20, 20);
    assert PreviewOffset(layout) == Point(200, 0);
    assert ClipToPreview(sel, layout) == Box(500, 10, -100, 20);
    TruncDivOfMultiple(500, 400);
    TruncDivOfMultiple(-100, 400);
    TruncDivOfMultiple(10, 400);
    TruncDivOfMultiple(20, 400);
    assert CropRect(sel, layout, 400) == FromSize(500, 10, -100, 20);
  }

  /** A drag that ends one pixel left of its start selects a rectangle 0 pixels wide that
      is not null, so Crop is enabled. Press at (300, 10), move to (299, 50), release. */
  lemma ZeroWidthDragSelects(img: Image)
    ensures var w := Release(Move(Press(Widget(Some(img), false, Point(0, 0), Point(0, 0), NullRect),
                                        LeftButton, Point(300, 10)), Point(299, 50)), LeftButton);
      && w == Widget(Some(img), false, Point(300, 10), Point(299, 50), Rect(300, 10, 299, 50))
      && w.selection.Width() == 0 && w.selection.Height() == 41
      && CropEnabled(w)
  {
    assert FromCorners(Point(300, 10), Point(299, 50)).Normalized() == Rect(300, 10, 299, 50);
  }

  /** The empty selection of `ZeroWidthDragSelects` is cropped to a null image. Label
      800 x 600, preview and image 400 x 600. */
  lemma ZeroWidthSelectionNullsImage()
    ensures var w := Widget(Some(Image(400, 600)), false, Point(300, 10), Point(299, 50), Rect(300, 10, 299, 50));
      Crop(w, Layout(800, 600, 400, 600)) == Success(w.(image := Some(NullImage), selection := NullRect))
  {
    var layout := Layout(800, 600, 400, 600);
    var sel := Rect(300, 10, 299, 50);
    assert sel.Width() == 0 && sel.Height() == 41 && !sel.IsNull();
    assert PreviewOffset(layout) == Point(200, 0);
    assert ClipToPreview(sel, layout) == Box(100, 10, 0, 41);
    TruncDivOfMultiple(100, 400);
    TruncDivOfMultiple(10, 400);
    TruncDivOfMultiple(0, 400);
    TruncDivOfMultiple(41, 400);
    var rect := FromSize(100, 10, 0, 41);
    assert CropRect(sel, layout, 400) == rect;
    assert CopySize(Image(400, 600), rect) == NullImage;
    CropCopiesMappedRect(Widget(Some(Image(400, 600)), false, Point(300, 10), Point(299, 50), sel), layout, rect);
  }

  /** Once a crop has left a null image, its preview is 0 pixels wide and the next crop
      of a fresh selection is a division by zero. */
  lemma CropOfNullImageFails(p: Point, labelWidth: nat, labelHeight: nat)
    ensures var w := Release(Press(Widget(Some(NullImage), false, p, p, NullRect), LeftButton, p), LeftButton);
      Crop(w, Layout(labelWidth, labelHeight, 0, 0)) == Failure(DivisionByZero)
  {
  }

  /** When the preview is twice the image's size, a one-pixel selection past the preview's
      bottom-right corner clips to a size of -1 by -1, which truncates to 0 by 0: the
      mapped rectangle is null, so the copy is the whole image and only the selection is
      cleared. Label 800 x 600, preview 400 x 300, image 200 x 150, selection
      (601, 451, 1, 1). */
  lemma TinySelectionPastCornerKeepsImage()
    ensures var w := Widget(Some(Image(200, 150)), false, Point(601, 451), Point(601, 451), FromSize(601, 451, 1, 1));
      Crop(w, Layout(800, 600, 400, 300)) == Success(w.(selection := NullRect))
  {
    var layout := Layout(800, 600, 400, 300);
    var sel := FromSize(601, 451, 1, 1);
    assert PreviewOffset(layout) == Point(200, 150);
    assert ClipToPreview(sel, layout) == Box(401, 301, -1, -1);
    TruncDivIsTruncation(401 * 200, 400);
    TruncDivIsTruncation(301 * 200, 400);
    TruncDivIsTruncation(-1 * 200, 400);
    assert CropRect(sel, layout, 200).IsNull();
  }

  /** The scale factor comes from the widths alone. When the preview's width was rounded
      down more than its height, the factor is too large vertically and a crop can make
      the image taller: a 3 x 1000 image previewed at 1 x 600 in an 800 x 600 label,
      with the whole preview selected, becomes 3 x 1800. */
  lemma CropCanGrowHeight()
    ensures var w := Widget(Some(Image(3, 1000)), false, Point(399, 0), Point(399, 599), FromSize(399, 0, 1, 600));
      Crop(w, Layout(800, 600, 1, 600)) == Success(w.(image := Some(Image(3, 1800)), selection := NullRect))
  {
    var layout := Layout(800, 600, 1, 600);
    var sel := FromSize(399, 0, 1, 600);
    assert PreviewOffset(layout) == Point(399, 0);
    assert ClipToPreview(sel, layout) == Box(0, 0, 1, 600);
    TruncDivOfMultiple(0, 1);
    TruncDivOfMultiple(3, 1);
    TruncDivOfMultiple(1800, 1);
    assert ScaleToOriginal(Box(0, 0, 1, 600), 3, 1) == Box(0, 0, 3, 1800);
    var rect := FromSize(0, 0, 3, 1800);
    assert CropRect(sel, layout, 3) == rect;
    assert CopySize(Image(3, 1000), rect) == Image(3, 1800);
    CropCopiesMappedRect(Widget(Some(Image(3, 1000)), false, Point(399, 0), Point(399, 599), sel), layout, rect);
  }

  /** Cropping never makes the image wider, and never taller when the preview's height is
      at most the original's height scaled by the width factor (which holds when the
      preview keeps the original's aspect ratio exactly). */
  lemma CropNeverEnlarges(w: Widget, layout: Layout)
    requires w.image.Some?
    requires Crop(w, layout).Success?
    ensures Crop(w, layout).value.image.Some?
    ensures Crop(w, layout).value.image.value.width <= w.image.value.width
    ensures layout.previewHeight * w.image.value.width <= w.image.value.height * layout.previewWidth ==>
              Crop(w, layout).value.image.value.height <= w.image.value.height
  {
    var img := w.image.value;
    if CropEnabled(w) {
      var pw := layout.previewWidth;
      var rect := CropRect(w.selection, layout, img.width);
      CropRectBounds(w.selection, layout, img.width);
      if layout.previewHeight * img.width <= img.height * pw {
        TruncDivMonotone(layout.previewHeight * img.width, img.height * pw, pw);
        TruncDivOfMultiple(img.height, pw);
      }
    }
  }

  /** The Crop entry is enabled exactly when the selection has a non-zero width or
      height. */
  lemma CropEnabledMeansNotNull(w: Widget)
    ensures CropEnabled(w) <==> w.selection.Width() != 0 || w.selection.Height() != 0
  {
  }

  /** Once an image is shown, the Crop entry is enabled exactly when cropping would
      change the state. */
  lemma CropEnabledExactlyWhenCropActs(w: Widget, layout: Layout)
    requires w.image.Some? && layout.previewWidth > 0
    ensures CropEnabled(w) <==> Crop(w, layout) != Success(w)
  {
    if CropEnabled(w) {
      EnabledCropClearsSelection(w, layout);
    }
  }

  lemma EnabledCropClearsSelection(w: Widget, layout: Layout)
    requires w.image.Some? && layout.previewWidth > 0 && CropEnabled(w)
    ensures Crop(w, layout).Success? && Crop(w, layout).value.selection != w.selection
  {
    assert w.selection != NullRect by {
      assert NullRect.IsNull();
    }
    var r := Crop(w, layout);
    assert r.Success? && r.value.selection == NullRect;
  }

  /** An enabled crop clears the selection, which disables Crop: a second crop, with
      whatever layout the cropped image is then shown in, changes nothing. */
  lemma CropTwiceIsNoop(w: Widget, layout: Layout, layout2: Layout)
    requires w.image.Some? && CropEnabled(w) && layout.previewWidth > 0
    ensures Crop(w, layout).Success?
    ensures Crop(Crop(w, layout).value, layout2) == Crop(w, layout)
  {
    EnabledCropClearsSelection(w, layout);
    var c := Crop(w, layout).value;
    assert c.selection == NullRect;
    assert !CropEnabled(c) by {
      assert NullRect.IsNull();
    }
  }

  /** A crop of the whole visible preview keeps the image's size when the preview has the
      original's aspect ratio. */
  lemma CropWholePreview(w: Widget, layout: Layout)
    requires w.image.Some? && !w.image.value.IsNull()
    requires layout.previewWidth > 0
    requires layout.previewHeight * w.image.value.width == w.image.value.height * layout.previewWidth
    requires var off := PreviewOffset(layout);
      w.selection == FromSize(off.x, off.y, layout.previewWidth, layout.previewHeight)
    ensures CropEnabled(w)
    ensures Crop(w, layout) == Success(w.(selection := NullRect))
  {
    FullPreviewSelection(layout, w.image.value);
  }
}
