/**
  The resize step of saving: the user picks a percentage and the image's width and height
  are scaled by it to give the size the image is asked to fit. The aspect-preserving
  rescale into that size, writing the file, the default file name and the dialogs' texts
  are not modelled. QInputDialog::getInt with minimum 10 and maximum 100 is taken to
  return an integer in that range or to report a cancel.

  The source computes `int(side * percent / 100)` in floating point. The exact quotient of
  two non-negative integers truncated toward zero is the floor quotient, and for image
  sides of realistic size the floating-point quotient never crosses an integer, so the
  model uses integer floor division.
 */
module Save {
  import opened Wrappers
  import opened Arith
  import opened Geometry
  import opened ImageLabel

  /** A percentage the input dialog can return. */
  type Percent = p: int | 10 <= p <= 100 witness 100

  /** The value the dialog offers first. */
  const DefaultPercent: Percent := 100

  /** The size the image is asked to fit: each side scaled by the percentage and rounded
      down, so it is the largest whole size within that percentage of the original. */
  function TargetSize(img: Image, p: Percent): (t: Image)
    ensures IsFloorQuotient(t.width, img.width * p, 100)
    ensures IsFloorQuotient(t.height, img.height * p, 100)
  {
    Image(FloorDiv(img.width * p, 100), FloorDiv(img.height * p, 100))
  }

  /** The outcome of the save action: nothing happens without an image or when the
      dialog is cancelled; otherwise the image is rescaled to fit `target`. */
  datatype SaveOutcome = NothingToSave | Cancelled | Resize(target: Image)

  /** The save action, given the dialog's answer (None when cancelled). It yields no new
      widget: the label's state, its image included, is read and never written. */
  function SaveImage(w: Widget, answer: Option<Percent>): (o: SaveOutcome)
    ensures o == NothingToSave <==> w.image.None?
    ensures o == Cancelled <==> w.image.Some? && answer.None?
    ensures o.Resize? ==>
              && o.target.width <= w.image.value.width && o.target.height <= w.image.value.height
              && o.target.width * 100 <= w.image.value.width * answer.value
              && o.target.height * 100 <= w.image.value.height * answer.value
              && w.image.value.width * answer.value < (o.target.width + 1) * 100
              && w.image.value.height * answer.value < (o.target.height + 1) * 100
    ensures w.image.Some? && answer == Some(DefaultPercent) ==> o == Resize(w.image.value)
  {
    if w.image.None? then NothingToSave
    else if answer.None? then Cancelled
    else
      TargetWithinOriginal(w.image.value, answer.value);
      Resize(TargetSize(w.image.value, answer.value))
  }

  /** The target never exceeds the original, and at 100 percent it is the original. */
  lemma TargetWithinOriginal(img: Image, p: Percent)
    ensures TargetSize(img, p).width <= img.width && TargetSize(img, p).height <= img.height
    ensures p == 100 ==> TargetSize(img, p) == img
  {
    var t := TargetSize(img, p);
    assert img.width * p <= img.width * 100 && img.height * p <= img.height * 100;
    MulCancel(t.width, img.width, 100);
    MulCancel(t.height, img.height, 100);
    if p == 100 {
      assert img.width * 100 < (img.width + 1) * 100 && img.height * 100 < (img.height + 1) * 100;
      MulCancel(img.width, t.width, 100);
      MulCancel(img.height, t.height, 100);
    }
  }

  /** A larger percentage never gives a smaller target. */
  lemma TargetMonotone(img: Image, p: Percent, q: Percent)
    requires p <= q
    ensures TargetSize(img, p).width <= TargetSize(img, q).width
    ensures TargetSize(img, p).height <= TargetSize(img, q).height
  {
    var tp := TargetSize(img, p);
    var tq := TargetSize(img, q);
    if img.width > 0 {
      MulMonotone(p, q, img.width);
    }
    if img.height > 0 {
      MulMonotone(p, q, img.height);
    }
    assert img.width * p <= img.width * q && img.height * p <= img.height * q;
    MulCancel(tp.width, tq.width, 100);
    MulCancel(tp.height, tq.height, 100);
  }

  /** The target is the truncation toward zero the source applies, which for these
      non-negative products is the floor quotient. */
  lemma TargetIsTruncation(img: Image, p: Percent)
    ensures TargetSize(img, p).width == TruncDiv(img.width * p, 100)
    ensures TargetSize(img, p).height == TruncDiv(img.height * p, 100)
  {
    TruncVersusFloor(img.width * p, 100);
    TruncVersusFloor(img.height * p, 100);
  }

  /** Saving a 400 x 300 image at 50 percent asks for 200 x 150. */
  lemma HalfSizeExample()
    ensures SaveImage(Widget(Some(Image(400, 300)), false, Point(0, 0), Point(0, 0), NullRect), Some(50))
            == Resize(Image(200, 150))
  {
    assert TargetSize(Image(400, 300), 50) == Image(200, 150);
  }

  /** An image narrower than 10 pixels saved at 10 percent asks for a width of 0. */
  lemma TinyImageTargetsZeroWidth(img: Image)
    requires 0 < img.width < 10
    ensures TargetSize(img, 10).width == 0
  {
    var t := TargetSize(img, 10);
    assert img.width * 10 < 100;
    MulCancel(t.width, 0, 100);
  }
}
