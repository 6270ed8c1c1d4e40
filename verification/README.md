# Fast Image Crop & Resize — a Dafny model of the image label

Fast Image Crop & Resize is a small desktop tool. The user drops an image onto a label,
drags a rectangle over the scaled preview, crops the original image to that rectangle,
and saves the result at a chosen percentage of its size. All of this is done by one
widget, `ImageLabel` in `src/main.py`. This project models that widget's logic and
proves properties of it:

- **the drop filter** (`DropFilter`): which drags are accepted, by the first URL's
  lower-cased extension, and the drag it cannot handle;
- **the selection state machine** (`ImageLabel`): the widget holds the loaded image, the
  `cropping` flag, the start and end points and the selection rectangle. Load, the three
  mouse events and the crop action change them, and the Crop menu entry is enabled by
  the selection;
- **the crop coordinate mapping** (`CropMapping`, `Arith`): a selection in label
  coordinates goes through the preview's centring offset, clipping to the preview, and
  scaling by `originalWidth / previewWidth` with truncation toward zero;
- **the save target size** (`Save`): the chosen percentage and the size the image is
  asked to fit, each side scaled by the percentage and rounded down.

`Geometry` holds the Qt value types the widget uses: `QPoint`, `QRect` with inclusive
corners and Qt 5's `normalized()`, and the size produced by `QImage::copy`. Its header
comment lists each assumption made about Qt 5's rectangles and images. `Wrappers` holds `Option` and `Result`.

The model follows the code in these places:

- A drag from `p` to `q` selects a rectangle `|q - p| + 1` pixels wide, not `|q - p|`,
  because a QRect built from two points includes both corners. The exception is a drag
  that ends exactly one pixel before its start on an axis: there the width (or height)
  is 0 (`Geometry.DragRectangle`).
- In the worked crop example (label 800 x 600, preview 800 x 400, original 1000 pixels
  wide, selection (100, 150, 200, 100)), the mapped rectangle is (125, 62, 250, 125), not
  an origin near (0, 0). The vertical offset of 100 is subtracted before scaling, and
  62.5 truncates to 62 (`CropMapping.WorkedExample`).
- Qt 5's `normalized()` swaps an axis only when the far corner lies more than one pixel
  before the near one. So a drag of exactly one pixel up and to the left leaves a null
  selection, and Crop stays disabled (`Geometry.DragRectangleNull`).
- When a drag ends one pixel before its start on one axis only, the selection is empty
  but not null, so Crop is enabled (`ImageLabel.ZeroWidthDragSelects`). The crop then
  builds a rectangle 0 pixels wide, and its copy is a null image
  (`ImageLabel.ZeroWidthSelectionNullsImage`). So Crop can be enabled on an empty
  selection, and cropping it does not leave the image unchanged; the next crop over the
  null image fails as described below.
- The drop filter tests only that a drag carries a URL list, then reads the list's first
  URL without checking that there is one. A list that is present but empty (Qt allows
  it) makes the filter fail with an index error (`DropFilter.DragEnter`,
  `DropFilter.EmptyUriListFails`).
- A left release sets the selection from the stored start and end points even when no
  image is loaded (`ImageLabel.ReleaseWithoutImage`). Nothing can act on that selection:
  without an image a press of any button returns before the context menu could open, and
  a successful load clears the selection. Only the outline drawn by `paintEvent` shows it.
- Clipping to the preview is one-sided. The origin is raised to the preview's left and top
  edges, but the size is not reduced by the amount raised. So a selection lying wholly in
  the letterbox left of the preview still crops real pixels from the image's left edge
  (`CropMapping.LetterboxSelectionKeepsSize`, `ImageLabel.LeftLetterboxSelectionCrops`).
- A selection past the preview's right or bottom edge clips to a negative size. The mapped
  rectangle then has a side of 0 or less. If it is not null, the copy is a null image
  (`ImageLabel.CropPastRightEdgeLeavesNullImage`). If both sides truncate to 0, the
  rectangle is null and the copy is the whole image, so only the selection is cleared
  (`ImageLabel.TinySelectionPastCornerKeepsImage`).
- After a crop has left a null image, a new selection can still be drawn over it, and the
  next crop divides by a preview width of 0, raising `ZeroDivisionError`. This is modelled
  as the `DivisionByZero` fault (`ImageLabel.Crop`, `ImageLabel.CropOfNullImageFails`).
- The vertical components are scaled by the width factor. When the preview's width was
  rounded down more than its height, a crop of the whole preview makes the image taller
  than it was (`ImageLabel.CropCanGrowHeight`).

## Model

| member | source | states |
|---|---|---|
| DropFilter.DragEnter | src/main.py:41-52 | a drag without a URL list is ignored; a drag whose URL list is present but empty fails on indexing the first URL; otherwise it is accepted exactly when the first URL's lower-cased path ends in .png, .jpg, .jpeg, .bmp or .gif, and an accepted path has at least four characters |
| DropFilter.EmptyUriListFails | src/main.py:42-43 | a drag carrying an empty URL list makes the filter fail with an index error |
| DropFilter.Accepts | src/main.py:43-44 | a path passes when its lower-cased form ends in one of the five extensions |
| DropFilter.AcceptedPathIsLong | src/main.py:44 | an accepted path has at least four characters, the length of the shortest extension |
| DropFilter.Lower | src/main.py:43 | lower-casing keeps the length and maps each character on its own |
| DropFilter.EndsWithAny | src/main.py:44 | `endswith` with a tuple holds exactly when some suffix of the tuple ends the string |
| DropFilter.LowerIdempotent | src/main.py:43 | lower-casing a lower-cased path changes nothing |
| DropFilter.AcceptsIgnoresCase | src/main.py:43-44 | a path is accepted exactly when its lower-case form is |
| DropFilter.AcceptsCharacterisation | src/main.py:43-44 | a path is accepted exactly when some tail of it, lower-cased, is one of the five extensions |
| DropFilter.AnyCasingAccepted | src/main.py:43-44 | any name followed by any letter-casing of an image extension is accepted |
| DropFilter.AcceptsUpperCaseExample | src/main.py:43-44 | "a.JPG" is accepted |
| DropFilter.AcceptsMixedCaseExample | src/main.py:43-44 | "holiday.Jpeg" is accepted |
| DropFilter.RejectsOtherExtension | src/main.py:44 | "a.tiff" is rejected |
| DropFilter.RejectsExtensionWithoutDot | src/main.py:44 | "png" is rejected: the extensions include the dot |
| Geometry.Rect.Normalized | src/main.py:112 | the normalized rectangle has no negative size, is null exactly when the drawn one is, and leaves a rectangle without negative size unchanged |
| Geometry.FromSize | src/main.py:169-174 | QRect(x, y, w, h) has origin (x, y), width w and height h, and is null exactly when w and h are both 0 |
| Geometry.FromCorners | src/main.py:112-118 | the rectangle `QRect(start, end)` with the two points as its inclusive corners, before normalization |
| Geometry.CopySize | src/main.py:176 | copying a null rectangle keeps the whole image; a rectangle with no positive extent gives a null image; otherwise the copy has the rectangle's size |
| Geometry.DragRectangle | src/main.py:112 | the normalized rectangle between two points spans their minimum and maximum on each axis and is the absolute difference plus one wide, except where the far corner is exactly one pixel before the near one |
| Geometry.DragRectangleNull | src/main.py:112 | the drawn selection is null exactly when the mouse is one pixel up and to the left of the start |
| Arith.FloorDiv | src/main.py:159-160 | Python's `//` by a positive divisor gives the floor quotient |
| Arith.TruncDiv | src/main.py:170-173 | `int()` of an exact quotient: the quotient rounded toward zero |
| Arith.TruncDivIsTruncation | src/main.py:170-173 | `int()` of an exact quotient rounds toward zero and keeps the numerator's sign |
| Arith.TruncVersusFloor | src/main.py:170-173 | truncation equals flooring for non-negative numerators and is one more for negative non-multiples |
| Arith.TruncDivMonotone | src/main.py:170-173 | truncated division is monotone in the numerator |
| Arith.ScaledIntervalInside | src/main.py:162-173 | an interval inside [0, bound] stays inside the scaled bound when its start and length are scaled and truncated separately |
| CropMapping.PreviewOffset | src/main.py:159-160 | the preview's offset is the floor of half the label's leftover space on each axis |
| CropMapping.ClipToPreview | src/main.py:162-165 | the clipped box starts at or after the shifted selection origin and at 0 or more, never grows, ends by the preview's edge, and is cut only where it would pass that edge |
| CropMapping.ScaleToOriginal | src/main.py:167-173 | every component of the clipped box, the vertical ones included, multiplied by original width / preview width and truncated toward zero |
| CropMapping.CropRect | src/main.py:159-174 | the rectangle of the original image the crop copies: the selection shifted by the preview offset, clipped, then scaled |
| CropMapping.ScaleToOriginalTruncates | src/main.py:167-174 | every mapped component is the exact product with originalWidth / previewWidth rounded toward zero, the vertical components included |
| CropMapping.CropRectBounds | src/main.py:162-174 | the mapped origin is not negative; the mapped width is at most the original width; a non-negative clipped size maps inside the original width and the scaled preview height; a negative one never maps to a positive size |
| CropMapping.FullPreviewSelection | src/main.py:159-174 | selecting exactly the visible preview maps to the whole original when the preview keeps the original's aspect ratio |
| CropMapping.WorkedExample | src/main.py:159-174 | label 800 x 600, preview 800 x 400, original 1000 wide, selection (100, 150, 200, 100) maps to (125, 62, 250, 125) |
| CropMapping.SelectionPastRightEdge | src/main.py:164-173 | a selection starting past the preview's right edge clips to a negative width and maps to a width of at most 0 |
| ImageLabel.LoadImage | src/main.py:70-90 | a null decoding changes nothing; otherwise the image is replaced and the selection cleared, and the drag fields are kept |
| ImageLabel.Press | src/main.py:95-107 | without an image, or for a button other than the left one, nothing changes; a left press starts a drag at the position with the selection cleared |
| ImageLabel.Move | src/main.py:109-113 | outside a drag nothing changes; during a drag the end follows the mouse and the selection is redrawn from the start |
| ImageLabel.MoveSpansDrag | src/main.py:109-113 | during a drag the selection spans the start point and the mouse position |
| ImageLabel.Release | src/main.py:115-119 | a left release ends the drag and sets the selection from the stored points, with or without an image; other buttons change nothing |
| ImageLabel.ReleaseSpansDrag | src/main.py:115-119 | after a left release the selection spans the stored start and end and has no negative size |
| ImageLabel.CropEnabled | src/main.py:138 | the Crop entry is enabled when the selection is not null |
| ImageLabel.CropEnabledMeansNotNull | src/main.py:138 | the Crop entry is enabled exactly when the selection has a non-zero width or height, so a selection 0 pixels wide but of positive height still enables it |
| ImageLabel.CropEnabledExactlyWhenCropActs | src/main.py:138-152 | with an image and a preview, the Crop entry is enabled exactly when cropping would change the state |
| ImageLabel.EnabledCropClearsSelection | src/main.py:151-187 | an enabled crop with a preview succeeds and leaves a different selection than before |
| ImageLabel.Crop | src/main.py:151-188 | without an image or with a null selection nothing changes; a preview width of 0 is a division by zero; otherwise the image becomes the copy of the mapped rectangle and the selection is cleared |
| ImageLabel.InitialValid | src/main.py:19-23 | a fresh label satisfies the state invariant |
| ImageLabel.StepPreservesValid | src/main.py:70-188 | each event keeps the invariant: the selection is null or spans the stored points, a drag runs only with an image, and an image is 0 x 0 or has both sides positive |
| ImageLabel.CropPreservesValid | src/main.py:151-188 | the crop keeps the invariant |
| ImageLabel.RunPreservesValid | src/main.py:70-188 | every sequence of events from a valid state ends in a valid state |
| ImageLabel.ValidSelectionIsNormal | src/main.py:112-118 | in a valid state the selection never has a negative size |
| ImageLabel.ClickSelectsOnePixel | src/main.py:99-118 | a press and release at one point selects that 1 x 1 pixel and enables Crop |
| ImageLabel.DragSelects | src/main.py:99-118 | press, move and release select the rectangle spanned by the two points; Crop is enabled unless the end is one pixel up-left of the start |
| ImageLabel.ReleaseWithoutImage | src/main.py:95-119 | on a fresh label a release selects the origin pixel, yet a crop does nothing, a press of any button changes nothing, and a successful load clears the selection again |
| ImageLabel.CropCopiesMappedRect | src/main.py:151-187 | an enabled crop with a preview replaces the image by its copy of the mapped rectangle, clears the selection, and keeps every other field |
| CropMapping.LetterboxSelectionKeepsSize | src/main.py:162-164 | a selection wholly left of the preview is moved to the preview's left edge with its width kept |
| ImageLabel.LeftLetterboxSelectionCrops | src/main.py:159-187 | label 800 x 600, preview and image 400 x 600, selection (10, 10, 40, 40) crops the image to 40 x 40 |
| ImageLabel.ZeroWidthDragSelects | src/main.py:95-138 | press at (300, 10), move to (299, 50) and release select a rectangle 0 pixels wide and 41 high that is not null, so Crop is enabled |
| ImageLabel.ZeroWidthSelectionNullsImage | src/main.py:151-187 | label 800 x 600, preview and image 400 x 600, that 0-wide selection crops the image to a null image |
| ImageLabel.CropPastRightEdgeLeavesNullImage | src/main.py:159-187 | label 800 x 600, preview and image 400 x 600, selection (700, 10, 20, 20) leaves a null image |
| ImageLabel.CropOfNullImageFails | src/main.py:151-167 | a selection drawn over a null image makes the crop divide by a preview width of 0 |
| ImageLabel.TinySelectionPastCornerKeepsImage | src/main.py:159-187 | label 800 x 600, preview 400 x 300, image 200 x 150, selection (601, 451, 1, 1) maps to a null rectangle, so the image is kept and only the selection cleared |
| ImageLabel.CropCanGrowHeight | src/main.py:167-177 | a 3 x 1000 image previewed at 1 x 600 in an 800 x 600 label, whole preview selected, becomes 3 x 1800 |
| ImageLabel.CropTwiceIsNoop | src/main.py:152-187 | an enabled crop with a preview succeeds, and a second crop after it changes nothing |
| ImageLabel.CropNeverEnlarges | src/main.py:162-177 | a crop never widens the image, and never heightens it when the preview is no taller than the original scaled by the width factor |
| ImageLabel.CropWholePreview | src/main.py:159-187 | cropping exactly the visible preview of an aspect-preserving preview keeps the image and clears the selection |
| Save.TargetSize | src/main.py:206-208 | each side of the target is the largest whole number within the chosen percentage of the original side |
| Save.SaveImage | src/main.py:193-209 | without an image nothing is saved; a cancelled dialog saves nothing; otherwise each side of the requested size is the largest whole number within the chosen percentage of the original side, it never exceeds the original, and at the default 100 percent it is the original size |
| Save.TargetWithinOriginal | src/main.py:206-208 | the target never exceeds the original and equals it at 100 percent |
| Save.TargetMonotone | src/main.py:206-208 | a larger percentage never gives a smaller target |
| Save.TargetIsTruncation | src/main.py:207-208 | the target is the product truncated toward zero, as `int()` does |
| Save.HalfSizeExample | src/main.py:197-209 | a 400 x 300 image saved at 50 percent asks for 200 x 150 |
| Save.TinyImageTargetsZeroWidth | src/main.py:207 | an image narrower than 10 pixels saved at 10 percent asks for a width of 0 |

## Left out

- Qt plumbing: event objects, the mime data, `toLocalFile`, `update()`, the style sheets of the drag feedback, `dragLeaveEvent`, the label text and `paintEvent`. None of them changes the modelled state.
- `dropEvent` and the decoding done by `QImage(path)`: the model takes the decoded image as an input of the load (`ImageLabel.LoadImage`).
- The context menu itself: a right press opens it and changes no state. Its enabled flag is modelled (`ImageLabel.CropEnabled`). Its two entries run the crop and the save, which are modelled as the separate `CropAction` event (`ImageLabel.Crop`) and `Save.SaveImage`.
- Pixel contents: images are known only by their size, so smooth transformation and the fill of pixels copied from outside the image are not modelled.
- The label's size and the preview's size: the window layout sets the first, and Qt's aspect-fit scaling (`QImage.scaled` with `Qt.KeepAspectRatio`) sets the second when an image is loaded or cropped. Both are inputs of the crop.
- The aspect-fit rescale of the save action: the model stops at the size the image is asked to fit (`Save.SaveImage`). The fitted result of Qt's foreign algorithm is not modelled.
- Writing the file and whether it succeeds, the file dialog, the clock, the desktop path, the default file name and the message boxes of the save action: all of these are I/O.
- The application window `ImageCropperApp` and the program entry point: scaffolding only.
- The 32-bit range of Qt's integer coordinates and sizes: the model uses unbounded integers.
- CropMapping.ScaleToOriginal: computes the exact rational product and truncates it. The source truncates a floating-point product, which can differ by one when the exact value is an integer or very close to one.
- DropFilter.Lower: lower-cases ASCII letters only, where Python's `str.lower()` also lowers other Unicode letters.
- Save.TargetSize: uses integer floor division where the source truncates a floating-point quotient. They agree for image sides far beyond any real image's size.
