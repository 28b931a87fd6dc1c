# imageManipulation — a Dafny model of the compositing core

This project models the pure logic of three Python scripts that batch-process
raster images with OpenCV:

- **overlayImage.py** — `overlay_image_alpha` clips an overlay placed at an
  integer offset `(x, y)` (column, row) against a base image, returns early
  when the two rectangles share no pixel, and otherwise blends
  `alpha * overlay + (1 - alpha) * base` into every channel of the base over
  the clipped rectangle. `get_logo_center_coordinates` computes the offset
  that centres a logo on an image.
- **generateThumbnail.py** — `generate_thumb` chooses the size pair handed to
  the resampler, keeping or ignoring the source aspect ratio.
- **formatConversion.py** — per input file, the output name (the name up to
  its first `.`, then the output extension) and the encoder option chosen by
  the output extension.

Images are `Raster.Image(height, width, channels, px)` with
`px: seq<seq<seq<int>>>` (rows × columns × channels) and a byte-range
predicate standing for numpy's `uint8`; masks are
`Raster.Mask(height, width, alpha: seq<seq<real>>)`. Floats are exact reals;
Python's `int(...)` on a float is `Numeric.TruncReal` (truncation toward zero)
and numpy's store of a non-negative float into a `uint8` array is the same
truncation.

The blend is given twice: `Overlay.Blended` is a reference that states the
result without clipping (base pixel `(i, j)` takes the blend with overlay
pixel `(i - y, j - x)` exactly when that overlay pixel exists), and the
method `Overlay.OverlayImageAlpha` follows the source — clip, guard, then a
loop over the clipped rectangle reading the overlay and mask through the
overlay-space rectangle — and is proved to produce the reference result.
The base is passed in and returned by value; the overlay and the mask are
values the method only reads, so they are unchanged by construction.

The model follows the code on these points:

- the blend covers every channel of the base (`img.shape[2]`), so the
  overlay must have at least that many channels;
- the shape guard of `generate_thumb` (generateThumbnail.py:20) is always
  false although its message says it checks for integers: `type(...)` is a
  class object and always truthy, so the error return `1` is unreachable;
  the only failure `generate_thumb` raises itself is the division by a zero
  row count when the aspect ratio is kept;
- the mask size and the [0, 1] range are not checked by the code; they are
  the documented preconditions of `overlay_image_alpha` and appear as
  `requires` (`Overlay.BlendInputs`).

A file name without a dot gets the extension appended with no separator
(`photo` becomes `photopng`); the model reproduces this.

## Model

| member | source | states |
|---|---|---|
| Overlay.ClipAxis | overlayImage.py:23-28 | Per axis: the base span lies in [0, n) and the overlay span in [0, no); both have the same length; the overlay span starts exactly `p` before the base span, so base index `i` pairs with overlay index `i - p`; the base span is exactly the set of base indices under the overlay (and the overlay span the set of overlay indices over the base); an overlay wholly inside the base gives the spans [p, p + no) and [0, no). |
| Overlay.ClipRanges | overlayImage.py:23-32 | The early-return guard fires exactly when the placement shares no pixel with the base (either image empty, or the overlay past an edge: x >= W, y >= H, x + Wo <= 0, y + Ho <= 0), and the base rectangle alone decides it. |
| Overlay.BlendSample | overlayImage.py:36-41 | A stored sample with mask value in [0, 1] lies between the overlay and base samples, hence in 0..255; mask 0 keeps the base sample and mask 1 takes the overlay sample. |
| Overlay.MixIsBetween | overlayImage.py:37-41 | The exact-real mix `a * o + (1 - a) * b` with `a` in [0, 1] lies between `o` and `b`. |
| Overlay.Blended | overlayImage.py:12-41 | The reference result keeps the base's shape and stays a valid byte image. |
| Overlay.OverlayImageAlpha | overlayImage.py:12-41 | Clipping, the empty-rectangle guard and the loop over the clipped rectangle (overlay and mask read through the overlay-space rectangle) give exactly the reference result: every covered base pixel blended in every channel with the mask value of the overlay pixel above it, every other pixel unchanged. |
| Overlay.NoOverlapIsIdentity | overlayImage.py:31-32 | When the placement shares no pixel with the base, the result is the base unchanged. |
| Overlay.OutsidePlacementIsIdentity | overlayImage.py:23-32 | A placement with x >= W, y >= H, x + Wo <= 0 or y + Ho <= 0 leaves the base unchanged. |
| Overlay.ZeroMaskIsIdentity | overlayImage.py:36-41 | An all-zero mask leaves the base unchanged for every overlay and offset. |
| Overlay.ClipRectIsBlendedRegion | overlayImage.py:23-41 | Pixels outside the clipped base rectangle are unchanged; a pixel inside it is blended with the overlay and mask values at the matching point of the clipped overlay rectangle, which lies inside the overlay. |
| Overlay.ContainedOverlayBlendsWhole | overlayImage.py:23-41 | An overlay wholly inside the base is blended whole: overlay pixel (io, jo) lands on base pixel (y + io, x + jo). |
| Overlay.CenterOffset | overlayImage.py:44-58 | The result is (column offset, row offset), each half the size difference truncated toward zero; the two margins on an axis differ by at most one; a logo no larger than the image lies wholly inside it. |
| Overlay.CenterOffsetExample | overlayImage.py:44-58 | A 200-row, 100-column image and a 50-row, 40-column logo give the offset (30, 75). |
| Overlay.CenterOffsetTruncatesTowardZero | overlayImage.py:54-55 | A logo three columns wider than the image gets column offset -1 (truncation toward zero), not -2. |
| Numeric.TruncReal | overlayImage.py:54-55 | Python's `int` of a float: for v >= 0 the result is the largest integer not above v, for v < 0 the smallest integer not below v. |
| Numeric.TruncDiv | overlayImage.py:54-55 | Truncating division: for n >= 0 the quotient q satisfies q*d <= n < q*d + d, for n < 0 it satisfies n <= q*d < n + d, with q of the sign of n. |
| Numeric.TruncRealOfQuotient | overlayImage.py:48-55 | Python's `int` of the exact quotient n / d equals truncating integer division, for either sign of n. |
| Numeric.FloorOfQuotient | generateThumbnail.py:26-28 | The floor of an exact quotient of a non-negative integer equals Euclidean division. |
| Numeric.TruncOfScaledRatio | generateThumbnail.py:26-28 | `int(t * (n / d))` on exact reals equals truncating division of t * n by d. |
| Numeric.TruncRealTowardZero | overlayImage.py:54-55 | `int(-1.5)` is -1 (truncation toward zero), and the integer reference agrees: `TruncDiv(-3, 2)` is -1. |
| Thumbnail.AspectSize | generateThumbnail.py:26-29 | With the aspect ratio kept, the second component of the requested pair is reused unchanged; the first is `thumbShape[0] * cols / rows` truncated toward zero; a square source returns the requested pair; a non-negative request gives a non-negative first component. |
| Thumbnail.GenerateThumb | generateThumbnail.py:13-31 | The shape guard's error return 1 is unreachable; the only failure `generate_thumb` raises itself is the zero-row aspect-ratio division; without the aspect ratio the requested pair is passed to the resampler unchanged, with it the aspect-corrected pair is. |
| FormatConversion.Partition | formatConversion.py:42 | `str.partition`: the three parts join back to the input; the head has no separator; the separator part is the separator exactly when the input contains it, and otherwise it and the tail are empty. |
| FormatConversion.OutputName | formatConversion.py:42-43 | The output name ends with the output extension; before it comes the input name up to and including its first dot, or the whole name when it has no dot. |
| FormatConversion.OutputNameExamples | formatConversion.py:42-43 | `a.b.jpg` becomes `a.png` and `photo` becomes `photopng`. |
| FormatConversion.WriteOption | formatConversion.py:46-55 | An encoder option exists exactly for `png` and `jpg`; `png` gets PNG compression 9 and `jpg` JPEG quality 100 (the constants of lines 15-16), within their ranges 0..9 and 0..100. |
| FormatConversion.ConvertedWrite | formatConversion.py:42-55 | A write happens exactly for `png` and `jpg` output; its file name is the rewritten name `OutputName` gives (so it ends with the output extension) and its encoder is the option `WriteOption` chooses. |

## Left out

- File-system and command-line plumbing: every `main`, `process_folder`, `get_all_images_filenames`, `os.walk`, `os.listdir`, `os.makedirs`, the output-directory `os.path.join`, `print`, argv and `HOME` defaults.
- `cv2.imread`, `cv2.imwrite` and `cv2.resize`: foreign library calls. `cv2.resize` is a total function parameter of `Thumbnail.GenerateThumb`, so its own failures are not modelled: it raises for an empty image or a size component that is not positive, e.g. `thumbShape = (0, 256)` without aspect ratio, or a 1000-row, 1-column image with `(256, 256)`, for which `Thumbnail.AspectSize` gives `(0, 256)`. Reading and writing are not modelled, and `FormatConversion.ConvertedWrite` only describes the write that would be made.
- The default argument `keepAspectRatio=True` of `generate_thumb` (generateThumbnail.py:13): `Thumbnail.GenerateThumb` always takes the flag explicitly.
- `is_image`: it depends on `os.path.isfile`.
- `scale_logo`: two chained float roundings before `int`, consumed only by `cv2.resize`; an exact-real model would not be faithful at the rounding boundaries.
- IEEE double behaviour of the blend and the aspect-ratio product: both are exact reals here, so results near an integer boundary may differ from the program by one (mask values 0 and 1 are exact either way).
- `main`'s choice of mask (`logo[:, :, 2] / 255.0`): driver glue outside the blending contract.
- An overlay with fewer channels than the base, once the guard passes: excluded by `requires`; the code raises an index error there.
- A mask whose size differs from the overlay's: excluded by `requires` (the docstring's 'same size' precondition, overlayImage.py:16-17); depending on the placement the code then raises or blends silently, since numpy clips the mask slice and broadcasts axes of size 1.
