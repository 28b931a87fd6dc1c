/** `generate_thumb` of generateThumbnail.py: the size pair handed to the
    resampler, with the resampler itself (`cv2.resize`) taken as a parameter.
    Float arithmetic is modelled with exact reals. */
module Thumbnail {
  import opened Numeric
  import opened Raster

  /** What `generate_thumb` can hand back: the error code of its shape
      guard, the exception raised by dividing by a zero row count, or a
      resized image. */
  datatype Thumb = ErrorCode(code: int) | ZeroDivisionError | Resized(image: Image)

  /** Python's truth value of `type(v)`: a class object, and class objects
      are always truthy. */
  predicate TypeIsTruthy(v: int)
  {
    true
  }

  /** The source's shape check, `not type(t[0]) and type(t[1])`. */
  predicate ShapeGuardFires(thumbShape: (int, int))
  {
    !TypeIsTruthy(thumbShape.0) && TypeIsTruthy(thumbShape.1)
  }

  /** The size pair used when the aspect ratio is kept: the first component
      is `int(thumbShape[0] * (cols / rows))`, the second is reused as is. */
  function AspectSize(img: Image, thumbShape: (int, int)): (size: (int, int))
    requires img.height > 0
    // the second component is passed through untouched
    ensures size.1 == thumbShape.1
    // the first is the truncating quotient thumbShape[0] * cols / rows
    ensures size.0 == TruncDiv(thumbShape.0 * img.width, img.height)
    // a square source leaves the requested pair as it is
    ensures img.width == img.height ==> size == thumbShape
    // a non-negative request gives a non-negative size
    ensures 0 <= thumbShape.0 ==> 0 <= size.0
  {
    var aspectRatio := (img.width as real) / (img.height as real);
    var thumbWidth := thumbShape.1;
    TruncOfScaledRatio(thumbShape.0, img.width, img.height);
    TruncDivOfMultiple(thumbShape.0, img.width, img.height);
    ProductSign(thumbShape.0, img.width);
    var thumbHeight := TruncReal((thumbShape.0 as real) * aspectRatio);
    (thumbHeight, thumbWidth)
  }

  /** `generate_thumb(img, thumbShape, keepAspectRatio)` with `resize`
      standing for `cv2.resize` as a function of the image and size pair. */
  function GenerateThumb(img: Image, thumbShape: (int, int), keepAspectRatio: bool,
                         resize: (Image, (int, int)) -> Image): (t: Thumb)
    // the error return of the shape guard can never happen
    ensures !t.ErrorCode?
    // the only failure generate_thumb raises itself is the aspect ratio of
    // an image with no rows (failures of the resampler are not modelled)
    ensures t.ZeroDivisionError? <==> keepAspectRatio && img.height == 0
    // without aspect ratio the requested pair goes to the resampler as is
    ensures !keepAspectRatio ==> t == Resized(resize(img, thumbShape))
    // with it, the resampler gets the aspect-corrected pair
    ensures keepAspectRatio && 0 < img.height ==>
      t == Resized(resize(img, AspectSize(img, thumbShape)))
  {
    if ShapeGuardFires(thumbShape) then
      ErrorCode(1)
    else if !keepAspectRatio then
      Resized(resize(img, thumbShape))
    else if img.height == 0 then
      ZeroDivisionError
    else
      Resized(resize(img, AspectSize(img, thumbShape)))
  }
}
