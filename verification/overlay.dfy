/** `overlay_image_alpha` and `get_logo_center_coordinates` of
    overlayImage.py: clipping an overlay placed at an arbitrary integer offset
    against a base image, blending it in through a coverage mask, and the
    offset that centres one image on another. */
module Overlay {
  import opened Numeric
  import opened Raster

  /** A half-open integer range [lo, hi). */
  datatype Span = Span(lo: int, hi: int)
  {
    predicate IsEmpty() { lo >= hi }

    predicate Contains(i: int) { lo <= i < hi }

    function Length(): int { hi - lo }
  }

  /** The clipped rectangle in base coordinates (`rows` × `cols`) and the
      matching rectangle in overlay coordinates (`overRows` × `overCols`). */
  datatype Clip = Clip(rows: Span, cols: Span, overRows: Span, overCols: Span)
  {
    /** The early-return guard of the source. */
    predicate IsEmpty()
    {
      rows.IsEmpty() || cols.IsEmpty() || overRows.IsEmpty() || overCols.IsEmpty()
    }
  }

  /** One axis of the clip: a base of extent `n`, an overlay of extent `no`
      whose first index sits at base index `p`. The first span is
      [max(0, p), min(n, p + no)), the second [max(0, -p), min(no, n - p)). */
  function ClipAxis(n: nat, no: nat, p: int): (r: (Span, Span))
    // no index outside either array
    ensures 0 <= r.0.lo && r.0.hi <= n
    ensures 0 <= r.1.lo && r.1.hi <= no
    // the two spans have the same extent and are shifted by exactly p
    ensures r.0.Length() == r.1.Length()
    ensures r.1.lo == r.0.lo - p
    // the base span is exactly the set of base indices the overlay covers
    ensures forall i :: r.0.Contains(i) <==> 0 <= i < n && 0 <= i - p < no
    ensures forall o :: r.1.Contains(o) <==> 0 <= o < no && 0 <= o + p < n
    // an overlay lying wholly inside the base is used whole
    ensures 0 <= p && p + no <= n ==> r.0 == Span(p, p + no) && r.1 == Span(0, no)
  {
    (Span(Max(0, p), Min(n, p + no)), Span(Max(0, -p), Min(no, n - p)))
  }

  /** The overlay placed with its top-left corner at column `x`, row `y`
      shares at least one pixel with the base. */
  predicate Overlaps(img: Image, ov: Image, x: int, y: int)
  {
    && 0 < img.height && 0 < img.width && 0 < ov.height && 0 < ov.width
    && y < img.height && x < img.width
    && 0 < y + ov.height && 0 < x + ov.width
  }

  /** Base and overlay rectangles for a placement at column `x`, row `y`. */
  function ClipRanges(img: Image, ov: Image, x: int, y: int): (c: Clip)
    ensures c.rows == ClipAxis(img.height, ov.height, y).0
    ensures c.overRows == ClipAxis(img.height, ov.height, y).1
    ensures c.cols == ClipAxis(img.width, ov.width, x).0
    ensures c.overCols == ClipAxis(img.width, ov.width, x).1
    // the guard fires exactly when the two images share no pixel
    ensures c.IsEmpty() <==> !Overlaps(img, ov, x, y)
    // the guard is decided by the base rectangle alone
    ensures c.IsEmpty() <==> c.rows.IsEmpty() || c.cols.IsEmpty()
  {
    var (rows, overRows) := ClipAxis(img.height, ov.height, y);
    var (cols, overCols) := ClipAxis(img.width, ov.width, x);
    Clip(rows, cols, overRows, overCols)
  }

  /** One stored sample: `a * o + (1 - a) * b` in exact reals, truncated
      back into the `uint8` base. */
  function BlendSample(a: real, o: int, b: int): (s: int)
    requires 0.0 <= a <= 1.0
    requires 0 <= o <= 255 && 0 <= b <= 255
    ensures Min(o, b) <= s <= Max(o, b)
    ensures 0 <= s <= 255
    ensures a == 0.0 ==> s == b
    ensures a == 1.0 ==> s == o
  {
    var v := a * (o as real) + (1.0 - a) * (b as real);
    MixIsBetween(a, o, b);
    assert v.Floor == TruncReal(v);
    TruncReal(v)
  }

  /** An interpolation weight in [0, 1] keeps the mix between its ends. */
  lemma MixIsBetween(a: real, o: int, b: int)
    requires 0.0 <= a <= 1.0
    ensures var v := a * (o as real) + (1.0 - a) * (b as real);
      Min(o, b) as real <= v <= Max(o, b) as real
  {
    var v := a * (o as real) + (1.0 - a) * (b as real);
    if o <= b {
      NonNegativeProduct(a, (b - o) as real);
      NonNegativeProduct(1.0 - a, (b - o) as real);
      assert o as real <= v <= b as real;
    } else {
      NonNegativeProduct(a, (o - b) as real);
      NonNegativeProduct(1.0 - a, (o - b) as real);
      assert b as real <= v <= o as real;
    }
  }

  /** The product of two non-negative reals is non-negative. */
  lemma NonNegativeProduct(p: real, q: real)
    requires 0.0 <= p && 0.0 <= q
    ensures 0.0 <= p * q
  {
  }

  /** Everything the source requires of its arguments: byte images, a mask
      in [0, 1] of the overlay's size, and (once the guard passes) an
      overlay with at least as many channels as the base. */
  predicate BlendInputs(img: Image, ov: Image, x: int, y: int, mask: Mask)
  {
    && img.IsBytes() && ov.IsBytes()
    && mask.InUnitRange() && mask.Fits(ov)
    && (Overlaps(img, ov, x, y) ==> img.channels <= ov.channels)
  }

  /** Base pixel (i, j) lies under overlay pixel (i - y, j - x). */
  predicate Covers(ov: Image, x: int, y: int, i: int, j: int)
  {
    0 <= i - y < ov.height && 0 <= j - x < ov.width
  }

  /** Reference value of base pixel (i, j) after the overlay: every channel
      blended with the one mask value of the overlay pixel above it, or the
      old pixel where there is none. */
  function BlendedPixel(img: Image, ov: Image, x: int, y: int, mask: Mask, i: int, j: int): seq<int>
    requires BlendInputs(img, ov, x, y, mask)
    requires 0 <= i < img.height && 0 <= j < img.width
  {
    if Covers(ov, x, y, i, j) then
      var a := mask.alpha[i - y][j - x];
      seq(img.channels, k requires 0 <= k < img.channels =>
        BlendSample(a, ov.px[i - y][j - x][k], img.px[i][j][k]))
    else
      img.px[i][j]
  }

  /** Reference result of the overlay, stated without any clipping. */
  function Blended(img: Image, ov: Image, x: int, y: int, mask: Mask): (r: Image)
    requires BlendInputs(img, ov, x, y, mask)
    ensures r.height == img.height && r.width == img.width && r.channels == img.channels
    ensures r.IsBytes()
  {
    Image(img.height, img.width, img.channels,
      seq(img.height, i requires 0 <= i < img.height =>
        seq(img.width, j requires 0 <= j < img.width => BlendedPixel(img, ov, x, y, mask, i, j))))
  }

  /** A placement sharing no pixel with the base leaves it unchanged. */
  lemma NoOverlapIsIdentity(img: Image, ov: Image, x: int, y: int, mask: Mask)
    requires BlendInputs(img, ov, x, y, mask)
    requires !Overlaps(img, ov, x, y)
    ensures Blended(img, ov, x, y, mask) == img
  {
    var r := Blended(img, ov, x, y, mask);
    forall i | 0 <= i < img.height
      ensures r.px[i] == img.px[i]
    {
      assert forall j :: 0 <= j < img.width ==> r.px[i][j] == img.px[i][j];
    }
  }

  /** In particular a placement past any edge of the base is a no-op. */
  lemma OutsidePlacementIsIdentity(img: Image, ov: Image, x: int, y: int, mask: Mask)
    requires BlendInputs(img, ov, x, y, mask)
    requires x >= img.width || y >= img.height || x + ov.width <= 0 || y + ov.height <= 0
    ensures Blended(img, ov, x, y, mask) == img
  {
    NoOverlapIsIdentity(img, ov, x, y, mask);
  }

  /** An all-zero mask leaves the base unchanged, wherever the overlay is. */
  lemma ZeroMaskIsIdentity(img: Image, ov: Image, x: int, y: int, mask: Mask)
    requires BlendInputs(img, ov, x, y, mask)
    requires forall i, j :: 0 <= i < mask.height && 0 <= j < mask.width ==> mask.alpha[i][j] == 0.0
    ensures Blended(img, ov, x, y, mask) == img
  {
    var r := Blended(img, ov, x, y, mask);
    forall i, j | 0 <= i < img.height && 0 <= j < img.width
      ensures r.px[i][j] == img.px[i][j]
    {
      if Covers(ov, x, y, i, j) {
        assert mask.alpha[i - y][j - x] == 0.0;
        assert forall k :: 0 <= k < img.channels ==> r.px[i][j][k] == img.px[i][j][k];
      }
    }
    forall i | 0 <= i < img.height
      ensures r.px[i] == img.px[i]
    {
      assert forall j :: 0 <= j < img.width ==> r.px[i][j] == img.px[i][j];
    }
  }

  /** Only pixels inside the clipped base rectangle change, and pixel (i, j)
      of that rectangle takes the overlay and mask values at the matching
      point of the overlay rectangle. */
  lemma ClipRectIsBlendedRegion(img: Image, ov: Image, x: int, y: int, mask: Mask, i: int, j: int, k: int)
    requires BlendInputs(img, ov, x, y, mask)
    requires 0 <= i < img.height && 0 <= j < img.width && 0 <= k < img.channels
    ensures var c := ClipRanges(img, ov, x, y);
      && (!c.rows.Contains(i) || !c.cols.Contains(j) ==>
            Blended(img, ov, x, y, mask).px[i][j] == img.px[i][j])
      && (c.rows.Contains(i) && c.cols.Contains(j) ==>
            var io := c.overRows.lo + (i - c.rows.lo);
            var jo := c.overCols.lo + (j - c.cols.lo);
            && c.overRows.Contains(io) && c.overCols.Contains(jo)
            && Blended(img, ov, x, y, mask).px[i][j][k] ==
                 BlendSample(mask.alpha[io][jo], ov.px[io][jo][k], img.px[i][j][k]))
  {
  }

  /** An overlay wholly inside the base is blended whole: overlay pixel
      (io, jo) lands on base pixel (y + io, x + jo). */
  lemma ContainedOverlayBlendsWhole(img: Image, ov: Image, x: int, y: int, mask: Mask, io: int, jo: int, k: int)
    requires BlendInputs(img, ov, x, y, mask)
    requires 0 <= y && y + ov.height <= img.height && 0 <= x && x + ov.width <= img.width
    requires 0 <= io < ov.height && 0 <= jo < ov.width && 0 <= k < img.channels
    ensures Blended(img, ov, x, y, mask).px[y + io][x + jo][k] ==
      BlendSample(mask.alpha[io][jo], ov.px[io][jo][k], img.px[y + io][x + jo][k])
  {
  }

  /** `overlay_image_alpha` as written: clip, return early on an empty
      rectangle, otherwise overwrite the clipped rectangle pixel by pixel,
      reading the overlay and the mask through the overlay rectangle. The
      base is passed and returned by value; the overlay and mask are only
      read. */
  method OverlayImageAlpha(img: Image, ov: Image, pos: (int, int), mask: Mask) returns (r: Image)
    requires BlendInputs(img, ov, pos.0, pos.1, mask)
    ensures r == Blended(img, ov, pos.0, pos.1, mask)
  {
    var x, y := pos.0, pos.1;
    var c := ClipRanges(img, ov, x, y);
    if c.IsEmpty() {
      NoOverlapIsIdentity(img, ov, x, y, mask);
      return img;
    }
    var px := img.px;
    var i := c.rows.lo;
    while i < c.rows.hi
      invariant c.rows.lo <= i <= c.rows.hi
      invariant |px| == img.height
      invariant forall i' :: 0 <= i' < img.height ==>
        px[i'] == if c.rows.lo <= i' < i
                  then seq(img.width, j requires 0 <= j < img.width => BlendedPixel(img, ov, x, y, mask, i', j))
                  else img.px[i']
    {
      var io := c.overRows.lo + (i - c.rows.lo);
      var row := px[i];
      var j := c.cols.lo;
      while j < c.cols.hi
        invariant c.cols.lo <= j <= c.cols.hi
        invariant |row| == img.width
        invariant forall j' :: 0 <= j' < img.width ==>
          row[j'] == if c.cols.lo <= j' < j then BlendedPixel(img, ov, x, y, mask, i, j') else img.px[i][j']
      {
        var jo := c.overCols.lo + (j - c.cols.lo);
        var a := mask.alpha[io][jo];
        var blended := seq(img.channels, k requires 0 <= k < img.channels =>
          BlendSample(a, ov.px[io][jo][k], img.px[i][j][k]));
        row := row[j := blended];
        j := j + 1;
      }
      assert forall j' :: 0 <= j' < img.width ==> row[j'] == BlendedPixel(img, ov, x, y, mask, i, j');
      px := px[i := row];
      i := i + 1;
    }
    forall i' | 0 <= i' < img.height && !c.rows.Contains(i')
      ensures px[i'] == Blended(img, ov, x, y, mask).px[i']
    {
      assert forall j :: 0 <= j < img.width ==> BlendedPixel(img, ov, x, y, mask, i', j) == img.px[i'][j];
    }
    r := Image(img.height, img.width, img.channels, px);
  }

  /** `get_logo_center_coordinates`: the (column, row) offset that centres
      `logo` on `img`. The source halves each dimension as a float, subtracts,
      and truncates with `int`; its local names call the row count a width,
      and it returns the pair swapped so that the column offset comes
      first. */
  function CenterOffset(img: Image, logo: Image): (off: (int, int))
    // truncation toward zero of half the size difference, per axis
    ensures off.0 == TruncDiv(img.width - logo.width, 2)
    ensures off.1 == TruncDiv(img.height - logo.height, 2)
    // the margins left and right (above and below) differ by at most one
    ensures -1 <= (img.width - logo.width) - 2 * off.0 <= 1
    ensures -1 <= (img.height - logo.height) - 2 * off.1 <= 1
    // a logo no larger than the image is placed wholly inside it
    ensures logo.width <= img.width ==> 0 <= off.0 && off.0 + logo.width <= img.width
    ensures logo.height <= img.height ==> 0 <= off.1 && off.1 + logo.height <= img.height
  {
    var halfRows := (img.height as real) / 2.0;
    var halfCols := (img.width as real) / 2.0;
    var halfLogoRows := (logo.height as real) / 2.0;
    var halfLogoCols := (logo.width as real) / 2.0;
    assert halfRows - halfLogoRows == ((img.height - logo.height) as real) / (2 as real);
    assert halfCols - halfLogoCols == ((img.width - logo.width) as real) / (2 as real);
    TruncRealOfQuotient(img.height - logo.height, 2);
    TruncRealOfQuotient(img.width - logo.width, 2);
    var rowOffset := TruncReal(halfRows - halfLogoRows);
    var colOffset := TruncReal(halfCols - halfLogoCols);
    (colOffset, rowOffset)
  }

  /** A 200-row, 100-column image and a 50-row, 40-column logo: the logo
      goes 30 columns in and 75 rows down. */
  lemma CenterOffsetExample()
    ensures CenterOffset(Blank(200, 100, 3), Blank(50, 40, 3)) == (30, 75)
  {
  }

  /** An oversized logo gets a negative offset, rounded toward zero: a logo
      three columns wider than the image starts one column (not two) left of
      it. */
  lemma CenterOffsetTruncatesTowardZero()
    ensures CenterOffset(Blank(10, 10, 3), Blank(10, 13, 3)).0 == -1
  {
  }
}
