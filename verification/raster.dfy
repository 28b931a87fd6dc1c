/** The in-memory raster and alpha-mask values the image operations work on.
    An image is a numpy array of shape (height, width, channels) holding
    8-bit samples; a mask is a two-dimensional array of floats. */
module Raster {

  /** A raster with its numpy shape kept explicitly, so that an image with no
      rows still has a width and a channel count. `px[row][col][channel]`. */
  datatype Image = Image(height: nat, width: nat, channels: nat, px: seq<seq<seq<int>>>)
  {
    /** The sample grid has exactly the declared shape. */
    predicate Valid()
    {
      && |px| == height
      && (forall i :: 0 <= i < height ==> |px[i]| == width)
      && (forall i, j :: 0 <= i < height && 0 <= j < width ==> |px[i][j]| == channels)
    }

    /** The shape is right and every sample fits an unsigned byte (numpy's
        `uint8`, the type `cv2.imread` produces). */
    predicate IsBytes()
    {
      && Valid()
      && forall i, j, k :: 0 <= i < height && 0 <= j < width && 0 <= k < channels ==>
           0 <= px[i][j][k] <= 255
    }
  }

  /** An all-zero image of the given shape. */
  function Blank(height: nat, width: nat, channels: nat): (img: Image)
    ensures img.height == height && img.width == width && img.channels == channels
    ensures img.IsBytes()
  {
    Image(height, width, channels,
      seq(height, i => seq(width, j => seq(channels, k => 0))))
  }

  /** A per-pixel coverage mask, `alpha[row][col]`. */
  datatype Mask = Mask(height: nat, width: nat, alpha: seq<seq<real>>)
  {
    predicate Valid()
    {
      && |alpha| == height
      && forall i :: 0 <= i < height ==> |alpha[i]| == width
    }

    /** Every coverage value lies in [0, 1]. */
    predicate InUnitRange()
    {
      && Valid()
      && forall i, j :: 0 <= i < height && 0 <= j < width ==> 0.0 <= alpha[i][j] <= 1.0
    }

    /** The mask has the same rows and columns as `img`. */
    predicate Fits(img: Image)
    {
      height == img.height && width == img.width
    }
  }
}
