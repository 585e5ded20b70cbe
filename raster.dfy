/** The image the encoder reads: a width, a height and a red-channel value
    for every pixel, standing for a `System.Drawing.Bitmap` read through
    `GetPixel(x, y).R`. */
module Raster {
  import opened Bits

  datatype Bitmap = Bitmap(width: nat, height: nat, red: (nat, nat) -> Byte)

  /** Red values below this midpoint print as black. */
  const Threshold: nat := 128

  /** Whether the pixel at column `x`, row `y` prints: red values 0 to 127
      print, 128 to 255 do not. */
  predicate Dark(img: Bitmap, x: nat, y: nat)
    ensures Dark(img, x, y) <==> img.red(x, y) <= 127
  {
    img.red(x, y) < Threshold
  }

  /** The filled/unfilled grid of the image, row by row. */
  function OnGrid(img: Bitmap): (g: seq<seq<bool>>)
    ensures |g| == img.height
    ensures forall y :: 0 <= y < |g| ==> |g[y]| == img.width
  {
    seq(img.height, y requires 0 <= y => seq(img.width, x requires 0 <= x => Dark(img, x, y)))
  }

  /** Bytes per row: the width divided by eight, rounded up. No padding is
      needed exactly when the width is a multiple of eight. */
  function ByteWidth(width: nat): (r: nat)
    ensures width <= 8 * r < width + 8
    ensures (8 * r == width) <==> (width % 8 == 0)
  {
    if width % 8 == 0 then width / 8 else width / 8 + 1
  }
}
