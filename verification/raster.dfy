/** Images as the compositor sees them: rectangular grids of RGBA8 pixels
    whose dimensions are `u32` values. */
module Raster {

  /** The largest value of a Rust `u32`. */
  const U32_MAX: nat := 0xFFFF_FFFF

  /** One 8-bit channel. */
  newtype u8 = x: int | 0 <= x < 256

  /** A pixel `Rgba<u8>`; `a == 0` is fully transparent. */
  datatype Pixel = Rgba(r: u8, g: u8, b: u8, a: u8)

  /** Transparent black, `Rgba([0, 0, 0, 0])`. */
  const Transparent: Pixel := Rgba(0, 0, 0, 0)

  /** An image of `width` columns and `height` rows; `rows[y][x]` is the
      pixel at column `x` of row `y`. */
  datatype Image = Image(width: nat, height: nat, rows: seq<seq<Pixel>>) {

    /** The dimensions fit in `u32` and the rows form a `width` x `height` grid. */
    predicate Valid() {
      && width <= U32_MAX
      && height <= U32_MAX
      && |rows| == height
      && forall y :: 0 <= y < |rows| ==> |rows[y]| == width
    }

    /** `get_pixel(x, y)` on an in-bounds coordinate. */
    function At(x: nat, y: nat): Pixel
      requires Valid() && x < width && y < height
    {
      rows[y][x]
    }

    /** Every pixel of the image is opaque. */
    predicate Opaque()
      requires Valid()
    {
      forall x: nat, y: nat :: x < width && y < height ==> At(x, y).a != 0
    }
  }
}
