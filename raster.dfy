/** The decoded 8-bit RGB raster the core works on (the `image` crate's
    `RgbImage`): a fixed-size buffer of pixels that the blender overwrites
    in place. Decoding and encoding files is not part of this model. */
module Raster {

  /** One 8-bit colour channel (`u8`). */
  type Byte = x: int | 0 <= x < 256

  datatype Rgb = Rgb(r: Byte, g: Byte, b: Byte)

  /** The pixels of an image as a value: `rows[y][x]` is the pixel in column
      x of row y. Specifications of read-only operations are stated on it. */
  datatype Picture = Picture(width: nat, height: nat, rows: seq<seq<Rgb>>)
  {
    ghost predicate Wellformed()
    {
      |rows| == height && forall y | 0 <= y < |rows| :: |rows[y]| == width
    }
  }

  /** An image of `width` by `height` pixels; `pixels[y, x]` is the pixel in
      column x of row y, so rows are stored one after the other. */
  class Image {
    const width: nat
    const height: nat
    const pixels: array2<Rgb>

    ghost predicate Valid()
    {
      pixels.Length0 == height && pixels.Length1 == width
    }

    /** The image's current pixels, as a value. */
    ghost function Snapshot(): (pic: Picture)
      reads pixels
      requires Valid()
      ensures pic.Wellformed() && pic.width == width && pic.height == height
    {
      Picture(width, height, seq(height, y requires 0 <= y < height reads pixels =>
        seq(width, x requires 0 <= x < width reads pixels => pixels[y, x])))
    }

    /** An image filled with one colour (`RgbImage::from_pixel`; black is `RgbImage::new`). */
    constructor (width: nat, height: nat, fill: Rgb)
      ensures Valid() && fresh(pixels)
      ensures this.width == width && this.height == height
      ensures forall y, x :: 0 <= y < height && 0 <= x < width ==> pixels[y, x] == fill
    {
      this.width := width;
      this.height := height;
      pixels := new Rgb[height, width]((y, x) => fill);
    }
  }
}
