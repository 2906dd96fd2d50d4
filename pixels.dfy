/**
  The pixel types of the `image` crate as the pipeline uses them: an 8-bit RGB
  pixel, a read-only decoded input grid, and the mutable output `RgbImage`.
  Glyphs are not rasterised: an `RgbImage` keeps, beside its raster, the log of
  the glyph draw commands issued against it, in order.
 */
module Pixels {

  /** A `u8` channel value. */
  type Byte = x: int | 0 <= x < 256

  datatype Rgb = Rgb(r: Byte, g: Byte, b: Byte)

  const Black := Rgb(0, 0, 0)
  const White := Rgb(255, 255, 255)

  /** A decoded image: `rows[y][x]` is the pixel at column x, row y. */
  datatype Grid = Grid(width: nat, height: nat, rows: seq<seq<Rgb>>)

  /** Decoded images are always rectangular. */
  type Image = g: Grid | |g.rows| == g.height && forall y :: 0 <= y < |g.rows| ==> |g.rows[y]| == g.width
    witness Grid(0, 0, [])

  /** An image whose every pixel has colour `c`. */
  function Uniform(w: nat, h: nat, c: Rgb): (img: Image)
    ensures img.width == w && img.height == h
    ensures forall x, y :: 0 <= x < w && 0 <= y < h ==> img.rows[y][x] == c
  {
    Grid(w, h, seq(h, _ => seq(w, _ => c)))
  }

  /** One call of the font library's text drawing: text, pixel offset, stroke colour and pixel scale. */
  datatype Glyph = Glyph(text: string, x: int, y: int, colour: Rgb, scale: (real, real))

  /** The output buffer `image::RgbImage`; `pixels[x, y]` is the pixel at column x, row y. */
  class RgbImage {
    const width: nat
    const height: nat
    const pixels: array2<Rgb>
    /** The glyph draw commands issued against this image, oldest first. */
    var glyphs: seq<Glyph>

    ghost predicate Valid()
      reads this
    {
      pixels.Length0 == width && pixels.Length1 == height
    }

    /** `RgbImage::from_pixel(w, h, c)`; `RgbImage::new(w, h)` is `FromPixel(w, h, Black)`. */
    constructor FromPixel(w: nat, h: nat, c: Rgb)
      ensures Valid() && fresh(pixels)
      ensures width == w && height == h && glyphs == []
      ensures forall x, y :: 0 <= x < w && 0 <= y < h ==> pixels[x, y] == c
    {
      width, height := w, h;
      pixels := new Rgb[w, h]((_, _) => c);
      glyphs := [];
    }

    /** `put_pixel(x, y, c)`: overwrites one pixel and nothing else. */
    method PutPixel(x: nat, y: nat, c: Rgb)
      requires Valid() && x < width && y < height
      modifies pixels
      ensures pixels[x, y] == c
      ensures forall px, py :: 0 <= px < width && 0 <= py < height && (px != x || py != y) ==>
                pixels[px, py] == old(pixels[px, py])
    {
      pixels[x, y] := c;
    }
  }
}
