/** RGBA pixels as the image library hands them to the encoder (`Rgba<u8>` in src/lib.rs). */
module Pixels {

  /** An 8-bit channel value, `u8`. */
  type Byte = b: int | 0 <= b < 256

  /** A colour without transparency: the three channels an SGR colour control carries. */
  datatype Rgb = Rgb(r: Byte, g: Byte, b: Byte)

  /** One RGBA pixel; `r`, `g`, `b`, `a` are channels 0, 1, 2 and 3 of the source's `Rgba<u8>`. */
  datatype Pixel = Pixel(r: Byte, g: Byte, b: Byte, a: Byte) {

    /** The colour part of the pixel, alpha dropped. */
    function Color(): Rgb {
      Rgb(r, g, b)
    }
  }

  /** The encoder draws a pixel only when it is fully opaque; any smaller alpha, including
      a partly transparent one, counts as not there at all. */
  predicate Visible(p: Pixel) {
    p.a == 255
  }

  /** The pixel the renderer invents below the last row of an image of odd height. */
  const Transparent: Pixel := Pixel(0, 0, 0, 0)
}
