/** Bytes and RGB triples as they are stored in a packed RGB0 frame. */
module Pixels {

  /** An unsigned 8-bit value (C's uint8_t). */
  type byte = x: int | 0 <= x < 256

  /** The three colour channels of `struct rgb`. */
  datatype Rgb = Rgb(r: byte, g: byte, b: byte)

  /** Channel `c` of a pixel in the byte order the frame stores it:
      offset 0 is red, 1 is green, 2 is blue. */
  function Channel(color: Rgb, c: int): byte
    requires 0 <= c < 3
  {
    if c == 0 then color.r else if c == 1 then color.g else color.b
  }
}
