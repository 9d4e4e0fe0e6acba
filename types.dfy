/** Fixed-width integers and colour values shared by the palette, the depth
    colouring and the camera buffers. */
module Types {

  /** An unsigned 8-bit value (`XnUInt8`, `unsigned char`). */
  type Byte = x: int | 0 <= x < 0x100

  /** An unsigned 16-bit value (`XnUInt16`, and `XnDepthPixel`, a raw depth sample). */
  type U16 = x: int | 0 <= x < 0x1_0000

  /** One RGB colour. */
  datatype Rgb = Rgb(r: Byte, g: Byte, b: Byte)

  const Black := Rgb(0, 0, 0)

  /** One RGBA pixel, as the depth buffer stores it: four bytes, red first. */
  datatype Rgba = Rgba(r: Byte, g: Byte, b: Byte, a: Byte) {

    /** The byte stored at offset `c` of the pixel. */
    function Channel(c: int): Byte
      requires 0 <= c < 4
    {
      if c == 0 then r else if c == 1 then g else if c == 2 then b else a
    }

    function Color(): Rgb {
      Rgb(r, g, b)
    }
  }
}
