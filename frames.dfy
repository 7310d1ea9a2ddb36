/** Frame geometry and pixel types shared by the whole pipeline
    (src/multichannelviewer.h and src/autoexpose.h). */
module Frames {

  /** Width and height of both camera frames. */
  const WIDTH: int := 640
  const HEIGHT: int := 480
  const PIXELS: int := WIDTH * HEIGHT

  /** An `unsigned char` colour component. */
  type byte = x: int | 0 <= x < 256

  /** An `unsigned short` raw sample of the 16-bit infrared frame. */
  type u16 = x: int | 0 <= x < 0x1_0000

  /** An `unsigned int` exposure value. */
  type u32 = x: int | 0 <= x < 0x1_0000_0000

  /** One pixel of an RGB888 image (three bytes in R, G, B order). */
  datatype Rgb = Rgb(r: byte, g: byte, b: byte)

  /** One ARGB32 pixel as built by `qRgba`. */
  datatype Rgba = Rgba(r: byte, g: byte, b: byte, a: byte)

  const Black: Rgb := Rgb(0, 0, 0)

  /** The smaller of two integers. */
  function Min(a: int, b: int): (m: int)
    ensures m <= a && m <= b && (m == a || m == b)
  {
    if a <= b then a else b
  }

  /** Storing an `int` into an `unsigned char` keeps it modulo 256. */
  function ToByte(x: int): (b: byte)
    ensures 0 <= x < 256 ==> b == x
    ensures (x - b) % 256 == 0
  {
    x % 256
  }

  /** Storing an `int` into an `unsigned short` keeps it modulo 65536. */
  function ToU16(x: int): (v: u16)
    ensures 0 <= x < 0x1_0000 ==> v == x
    ensures (x - v) % 0x1_0000 == 0
  {
    x % 0x1_0000
  }

  /** The `ULONG_PADDING(x)` macro: bytes needed to round a line of `x`
      bytes up to a multiple of four, computed as `((x+3) & ~3) - x` on
      an `unsigned long`. */
  function UlongPadding(x: bv64): (p: bv64)
    ensures p <= 3
    ensures (x + p) & 3 == 0
    ensures p == 0 <==> x & 3 == 0
    ensures p == (4 - (x & 3)) & 3
  {
    ((x + 3) & !3) - x
  }

  /** Bytes per line of an RGB888 image of the given width, padded as the
      display buffer is. */
  function LineSize(width: bv64): (s: bv64)
    requires width < 0x1_0000_0000
    ensures 3 * width <= s <= 3 * width + 3
    ensures s & 3 == 0
  {
    3 * width + UlongPadding(3 * width)
  }

  /** A WIDTH-pixel RGB line needs no padding: its line size is 1920 bytes,
      so a frame's RGB888 bytes are contiguous, three per pixel. */
  lemma FrameLinesUnpadded()
    ensures 3 * WIDTH == 1920
    ensures UlongPadding(1920) == 0
    ensures LineSize(640) == 1920
  {
  }
}
