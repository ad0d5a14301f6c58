/** Pixels and images as the scripts see them once PIL has decoded a file and
    converted it to "RGBA": rows of pixels, each channel an 8-bit value. */
module Pixels {

  /** One 8-bit colour or alpha channel. */
  type Channel = c: int | 0 <= c <= 255

  /** An RGBA pixel; `a` is the alpha channel (255 = opaque, 0 = transparent). */
  datatype Pixel = Pixel(r: Channel, g: Channel, b: Channel, a: Channel)

  /** An image as rows of pixels: `img[y][x]` is the pixel that numpy
      indexes as `img_array[y, x]`. */
  type Image = seq<seq<Pixel>>

  /** The width of a grid: the length of its first row (0 for no rows). */
  function Width<T>(g: seq<seq<T>>): nat {
    if |g| == 0 then 0 else |g[0]|
  }

  /** A grid is rectangular when every row is as long as the first. Decoded
      images always are. */
  predicate IsRect<T>(g: seq<seq<T>>) {
    forall y :: 0 <= y < |g| ==> |g[y]| == Width(g)
  }

  /** `g[y][x]` exists. */
  predicate InGrid<T>(g: seq<seq<T>>, x: int, y: int) {
    0 <= y < |g| && 0 <= x < |g[y]|
  }

  function Min(a: int, b: int): int { if a <= b then a else b }

  function Max(a: int, b: int): int { if a >= b then a else b }
}
