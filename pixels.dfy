/** Byte and pixel values shared by both renderers. */
module Pixels {

  /** Rust's `u8`: shades, colour components and message payload bytes. */
  newtype u8 = x: int | 0 <= x < 256

  /** One pixel of an `image::Rgb` buffer. */
  datatype Rgb = Rgb(r: u8, g: u8, b: u8)

  /** The pixel `ImageBuffer::new` starts every position with. */
  const Black: Rgb := Rgb(0, 0, 0)

  datatype Option<T> = None | Some(value: T)

  /** `vec![0u8; n]`. */
  function Zeros(n: nat): (z: seq<u8>)
    ensures |z| == n && forall i | 0 <= i < n :: z[i] == 0
  {
    seq(n, _ => 0)
  }
}
