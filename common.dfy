/** Values shared by every part of the downloader model. */
module Common {

  /** One octet of a response body or of decrypted video data. */
  type byte = x: int | 0 <= x < 256

  type Bytes = seq<byte>

  /** Python's `X | None`. */
  datatype Option<+T> = None | Some(value: T)

  /** A value or the exception that an operation raises instead. */
  datatype Result<+T, +E> = Ok(value: T) | Err(error: E)

  /** `min` on exact reals (the source applies it to floats). */
  function Min(a: real, b: real): (m: real)
    ensures m <= a && m <= b && (m == a || m == b)
  {
    if a <= b then a else b
  }
}
