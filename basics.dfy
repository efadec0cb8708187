/** Shared vocabulary: raw bytes and the two failure-compatible wrappers. */
module Basics {

  type Byte = bv8

  /** A Python `bytes` value. */
  type Bytes = seq<Byte>

  datatype Option<+T> = None | Some(value: T)

  datatype Result<+T, +E> = Ok(value: T) | Err(error: E)

  function Min(a: int, b: int): (m: int)
    ensures m <= a && m <= b
    ensures m == a || m == b
  {
    if a <= b then a else b
  }
}
