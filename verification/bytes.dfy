/** Value types shared by every part of the model. */
module Bytes {

  /** One element of a Python `bytearray` or `bytes` object. */
  newtype byte = b: int | 0 <= b < 256

  /** Python's `None` for the optional parameters of the graphics calls. */
  datatype Option<+T> = None | Some(value: T)

  function Min(a: int, b: int): int { if a <= b then a else b }

  function Max(a: int, b: int): int { if a <= b then b else a }
}
