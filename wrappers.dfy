/** Optional values and typed outcomes used throughout the model. */
module Wrappers {

  /** A value that may be missing: SQL NULL, an absent dictionary key, Python's None. */
  datatype Option<+T> = None | Some(value: T)

  /** The result of an operation that may raise instead of returning. */
  datatype Result<+T, +E> = Ok(value: T) | Err(error: E)

  function Min(a: int, b: int): int {
    if a <= b then a else b
  }
}
