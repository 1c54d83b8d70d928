/** Types the modules share: results of operations that may end with an exception, bytes, limits. */
module Wrappers {
  datatype Option<+T> = None | Some(value: T)

  datatype Result<+T, +E> = Ok(value: T) | Err(error: E)

  type Byte = n: int | 0 <= n < 256
  type Bytes = seq<Byte>

  /** The integers the size and count limits range over: a non-positive setting falls back to a positive default. */
  type pos = n: int | 0 < n witness 1
}
