/** The result types and the byte, shared by the components of the model. */
module Wrappers {

  /** A value that may be absent: a missing map key, a nil pointer. */
  datatype Option<+T> = None | Some(value: T)

  /** A value or the error the source returns instead of it. */
  datatype Result<+T, +E> = Ok(value: T) | Err(error: E)

  type byte = b: int | 0 <= b < 256
}
