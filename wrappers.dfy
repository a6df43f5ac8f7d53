/** Option and Result: the null returns and the exceptions of the modelled Java code. */
module Wrappers {

  /** A reference that may be null. */
  datatype Option<+T> = None | Some(value: T)

  /** The outcome of an operation that either returns a value or throws. */
  datatype Result<+T, +X> = Ok(value: T) | Err(error: X)
}
