/** Types shared by every module of the model. */
module Prelude {

  /** A value that may be absent: a nullable column, or Rust's Option. */
  datatype Option<+T> = None | Some(value: T)

  /** The outcome of an operation that can fail with an error value. */
  datatype Result<+T, +E> = Ok(value: T) | Err(error: E)
}
