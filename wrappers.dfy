/** Result types for the error returns of the serialization protocol
    (Rust's `Result<T, String>` and `bincode::Result`). */
module Wrappers {

  datatype Option<+T> = None | Some(value: T)

  /** A value or an error. */
  datatype Result<+R, +E> = Success(value: R) | Failure(error: E)

  /** Success without a value (Rust's `Result<(), E>`). */
  datatype Outcome<+E> = Pass | Fail(error: E)
}
