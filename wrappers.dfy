/** Small failure-carrying datatypes shared by the three solvers. */
module Wrappers {

  /** An optional value (Rust's `Option`). */
  datatype Option<+T> = None | Some(value: T)

  /** A value or an error (Rust's `Result<T, E>`). */
  datatype Result<+T, +E> = Success(value: T) | Failure(error: E)

  /** Success without a value, or an error (Rust's `Result<(), E>`). */
  datatype Outcome<+E> = Pass | Fail(error: E)
}
