/** Failure-carrying return types shared by the other modules. */
module Wrappers {

  datatype Option<+T> = None | Some(value: T)

  /** What a Rust `Result<T, E>` holds: a value, or the error that was propagated. */
  datatype Result<+T, +E> = Success(value: T) | Failure(error: E)
}
