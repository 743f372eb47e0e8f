/** Failure-compatible wrappers used across the model: `Option` for the
    source's `Option<T>` and `Result` for its `Result<T, E>`. */
module Wrappers {

  /** Rust's `Option<T>`. */
  datatype Option<+T> = None | Some(value: T)

  /** Rust's `Result<T, E>`; `Failure` carries the error value. */
  datatype Result<+R, +E> = Success(value: R) | Failure(error: E)
}
