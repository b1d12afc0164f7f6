/** Failure-carrying return values used by the allocator model. */
module Wrappers {

  /** An optional value: Rust's `Option<T>`. */
  datatype Option<+T> = None | Some(value: T)

  /** A result with a value or an error. */
  datatype Result<+T, +E> = Ok(value: T) | Err(error: E)

  /** The outcome of an operation that returns nothing on success. */
  datatype Outcome<+E> = Pass | Fail(error: E)
}
