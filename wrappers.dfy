/** Failure-carrying values used in place of Rust's `Option`, `Result` and `unwrap` panics. */
module Wrappers {
  datatype Option<+T> = None | Some(value: T)

  datatype Result<+T, +E> = Ok(value: T) | Err(error: E)
}
