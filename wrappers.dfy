/** Failure-compatible result types shared by the kernel's fallible operations. */
module Wrappers {

  datatype Option<+T> = None | Some(value: T)

  /** Rust's `Result`: a value or an error. */
  datatype Result<+T, +E> = Ok(value: T) | Err(error: E)
}
