/** Rust's `Option` and `Result`, the two failure-carrying types the editor uses. */
module Wrappers {

  datatype Option<+T> = None | Some(value: T)

  datatype Result<+T, +E> = Ok(value: T) | Err(error: E)
}
