/** Failure-carrying datatypes shared by the rest of the model. */
module Wrappers {

  /** A value that may be absent, like Rust's `Option`. */
  datatype Option<+T> = None | Some(value: T)

  /** A success value or an error, like Rust's `Result`. */
  datatype Result<+R, +E> = Ok(value: R) | Err(error: E)
}
