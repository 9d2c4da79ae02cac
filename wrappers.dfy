/** Option and Result in the shape Rust gives them, and the two ways a Rust call can end. */
module Wrappers {

  datatype Option<+T> = None | Some(value: T)

  datatype Result<+T, +E> = Ok(value: T) | Err(error: E)

  /** A call either returns a value or its thread panics (an `unwrap` on an `Err`). */
  datatype Outcome<+T> = Returned(value: T) | Panicked
}
