/** Option and Result, the two failure-carrying shapes the storage layer returns. */
module Wrappers {

  /** A value that may be missing, as Rust's `Option`. */
  datatype Option<+T> = None | Some(value: T)

  /** A value or an error, as Rust's `io::Result`. */
  datatype Result<+T, +E> = Ok(value: T) | Err(error: E)
}
