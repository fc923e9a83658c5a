/** Result type used in place of the source's fallible returns. */
module Wrappers {

  /** Either a value or an error, like Rust's `Result<T, E>`. */
  datatype Result<+R, +E> = Success(value: R) | Failure(error: E)
}
