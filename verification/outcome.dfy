/**
 * Shared result types. A Rust `unwrap` on a missing value, an out-of-range
 * index or a failed parse aborts the program; the model returns `Panic`
 * in those places instead of excluding the input.
 */
module Outcome {

  /** The value an operation produces, or `Panic` where the program aborts. */
  datatype Result<T> = Ok(value: T) | Panic

  /** Rust's `Option`. */
  datatype Option<T> = None | Some(value: T)
}
