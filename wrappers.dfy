/** Optional values (Ruby's nil) and error-or-value results (Ruby's raised exceptions). */
module Wrappers {

  /** A value that may be absent; `None` plays the part of Ruby's `nil`. */
  datatype Option<+T> = None | Some(value: T)

  /** The outcome of an operation that may raise. */
  datatype Result<+T, +E> = Ok(value: T) | Err(error: E)
}
