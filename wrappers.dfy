/** Optional values and results with an error, as returned or raised by the program. */
module Wrappers {

  /** Python's `None` or a value. */
  datatype Option<T> = None | Some(value: T)

  /** A value, or the exception that the computation raised instead. */
  datatype Result<T, E> = Ok(value: T) | Err(error: E)
}
