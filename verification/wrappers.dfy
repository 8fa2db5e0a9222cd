/** Optional values and success-or-error results, used wherever the
    checker's Python code relies on `None` or on an exception. */
module Wrappers {

  /** A value that may be absent, as a Python attribute that may be `None`. */
  datatype Option<+T> = None | Some(value: T)

  /** Either a value or an error message, in place of a raised exception. */
  datatype Result<+R, +E> = Success(value: R) | Failure(error: E)
}
