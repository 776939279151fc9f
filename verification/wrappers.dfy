/** Option and Result: the model's stand-ins for Python's `None` and for
    operations that either return a value or raise an exception. */
module Wrappers {

  /** A value that may be absent (Python's `None`). */
  datatype Option<+T> = None | Some(value: T)

  /** The outcome of an operation that may raise: `Ok` carries what it
      returned (or the updated object), `Err` what it raised. */
  datatype Result<+T, +E> = Ok(value: T) | Err(error: E)
}
