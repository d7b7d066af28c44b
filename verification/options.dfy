/** Absent-or-present values and failure-carrying results, used where the
    program passes `None` or raises `ValueError`. */
module Options {

  /** A value that may be missing (Python's `None`). */
  datatype Option<+T> = None | Some(value: T)

  /** The outcome of an operation that can be refused. */
  datatype Result<+T, +E> = Ok(value: T) | Err(error: E)
}
