/** Outcome types for the operations that either return a value or fail. */
module Results {

  /** A value or nothing: an empty dict from `parse_log_line`, or an `int()` that raised ValueError. */
  datatype Option<+T> = None | Some(value: T)

  /** A value, or the exception that aborted the computation. */
  datatype Result<+T, +E> = Success(value: T) | Failure(error: E)
}
