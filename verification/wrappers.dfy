/** `Option` for nullable table cells and `Result` for operations that
    raise in the modelled program. */
module Wrappers {

  /** A value that may be absent (a null cell, a missing match). */
  datatype Option<+T> = None | Some(value: T)

  /** Either a value or the error the modelled program would raise. */
  datatype Result<+T, +E> = Success(value: T) | Failure(error: E)
}
