/** The two shapes of a result used throughout the model: an optional value
    (Python's `None`) and a result that carries either a value or an error
    (a Python exception that aborts the run). */
module Wrappers {

  datatype Option<+T> = None | Some(value: T) {

    /** The value, or `default` when absent (Python's `next(iter(...), default)`). */
    function GetOr(default: T): T {
      match this
      case Some(v) => v
      case None => default
    }
  }

  datatype Result<+R, +E> = Success(value: R) | Failure(error: E)
}
