/** Failure-compatible wrappers used across the model: `Option` for Python's
    `None`-or-value results and `Result` for raised exceptions. */
module Wrappers {

  datatype Option<+T> = None | Some(value: T) {
    /** This option when present, `other` otherwise. */
    function GetOrOption(other: Option<T>): Option<T> {
      if Some? then this else other
    }
  }

  datatype Result<+R, +E> = Success(value: R) | Failure(error: E)
}
