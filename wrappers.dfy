/** Option and Result: the failure-carrying values used throughout the model.
    A Python `None` becomes `None`; a Python exception that aborts generation
    becomes a `Failure`. */
module Wrappers {

  datatype Option<+T> = None | Some(value: T) {
    /** Python's `d.get(key, default)` once the lookup has been made. */
    function GetOr(default: T): T {
      if Some? then value else default
    }
  }

  datatype Result<+R, +E> = Success(value: R) | Failure(error: E)
}
