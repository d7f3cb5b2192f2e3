/** Two small wrapper types used across the model: `Option` for a value that
    may be missing, and `Result` for what a remote call returned or raised. */
module Wrappers {

  /** A value that may be missing: an absent attribute, or a listing call
      that raised instead of returning records. */
  datatype Option<+T> = None | Some(value: T) {

    /** The wrapped value, with `otherwise` standing in when it is missing. */
    function GetOr(otherwise: T): T {
      if Some? then value else otherwise
    }
  }

  /** The outcome of a remote call: the value it returned, or the text of
      the exception it raised. */
  datatype Result<+R, +E> = Success(value: R) | Failure(error: E)
}
