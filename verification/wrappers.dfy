/** Failure-carrying values used for the collaborators of the wiki application:
    `Option` for PHP's "value or false/null", `Result` for "value or a thrown
    Wicked_Exception" (the error is the exception's message). */
module Wrappers {

  datatype Option<+T> = None | Some(value: T) {

    /** The value in Some, or `default` when None. */
    function GetOr(default: T): T {
      match this
      case Some(v) => v
      case None => default
    }
  }

  datatype Result<+R, +E> = Success(value: R) | Failure(error: E)
}
