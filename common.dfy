/** Small value wrappers shared by the validators and the environment-sync model. */
module Common {

  /** A JavaScript value that may be `undefined`/`null` (None) or present (Some). */
  datatype Option<+T> = None | Some(value: T) {
    /** `x ?? d` */
    function GetOr(default: T): T {
      match this
      case Some(v) => v
      case None => default
    }
  }

  /** The outcome of a script run: a value, or the error that ends the process with exit code 1. */
  datatype Result<+T, +E> = Success(value: T) | Failure(error: E)
}
