/** Failure-carrying wrappers shared by the whole model. */
module Wrappers {

  /** A value that may be absent; models JavaScript's optional (`undefined`) configuration fields. */
  datatype Option<+T> = None | Some(value: T) {

    /** The wrapped value, or `default` when absent (the `??` operator). */
    function GetOr(default: T): T {
      match this
      case Some(v) => v
      case None => default
    }
  }

  /** The outcome of an operation that may throw. */
  datatype Result<+R, +E> = Ok(value: R) | Err(error: E)
}
