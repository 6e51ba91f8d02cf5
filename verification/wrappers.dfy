/** Failure-carrying datatypes shared by the controllers' models. */
module Wrappers {

  /** A value that may be absent: PHP's `null`, JavaScript's `null`/`undefined`. */
  datatype Option<+T> = None | Some(value: T) {

    /** The `??` operator of both PHP and JavaScript. */
    function OrElse(default: T): T {
      match this
      case Some(v) => v
      case None => default
    }
  }

  /** A response that either succeeded with a value or failed with an error. */
  datatype Result<+T, +E> = Ok(value: T) | Err(error: E)
}
