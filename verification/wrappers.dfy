/** An optional value and a result that is either a value or an error, used throughout the model. */
module Wrappers {

  /** An optional value; `None` plays the part of a C null pointer. */
  datatype Option<+T> = None | Some(value: T) {

    /** The wrapped value, or `default` when there is none. */
    function GetOr(default: T): T {
      match this
      case Some(v) => v
      case None => default
    }
  }

  /** The outcome of an operation that may hit undefined behaviour. */
  datatype Result<+T, +E> = Success(value: T) | Failure(error: E)
}
