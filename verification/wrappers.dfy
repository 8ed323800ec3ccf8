/** Failure-carrying result types shared by the two command-line tools. */
module Wrappers {

  /** A value that may be absent, as an omitted command-line option is. */
  datatype Option<+T> = None | Some(value: T) {

    /** The carried value, or `default` when there is none. */
    function GetOr(default: T): (v: T) {
      match this
      case Some(v) => v
      case None => default
    }
  }

  /** Either a computed value or the error that ends the run. */
  datatype Result<+R, +E> = Success(value: R) | Failure(error: E)
}
