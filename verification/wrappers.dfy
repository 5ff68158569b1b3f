/** An optional value and a success-or-error result, used across the
    model. `None` stands for JavaScript's `null`/`undefined`; `Failure`
    carries the error an operation throws. */
module Wrappers {

  datatype Option<+T> = None | Some(value: T) {

    /** The value, or `default` when there is none (a defaulted option). */
    function GetOr(default: T): T {
      match this
      case Some(v) => v
      case None => default
    }
  }

  datatype Result<+R, +E> = Success(value: R) | Failure(error: E)
}
