/** `Option` and `Result` used by the gesture detector model. */
module Outcome {

  /** A value that may be absent, as a foreign call that can report failure returns it. */
  datatype Option<+T> = None | Some(value: T) {

    /** The wrapped value, or `default` when there is none. */
    function GetOr(default: T): (r: T)
      ensures Some? ==> r == value
      ensures None? ==> r == default
    {
      match this
      case Some(v) => v
      case None => default
    }
  }

  /** Either the new value of a computation or the fault that aborted it. */
  datatype Result<+R, +E> = Success(value: R) | Failure(error: E)
}
