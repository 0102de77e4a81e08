/** Failure-carrying wrappers used throughout the model: an optional value
    (Python's `None` versus a present value) and a success/failure result
    (a return value versus a raised exception). */
module Results {

  datatype Option<+T> = None | Some(value: T) {

    /** The wrapped value, or `default` when there is none. */
    function GetOr(default: T): T {
      match this
      case Some(v) => v
      case None => default
    }
  }

  datatype Result<+T, +E> = Success(value: T) | Failure(error: E)
}
