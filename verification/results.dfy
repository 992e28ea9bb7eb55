/** Option and Result: the shapes in which the model returns values that the
    source returns as `undefined` or throws as exceptions. */
module Results {

  datatype Option<+T> = None | Some(value: T) {
    /** The value, or `default` when there is none (a JavaScript default parameter). */
    function GetOr(default: T): T {
      match this
      case Some(v) => v
      case None => default
    }
  }

  /** A value, or the error the source would have thrown. */
  datatype Result<+T, +E> = Success(value: T) | Failure(error: E)
}
