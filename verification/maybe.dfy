/** Optional values and results with an error, as used throughout the model.
    An absent SharedPreferences key, a failed parse and a Kotlin `null` are
    all `None`; a rejected request is a `Failure`. */
module Maybe {

  datatype Option<+T> = None | Some(value: T) {

    /** The value, or `default` when absent (Kotlin's `?:`). */
    function GetOr(default: T): T {
      match this
      case Some(v) => v
      case None => default
    }
  }

  datatype Result<+R, +E> = Success(value: R) | Failure(error: E)
}
