/** Optional values and success/failure results shared by the store and the handlers. */
module Results {

  /** A value that may be absent: a JavaScript `null`/`undefined` or an omitted body field. */
  datatype Option<+T> = None | Some(value: T) {

    /** The carried value, or `default` when there is none. */
    function GetOr(default: T): T {
      match this
      case Some(v) => v
      case None => default
    }
  }

  /** The outcome of one awaited store call: a value, or the error it threw. */
  datatype Result<+R, +E> = Ok(value: R) | Err(error: E)
}
