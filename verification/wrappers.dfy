/** Optional values and the outcome of an effect the model does not perform itself
    (a file read, an HTTP fetch, a JSON parse). */
module Wrappers {

  /** A JavaScript value that may be `undefined` or `null`. */
  datatype Option<+T> = None | Some(value: T) {

    /** The value, or `default` when there is none. */
    function GetOr(default: T): (r: T)
      ensures Some? ==> r == value
      ensures None? ==> r == default
    {
      match this
      case Some(v) => v
      case None => default
    }
  }

  /** What an awaited I/O step produced: its data, or a thrown error (any kind:
      timeout, non-2xx status, network or parse failure). */
  datatype Outcome<+T> = Ok(data: T) | Err
}
