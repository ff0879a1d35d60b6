/** Optional values and abstract outcomes of remote calls. */
module Wrappers {

  /** A value that may be absent, as `undefined` or `null` is in the source. */
  datatype Option<+T> = None | Some(value: T) {

    /** The value, or `default` when absent (the source's `x ?? default` and `(old = []) => …`). */
    function GetOr(default: T): T {
      match this
      case Some(v) => v
      case None => default
    }
  }

  /** How a remote call ended: with a parsed reply, or with any failure (network or non-2xx). */
  datatype Outcome<+T> = Ok(value: T) | Err
}
