/** Failure-carrying values shared by the other modules. */
module Wrappers {

  /** A value that may be absent: a request field or schema path that was not supplied. */
  datatype Option<+T> = None | Some(value: T) {

    /** The carried value, or `default` when there is none. */
    function GetOr(default: T): T {
      match this
      case Some(v) => v
      case None => default
    }
  }

  /** The outcome of a check that either yields a value or names why it refused. */
  datatype Result<+T, +E> = Ok(value: T) | Err(error: E)
}
