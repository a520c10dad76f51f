/** Small failure-carrying datatypes shared by the modules of this model. */
module Wrappers {

  /** A value that may be absent: a Redis key that does not exist, a `None` in Python. */
  datatype Option<+T> = None | Some(value: T) {
    function GetOr(default: T): T {
      match this
      case Some(v) => v
      case None => default
    }
  }

  /** The result of an operation that may raise: `Raised` stands for a Python
      exception (KeyError, TypeError, ValueError, ...) that aborts the caller. */
  datatype Outcome<+T> = Ok(value: T) | Raised(reason: string)
}
