/** Option and Result, the failure-carrying datatypes every other module uses. */
module Wrappers {

  /** A value that may be absent; `None` also stands for SQL NULL and Python `None`. */
  datatype Option<+T> = None | Some(value: T)
  {
    function GetOr(default: T): T
    {
      match this
      case Some(v) => v
      case None => default
    }
  }

  /** The outcome of a store operation: the new store, or the error the user is shown. */
  datatype Result<+T, +E> = Success(value: T) | Failure(error: E)
}
