/** Return types that stand in for the exceptions the Python source raises. */
module Wrappers {

  /** A value that may be absent; used where the source fails with a plain
      `IndexError` that carries no information of its own. */
  datatype Option<+T> = None | Some(value: T)

  /** Either a value or the error the source would have raised. */
  datatype Result<+R, +E> = Success(value: R) | Failure(error: E)
}
