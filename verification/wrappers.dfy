/** Failure-compatible results for the two runtime errors the program can raise. */
module Wrappers {

  datatype Option<+T> = None | Some(value: T)

  /** `IndexError`: `active[0]` on an empty list; `ZeroDivisionError`: a zero box height. */
  datatype Error = IndexError | ZeroDivisionError

  datatype Result<+T> = Success(value: T) | Failure(error: Error)
}
