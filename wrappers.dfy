/** Failure-compatible wrappers shared by the modules of this project. */
module Wrappers {

  /** A value that may be absent: TypeScript's `T | undefined` (or `T | null`). */
  datatype Option<+T> = None | Some(value: T)

  /** A value, or the error that a call threw instead of returning one. */
  datatype Result<+T, +E> = Success(value: T) | Failure(error: E)

  /** A call that returns nothing, or the error it threw. */
  datatype Outcome<+E> = Pass | Fail(error: E)
}
