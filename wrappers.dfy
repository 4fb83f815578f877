/** Option, Result and Outcome: the undefined/thrown cases of the TypeScript source as values. */
module Wrappers {

  /** `undefined` versus a value. */
  datatype Option<+T> = None | Some(value: T)

  /** A value or the error a TypeScript function throws. */
  datatype Result<+T, +E> = Success(value: T) | Failure(error: E)

  /** Normal return of a `void` function, or the error it throws. */
  datatype Outcome<+E> = Pass | Fail(error: E)
}
