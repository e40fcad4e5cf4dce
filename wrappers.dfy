/** Optional values, and the exceptions the engine throws on bad arguments,
    as values. */
module Wrappers {

  datatype Option<T> = None | Some(value: T)

  /** The Java exceptions raised on bad coordinates. */
  datatype Error = ArrayIndexOutOfBounds | IllegalArgument

  /** A value, or the exception raised instead of returning one. */
  datatype Result<T> = Success(value: T) | Failure(error: Error)

  /** How a call that returns nothing ended: normally, or with an exception. */
  datatype Outcome = Pass | Fail(error: Error)
}
