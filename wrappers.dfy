/** Optional values and the argument errors raised by the public entry points. */
module Wrappers {

  /** A value that may be absent; stands for a nullable reference. */
  datatype Option<+T> = None | Some(value: T)

  /** An `ArgumentNullException`, identified by the name of the offending parameter. */
  datatype ArgumentError = ArgumentNullException(paramName: string)

  /** The value of a call that either returns normally or throws an argument error. */
  datatype Result<+R> = Success(value: R) | Failure(error: ArgumentError)

  /** The outcome of a call that returns nothing. */
  datatype Outcome = Pass | Fail(error: ArgumentError)
}
