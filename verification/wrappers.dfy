/** Failure-carrying result types shared by every module of the model. */
module Wrappers {

  /** A value that may be absent: the model's stand-in for a C# null. */
  datatype Option<+T> = None | Some(value: T)

  /** Either a computed value or the error the source reports instead. */
  datatype Result<+T, +E> = Success(value: T) | Failure(error: E)
}
