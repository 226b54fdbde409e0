/** Failure-carrying values: Option stands for the source's nullable
    references, Result for a value or the exception a call throws. */
module Wrappers {

  datatype Option<+T> = None | Some(value: T)

  datatype Result<+T, +E> = Success(value: T) | Failure(error: E)
}
