/** Option and Result values: a missing cell and an operation that either
    succeeds or raises one of the exceptions the program distinguishes. */
module Wrappers {

  datatype Option<+T> = None | Some(value: T)

  datatype Result<+T, +E> = Success(value: T) | Failure(error: E)

}
