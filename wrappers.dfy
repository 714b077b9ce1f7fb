/** Failure-carrying values: Option for a value that may be missing
    (numpy's NaN), Result for an operation that raises. */
module Wrappers {

  datatype Option<+T> = None | Some(value: T)

  datatype Result<+R, +E> = Success(value: R) | Failure(error: E)
}
