/** Option and Result, the tagged outcomes the model uses in place of `None`, raised
    exceptions and `(False, message)` returns. */
module Wrappers {

  datatype Option<+T> = None | Some(value: T)

  datatype Result<+R, +E> = Success(value: R) | Failure(error: E)
}
