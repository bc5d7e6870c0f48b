/** Option and Result, the two failure-carrying shapes the model uses for
    PHP's `null` and for the exceptions the client throws at its caller. */
module Wrappers {

  datatype Option<+T> = None | Some(value: T)

  datatype Result<+R, +E> = Success(value: R) | Failure(error: E)
}
