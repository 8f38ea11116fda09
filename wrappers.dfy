/** Option and Result, the two failure-carrying shapes the model uses for
    "null" returns and for errors a library call would throw. */
module Wrappers {

  datatype Option<+T> = None | Some(value: T)

  datatype Result<+R, +E> = Success(value: R) | Failure(error: E)
}
