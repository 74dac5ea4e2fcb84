/** Option and Result: the failure-carrying values the model uses for the
    source's `return res.status(...)` branches and thrown errors. */
module Wrappers {

  datatype Option<+T> = None | Some(value: T)

  datatype Result<+T, +E> = Success(value: T) | Failure(error: E)
}
