/** Option and Result, the two failure-carrying shapes the scanner's Python code
    expresses with None and with exceptions. */
module Wrappers {

  datatype Option<+T> = None | Some(value: T)

  datatype Result<+T, +E> = Success(value: T) | Failure(error: E)
}
