/** Option and Result: a missing value (JavaScript `null`/`undefined`) and a thrown error. */
module Wrappers {

  datatype Option<+T> = None | Some(value: T)

  datatype Result<+T, +E> = Success(value: T) | Failure(error: E)
}
