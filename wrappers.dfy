/** Optional values and success/failure results shared by the model's modules. */
module Wrappers {

  /** A value that may be absent (JavaScript `null`, a missing element, a missing key). */
  datatype Option<+T> = None | Some(value: T)

  /** The outcome of an operation that can fail with an error of type `E`. */
  datatype Result<+R, +E> = Success(value: R) | Failure(error: E)
}
