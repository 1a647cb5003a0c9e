/** Result types shared by the modules. */
module Wrappers {

  datatype Option<+T> = None | Some(value: T)

  /** How an operation that may throw ends: normally, or with the thrown error. */
  datatype Result<+R, +E> = Success(value: R) | Failure(error: E)
}
