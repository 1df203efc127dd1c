/** `Option` and `Result` types shared by the engine's modules. */
module Wrappers {

  datatype Option<+T> = None | Some(value: T)

  /** The outcome of an operation that either yields a value or raises one of the errors of `E`. */
  datatype Result<+R, +E> = Success(value: R) | Failure(error: E)
}
