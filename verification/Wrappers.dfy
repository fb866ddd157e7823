// Result types shared by the models of the bundled JavaScript and of the Java sources.
module Wrappers {

  datatype Option<+T> = None | Some(value: T)

  // A thrown exception is a Failure; the model keeps the kind of error, not its message.
  datatype Result<+T, +E> = Success(value: T) | Failure(error: E)
}
