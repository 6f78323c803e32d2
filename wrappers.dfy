/** Failure-compatible result types shared by the modules of the model. */
module Wrappers {

  datatype Option<T> = None | Some(value: T)

  /** The outcome of a step that Python would abort with an exception. */
  datatype Result<T, E> = Success(value: T) | Failure(error: E)
}
