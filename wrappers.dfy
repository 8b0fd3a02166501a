/** Failure-carrying result types shared by the model. */
module Wrappers {

  datatype Option<+T> = None | Some(value: T)

  /** A parse or lookup that can fail; `Err` stands for the exception the source raises. */
  datatype Result<+T, +E> = Ok(value: T) | Err(error: E)
}
