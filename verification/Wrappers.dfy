/** The result types shared by every module of the model. */
module Wrappers {

  datatype Option<+T> = None | Some(value: T)

  /** A call that returns a value or an error. */
  datatype Result<+T, +E> = Ok(value: T) | Err(error: E)

  /** A call that returns nothing but may fail. */
  datatype Outcome<+E> = Pass | Fail(error: E)
}
