/** Option and Result datatypes shared by the model's modules. */
module Wrappers {

  /** A value that may be missing: Python's None, pandas' missing cell. */
  datatype Option<+T> = None | Some(value: T)

  /** The outcome of a step that may raise: a value, or the text of the exception. */
  datatype Result<+T> = Ok(value: T) | Err(message: string)
}
