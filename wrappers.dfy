/** Option and Result values for the "None" returns and the exceptions of the source. */
module Wrappers {

  datatype Option<+T> = None | Some(value: T)

  datatype Result<+T, +E> = Ok(value: T) | Err(error: E)

  /** The outcome of a procedure that returns nothing or raises. */
  datatype Outcome<+E> = Pass | Fail(error: E)
}
