/** Optional values and the outcomes of operations that raise ValueError in the
    university model: a call either passes or fails with the exception's message. */
module Outcomes {

  datatype Option<+T> = None | Some(value: T)

  /** The result of an operation that returns a value or raises with a message. */
  datatype Result<+T> = Ok(value: T) | Err(message: string)

  /** The outcome of an operation that returns nothing or raises with a message. */
  datatype Outcome = Pass | Fail(message: string)
}
