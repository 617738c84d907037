/** The exceptions the core raises, and the values that carry them back to a caller. */
module Outcomes {
  /** The Python exception classes the modelled code raises. */
  datatype Error = KeyError | ValueError | AttributeError

  /** A value, or the exception the operation raised instead. */
  datatype Result<T> = Ok(value: T) | Err(error: Error)

  /** A procedure that returns nothing either completes or raises. */
  datatype Outcome = Done | Fail(error: Error)

  datatype Option<T> = None | Some(value: T)
}
