/** Failure-carrying values used where the modelled code throws or reports an error. */
module Wrappers {

  datatype Option<T> = None | Some(value: T)

  /** A value, or the error that the modelled operation raises instead of returning. */
  datatype Result<T, E> = Ok(value: T) | Err(error: E)

  /** Success of an operation that returns nothing, or the error it raises. */
  datatype Outcome<E> = Pass | Fail(error: E)
}
