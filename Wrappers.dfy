/** Failure-carrying values used in place of the source's C++ exceptions. */
module Wrappers {

  datatype Option<+T> = None | Some(value: T)

  /** A value, or the error the source would have thrown instead of producing it. */
  datatype Result<+T, +E> = Ok(value: T) | Err(error: E)

  /** Completion of an operation that produces no value: it returned, or it threw `error`. */
  datatype Outcome<+E> = Pass | Fail(error: E)
}
