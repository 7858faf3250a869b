/** The two ways the service reports "no value": a nullable column or absent
    row, and an operation that raised an exception instead of returning. */
module Wrappers {

  /** A nullable value: a column that may hold NULL, a row that may be missing. */
  datatype Option<T> = None | Some(value: T)

  /** What an operation that may throw hands back: the value it returned, or
      the exception it raised. */
  datatype Attempt<T, E> = Done(value: T) | Raised(error: E)
}
