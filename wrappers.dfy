/** Small failure-carrying datatypes shared by the other modules. */
module Wrappers {

  /** A value that may be absent; Python's `None` is `None` here. */
  datatype Option<T> = None | Some(value: T)

  /** A computed value, or the exception raised instead. */
  datatype Result<T, E> = Ok(value: T) | Err(error: E)

  /** The outcome of an operation that returns nothing when it succeeds. */
  datatype Outcome<E> = Pass | Fail(error: E)
}
