/** Small failure-carrying datatypes shared by the modules of this model. */
module Wrappers {

  /** A value that may be absent (`undefined` in the source). */
  datatype Option<+T> = None | Some(value: T)

  /** The outcome of an operation that returns nothing but may throw or reject. */
  datatype Outcome<+E> = Pass | Fail(error: E)
}
