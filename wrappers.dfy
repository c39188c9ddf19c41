/** Option and Outcome, the two small failure-compatible datatypes the model uses. */
module Wrappers {

  datatype Option<+T> = None | Some(value: T)

  /** The result of an operation that either completes or reports one error. */
  datatype Outcome<+E> = Pass | Fail(error: E)
}
