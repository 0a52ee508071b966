/** The failure-carrying datatypes the model uses in place of Ruby's `nil`
    and of the exceptions the scripts raise. */
module Wrappers {

  /** Ruby's `nil` or a value. */
  datatype Option<+T> = None | Some(value: T)

  /** A computation that either produced a value or would have raised. */
  datatype Result<+T, +E> = Success(value: T) | Failure(error: E)
}
