/** Option and a three-way Java outcome, shared by every module of the model. */
module Wrappers {

  /** A value or Java's `null`. */
  datatype Option<+T> = None | Some(value: T)

  /** How a Java call ends: it returns a value, returns `null`, or throws an
      exception that it does not catch itself. */
  datatype Outcome<+T> = Ok(value: T) | Null | Thrown
}
