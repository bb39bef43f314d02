/**
 * How the contact manager's operations report failure. Each Java exception
 * the core throws becomes an `Error`; a `null` argument is `None`.
 */
module Errors {

  /** A possibly-null argument. */
  datatype Option<T> = None | Some(value: T)

  /** The unchecked exceptions the core throws. */
  datatype Error =
    | NullPointer      // NullPointerException: a required argument was null
    | IllegalArgument  // IllegalArgumentException: unknown contact or id, wrong list, date in the past
    | IllegalState     // IllegalStateException: notes for a meeting that has not happened yet

  /** The outcome of an operation that returns a value. */
  datatype Result<T> = Ok(value: T) | Err(error: Error)

  /** The outcome of an operation that returns nothing. */
  datatype Outcome = Done | Fail(error: Error)
}
