/**
 * The two exceptions the inventory logic throws, and the result types that
 * carry them: `IllegalArgumentException` becomes `InvalidArgument` and
 * `BookNotFoundException` becomes `NotFound`, each with its detail message.
 */
module Errors {

  datatype Error = InvalidArgument(message: string) | NotFound(message: string)

  /** A call that returns a value or throws. */
  datatype Result<T> = Ok(value: T) | Err(error: Error)

  /** A `void` call that returns normally or throws. */
  datatype Outcome = Pass | Fail(error: Error)

  /** A Java reference that may be `null`, or an `Optional`. */
  datatype Option<T> = None | Some(value: T)
}
