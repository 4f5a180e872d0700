// Values shared by the service and the request handlers: optional values,
// results of calls that may throw, thrown errors and schema validation results.
module Common {

  datatype Option<+T> = None | Some(value: T)

  /** The outcome of a call that either returns a value or throws an error. */
  datatype Result<+T, +E> = Ok(value: T) | Err(error: E)

  /**
   * A thrown JavaScript Error: its `message`, and the `code` of its `cause`
   * when it has one (`e.cause?.code`), which is how the database driver
   * reports a constraint violation.
   */
  datatype Error = Error(message: string, causeCode: Option<string>)

  /** The message by which the services report a missing user. */
  const USER_NOT_FOUND := "User not found"

  /** An error raised by the application itself: `new Error(message)`, no cause. */
  function Raised(message: string): Error {
    Error(message, None)
  }

  /** One formatted validation issue: the offending field and what is wrong with it. */
  datatype FieldError = FieldError(field: string, message: string)

  /**
   * The result of a schema's `safeParse`, after the issues have been
   * formatted for the response: the parsed data, or the list of issues.
   */
  datatype Validation<+T> = Passed(data: T) | Failed(details: seq<FieldError>)
}
