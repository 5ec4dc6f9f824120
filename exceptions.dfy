/**
 * The exceptions the services raise, as values, and the result of an
 * operation that either returns a value or throws one of them.
 */
module Exceptions {
  import opened Wrappers

  /** One rejected request field (a FieldError); its default message is nullable. */
  datatype FieldError = FieldError(field: string, defaultMessage: Option<string>)

  datatype AppException =
    | AuthenticationFailure(message: string)    // Spring Security AuthenticationException
    | IllegalState(message: string)             // IllegalStateException
    | IllegalArgument(message: string)          // IllegalArgumentException
    | ArgumentNotValid(fieldErrors: seq<FieldError>)  // MethodArgumentNotValidException
    | Runtime(message: string)                  // any other RuntimeException

  datatype Result<+T> = Ok(value: T) | Err(error: AppException)
}
