/** `ApiException` and the other exceptions the modelled code lets escape. */
module Errors {
  import opened Wrappers
  import opened Primitives

  /** An HTTP-level failure: a status code (or 0, or 400/500 for client-side failures),
      a message, and optionally the response text it came from. */
  datatype ApiException = ApiException(errorCode: int32, message: string, errorContent: Option<string>)

  /** The two-argument constructor, which leaves `ErrorContent` null. */
  function ApiExceptionOf(errorCode: int32, message: string): ApiException {
    ApiException(errorCode, message, None)
  }

  /** Everything an operation of the model can throw. */
  datatype Failure =
    | ApiError(exception: ApiException)
      /** `ArgumentNullException` from a dictionary given a null key. */
    | ArgumentNull(paramName: string)
      /** `NullReferenceException` from a method called on a null object. */
    | NullReference
      /** `ArgumentException` from `Dictionary.Add` given a key already present. */
    | DuplicateKey(key: string)
      /** A JSON codec exception that the client does not wrap. */
    | CodecError(message: string)
}
