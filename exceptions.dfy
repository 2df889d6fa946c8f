/**
 * The HTTP statuses the controller answers with, and the ApiExceptions carrier
 * (a message and a status) that the global exception handler turns into a response.
 */
module Exceptions {
  datatype HttpStatus = HttpOk | HttpCreated | HttpBadRequest | HttpNotFound | HttpInternalServerError
  {
    /** The numeric status code Spring sends for this status. */
    function Code(): (code: int)
      ensures 200 <= code < 600
      ensures (code < 300) <==> (this == HttpOk || this == HttpCreated)
    {
      match this
      case HttpOk => 200
      case HttpCreated => 201
      case HttpBadRequest => 400
      case HttpNotFound => 404
      case HttpInternalServerError => 500
    }
  }

  /** An ApiExceptions: the message it was thrown with and its HTTP status. */
  datatype ApiError = ApiError(message: string, status: HttpStatus)
}
