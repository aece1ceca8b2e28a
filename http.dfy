/** The HTTP outcomes the controllers distinguish. */
module Http {
  datatype Status =
    | Success       // 200
    | Created       // 201
    | NoContent     // 204
    | Forbidden     // 403
    | NotFound      // 404
    | Unprocessable // 422: validation failed or the request was refused
    | ServerError   // 500: an error the controller does not handle

  /** The numeric status code. */
  function Code(s: Status): int {
    match s
    case Success => 200
    case Created => 201
    case NoContent => 204
    case Forbidden => 403
    case NotFound => 404
    case Unprocessable => 422
    case ServerError => 500
  }

  /** A status the client reads as success. */
  predicate IsSuccess(s: Status) {
    s == Success || s == Created || s == NoContent
  }
}
