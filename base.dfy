/** Outcome types shared by every route handler of the model. */
module Base {

  datatype Option<T> = None | Some(value: T) {
    function GetOr(default: T): T {
      match this
      case Some(v) => v
      case None => default
    }
  }

  /** The error kinds the handlers answer with, one per HTTP status:
      400 Bad Request, 403 Forbidden, 404 Not Found, 500 Internal Server
      Error. */
  datatype Error = BadRequest | Forbidden | NotFound | ServerError

  /** A handler's answer: a success value or an error kind. */
  datatype Result<T> = Ok(value: T) | Err(error: Error)

  /** JavaScript truthiness of an optional string field of a request:
      `undefined` and `""` are falsy. */
  predicate Truthy(s: Option<string>) {
    s.Some? && s.value != ""
  }
}
