/** Values the web framework supplies to the application: an optional value,
    the `HTTPException` that handlers raise, and a result that is either a
    value or such an exception. */
module Http {

  datatype Option<+T> = None | Some(value: T) {
    function GetOr(default: T): T {
      match this
      case Some(v) => v
      case None => default
    }
  }

  /** An `HTTPException(status_code, detail, headers)`. */
  datatype HttpException = HttpException(statusCode: int, detail: string, headers: map<string, string>)

  /** Either the value a call returns or the exception it raises. */
  datatype Result<+T> = Ok(value: T) | Err(error: HttpException)

  const NoHeaders: map<string, string> := map[]
}
