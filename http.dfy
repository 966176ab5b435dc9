/** HTTP status codes as actix-web produces them, the status-carrying
    `actix_web::Error`, and the outcome of a handler that may panic. */
module Http {
  import opened Primitives

  const StatusUnauthorized: int := 401
  const StatusForbidden: int := 403
  const StatusNotFound: int := 404
  const StatusConflict: int := 409
  const StatusInternalServerError: int := 500

  /** `actix_web::Error` built by `ErrorNotFound`, `ErrorConflict`, ...: only its status matters here. */
  datatype HttpError = HttpError(status: int)

  /** What an operation that calls `unwrap` ends in: it returns its result, or it panics. */
  datatype Outcome<+T> = Returned(result: Result<T, HttpError>) | Panicked
}
