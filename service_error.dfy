/** `ServiceError` and its `error_response` (src/error/service_error.rs). */
module ServiceErrors {
  import opened Http
  import opened Sqlx

  datatype ServiceError =
    | InvalidIdFormat
    | NotFound
    | DatabaseError(cause: SqlError)
    | JwtError
    | RedisError
    | UnAuthorizedError

  /** The status of the response `error_response` builds. */
  function ErrorResponseStatus(e: ServiceError): (status: int)
    ensures status in {StatusUnauthorized, StatusNotFound, StatusInternalServerError}
    ensures status == StatusUnauthorized <==> e.UnAuthorizedError?
    ensures status == StatusNotFound <==> e.NotFound?
  {
    match e
    case NotFound => StatusNotFound
    case RedisError => StatusInternalServerError
    case UnAuthorizedError => StatusUnauthorized
    case _ => StatusInternalServerError
  }

  /** Token, database, id-format and store failures are all internal errors. */
  lemma InternalFailuresAre500(e: ServiceError)
    requires e.JwtError? || e.DatabaseError? || e.InvalidIdFormat? || e.RedisError?
    ensures ErrorResponseStatus(e) == StatusInternalServerError
  {
  }
}
