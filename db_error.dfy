/** `DbError` of src/error/db_error.rs and its `status_code`. */
module DbErrors {
  import opened Http

  datatype DbError = InternalError | InsertError | Existed | NotFound

  function StatusCode(e: DbError): (status: int)
    ensures status in {StatusNotFound, StatusConflict, StatusInternalServerError}
    ensures status == StatusConflict <==> e.Existed?
    ensures status == StatusNotFound <==> e.NotFound?
  {
    match e
    case Existed => StatusConflict
    case NotFound => StatusNotFound
    case _ => StatusInternalServerError
  }
}
