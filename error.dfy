/** `DbError` of src/error.rs, the error type of `db::add_account`, and its `status_code`. */
module Errors {
  import opened Http
  import opened Sqlx

  datatype DbError = Database(cause: SqlError) | Hashing | Exists

  function StatusCode(e: DbError): (status: int)
    ensures status in {StatusConflict, StatusInternalServerError}
    ensures status == StatusConflict <==> e.Exists?
  {
    match e
    case Exists => StatusConflict
    case _ => StatusInternalServerError
  }
}
