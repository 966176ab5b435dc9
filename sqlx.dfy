/** The database collaborator of the model: the `sqlx::Error` cases the code
    tells apart, and the failure the environment may inject into a query. */
module Sqlx {

  /** `sqlx::Error`: `RowNotFound` is matched on by name; every other error is
      a failure of the database itself, or the violation of a table constraint. */
  datatype SqlError = RowNotFound | DatabaseFailure | UniqueViolation

  /** Whether the database answers the next query or fails it (pool exhausted, connection lost, ...). */
  datatype DbFault = DbUp | DbDown
}
