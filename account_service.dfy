/** Account lookup by id (src/service/account_service.rs).

    The id arrives as text taken from the request; it is parsed as an `i32`
    and the account table is asked for that id. */
module AccountService {
  import opened Primitives
  import opened Http
  import opened Sqlx
  import opened Text
  import opened AccountRepo

  /** `get_account_info`: text that is no `i32` is a server error, an id no row
      has is 404, a failed query is 500; otherwise the row with that id. */
  function GetAccountInfo(rows: seq<Account>, id: string, fault: DbFault): (r: Result<Account, HttpError>)
    ensures ParseI32(id).None? ==> r == Err(HttpError(StatusInternalServerError))
    ensures r.Ok? <==> ParseI32(id).Some? && fault == DbUp && FindById(rows, ParseI32(id).value).Some?
    ensures r.Ok? ==> r.value in rows && Some(r.value.id) == ParseI32(id)
    ensures r.Ok? ==> Ok(r.value) == GetAccountById(rows, ParseI32(id).value, fault)
    ensures r.Ok? ==> Some(r.value) == FindById(rows, ParseI32(id).value)
    ensures r == Err(HttpError(StatusNotFound)) <==>
      ParseI32(id).Some? && fault == DbUp && forall a | a in rows :: a.id != ParseI32(id).value
    ensures r.Err? ==> r.error.status in {StatusNotFound, StatusInternalServerError}
  {
    match ParseI32(id)
    case None => Err(HttpError(StatusInternalServerError))
    case Some(n) =>
      match GetAccountById(rows, n, fault)
      case Ok(account) => Ok(account)
      case Err(RowNotFound) => Err(HttpError(StatusNotFound))
      case Err(_) => Err(HttpError(StatusInternalServerError))
  }

  /** The id a token carries is the account id in decimal (what login writes);
      looking it up finds that account, or the first row sharing its id. */
  lemma DisplayedIdFindsAccount(rows: seq<Account>, account: Account)
    requires account in rows
    ensures GetAccountInfo(rows, IntToDecimal(account.id), DbUp) == Ok(FindById(rows, account.id).value)
    ensures GetAccountInfo(rows, IntToDecimal(account.id), DbUp).value.id == account.id
  {
    ParseI32OfDecimal(account.id);
  }

  /** Text that is no `i32` is refused before the table is read: the answer is
      the same for every table and every database state. */
  lemma UnparsableIdIgnoresTable(rows1: seq<Account>, rows2: seq<Account>, id: string, f1: DbFault, f2: DbFault)
    requires ParseI32(id).None?
    ensures GetAccountInfo(rows1, id, f1) == GetAccountInfo(rows2, id, f2)
  {
  }

  /** A sign alone and the empty text are no ids: both are server errors. */
  lemma MalformedIdsAreServerErrors(rows: seq<Account>, fault: DbFault)
    ensures GetAccountInfo(rows, "-", fault) == Err(HttpError(StatusInternalServerError))
    ensures GetAccountInfo(rows, "", fault) == Err(HttpError(StatusInternalServerError))
  {
    assert "-"[1..] == "";
  }

  /** A number past the `i32` range is a server error, not a 404: the id is
      refused before the table is read. */
  lemma OutOfRangeIdIsServerError(rows: seq<Account>, fault: DbFault, id: string)
    requires id != "" && AllDigits(id) && DigitsValue(id) > I32Max
    ensures GetAccountInfo(rows, id, fault) == Err(HttpError(StatusInternalServerError))
  {
    assert IsDigit(id[0]);
  }
}
