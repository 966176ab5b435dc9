/** The account table (src/repository/account_repo.rs, src/model.rs).

    The table is a sequence of rows in insertion order, with the serial id
    the next insert receives. The schema is not part of this model: the
    table is taken to have a serial `i32` id and a unique username. */
module AccountRepo {
  import opened Primitives
  import opened Sqlx

  datatype Account = Account(id: I32, username: string, password: Option<string>, role: string)

  datatype NewAccount = NewAccount(username: string, password: string)

  /** The role every insert binds. */
  const DefaultRole: string := "user"

  /** The row a query with a `WHERE` condition returns: the first row, in
      insertion order, that satisfies the condition. */
  function FindFirst(rows: seq<Account>, matches: Account -> bool): (r: Option<Account>)
    ensures r.Some? ==> r.value in rows && matches(r.value)
    ensures r.Some? ==>
      exists i | 0 <= i < |rows| :: rows[i] == r.value && forall j | 0 <= j < i :: !matches(rows[j])
    ensures r.None? <==> forall a | a in rows :: !matches(a)
  {
    if rows == [] then None
    else if matches(rows[0]) then Some(rows[0])
    else FindFirst(rows[1..], matches)
  }

  /** The row a lookup by username returns. */
  function FindByUsername(rows: seq<Account>, username: string): (r: Option<Account>)
    ensures r.Some? ==> r.value in rows && r.value.username == username
    ensures r.Some? ==>
      exists i | 0 <= i < |rows| :: rows[i] == r.value && forall j | 0 <= j < i :: rows[j].username != username
    ensures r.None? <==> forall a | a in rows :: a.username != username
  {
    FindFirst(rows, (a: Account) => a.username == username)
  }

  /** The row a lookup by id returns. */
  function FindById(rows: seq<Account>, id: I32): (r: Option<Account>)
    ensures r.Some? ==> r.value in rows && r.value.id == id
    ensures r.Some? ==>
      exists i | 0 <= i < |rows| :: rows[i] == r.value && forall j | 0 <= j < i :: rows[j].id != id
    ensures r.None? <==> forall a | a in rows :: a.id != id
  {
    FindFirst(rows, (a: Account) => a.id == id)
  }

  predicate UniqueUsernames(rows: seq<Account>) {
    forall i, j | 0 <= i < j < |rows| :: rows[i].username != rows[j].username
  }

  /** `get_account_by_username`: no row becomes `RowNotFound`, a query error is passed on. */
  function GetAccountByUsername(rows: seq<Account>, username: string, fault: DbFault): (r: Result<Account, SqlError>)
    ensures fault == DbDown ==> r == Err(DatabaseFailure)
    ensures fault == DbUp ==> (r == Err(RowNotFound) <==> forall a | a in rows :: a.username != username)
    ensures fault == DbUp && FindByUsername(rows, username).Some? ==> r == Ok(FindByUsername(rows, username).value)
    ensures r.Ok? ==> fault == DbUp && r.value in rows && r.value.username == username
    ensures r.Err? ==> r.error == RowNotFound || r.error == DatabaseFailure
  {
    match fault
    case DbDown => Err(DatabaseFailure)
    case DbUp =>
      match FindByUsername(rows, username)
      case Some(data) => Ok(data)
      case None => Err(RowNotFound)
  }

  /** `AccountRepository::is_account_exist` (src/traits/account_trait.rs): `Ok`
      when a row has the username, `RowNotFound` when none has, a query error
      when the database fails. Its implementation is not part of this model. */
  function IsAccountExist(rows: seq<Account>, username: string, fault: DbFault): (r: Result<(), SqlError>)
    ensures r.Ok? <==> fault == DbUp && exists a | a in rows :: a.username == username
  {
    match GetAccountByUsername(rows, username, fault)
    case Ok(_) => Ok(())
    case Err(e) => Err(e)
  }

  /** `AccountRepository::get_account_by_id` (src/traits/account_trait.rs), read the same way. */
  function GetAccountById(rows: seq<Account>, id: I32, fault: DbFault): (r: Result<Account, SqlError>)
    ensures fault == DbDown ==> r == Err(DatabaseFailure)
    ensures fault == DbUp ==> (r == Err(RowNotFound) <==> forall a | a in rows :: a.id != id)
    ensures fault == DbUp && FindById(rows, id).Some? ==> r == Ok(FindById(rows, id).value)
    ensures r.Ok? ==> fault == DbUp && r.value in rows && r.value.id == id
    ensures r.Err? ==> r.error == RowNotFound || r.error == DatabaseFailure
  {
    match fault
    case DbDown => Err(DatabaseFailure)
    case DbUp =>
      match FindById(rows, id)
      case Some(data) => Ok(data)
      case None => Err(RowNotFound)
  }

  /** A row appended after none that satisfies the condition is the one found. */
  lemma {:induction false} FindFirstAppended(rows: seq<Account>, a: Account, matches: Account -> bool)
    requires FindFirst(rows, matches).None?
    requires matches(a)
    ensures FindFirst(rows + [a], matches) == Some(a)
  {
    if rows != [] {
      assert (rows + [a])[1..] == rows[1..] + [a];
      FindFirstAppended(rows[1..], a, matches);
    }
  }

  /** A username no row has is found, after an append, in the appended row. */
  lemma FindByUsernameAppended(rows: seq<Account>, a: Account, username: string)
    requires FindByUsername(rows, username).None?
    requires a.username == username
    ensures FindByUsername(rows + [a], username) == Some(a)
  {
    FindFirstAppended(rows, a, (x: Account) => x.username == username);
  }

  class AccountTable {
    var rows: seq<Account>
    /** The value the id sequence hands out next. */
    var nextId: nat

    constructor ()
      ensures rows == [] && nextId == 1
    {
      rows := [];
      nextId := 1;
    }

    /** The INSERT of an account with the three values bound to it. It fails
        when the database does, when the id sequence has run past the `i32`
        range, and when the username is taken. The id default is drawn before
        the uniqueness of the username is checked, so an insert refused for a
        taken username still uses up an id. */
    method Insert(username: string, password: string, role: string, fault: DbFault)
      returns (r: Result<U64, SqlError>)
      modifies this
      ensures fault == DbDown ==> r == Err(DatabaseFailure)
      ensures r == Err(UniqueViolation) <==>
        fault == DbUp && old(nextId) <= I32Max && FindByUsername(old(rows), username).Some?
      ensures r.Err? ==> r.error == DatabaseFailure || r.error == UniqueViolation
      ensures r.Ok? <==> fault == DbUp && FindByUsername(old(rows), username).None? && old(nextId) <= I32Max
      ensures r.Ok? ==> r.value == 1
      ensures r.Ok? ==> rows == old(rows) + [Account(old(nextId), username, Some(password), role)]
      ensures r.Err? ==> rows == old(rows)
      ensures nextId == if fault == DbUp && old(nextId) <= I32Max then old(nextId) + 1 else old(nextId)
      ensures UniqueUsernames(old(rows)) ==> UniqueUsernames(rows)
    {
      if fault == DbDown {
        return Err(DatabaseFailure);
      }
      if nextId > I32Max {
        return Err(DatabaseFailure);
      }
      var id := nextId;
      nextId := nextId + 1;
      if FindByUsername(rows, username).Some? {
        return Err(UniqueViolation);
      }
      rows := rows + [Account(id, username, Some(password), role)];
      return Ok(1);
    }
  }

  /** `insert_account`: the username and password as given, the role `"user"`;
      the rows affected on success, the query error otherwise. */
  method InsertAccount(pool: AccountTable, username: string, password: string, fault: DbFault)
    returns (r: Result<U64, SqlError>)
    modifies pool
    ensures fault == DbDown ==> r == Err(DatabaseFailure)
    ensures r == Err(UniqueViolation) <==>
      fault == DbUp && old(pool.nextId) <= I32Max && FindByUsername(old(pool.rows), username).Some?
    ensures r.Err? ==> r.error == DatabaseFailure || r.error == UniqueViolation
    ensures r.Ok? <==> fault == DbUp && FindByUsername(old(pool.rows), username).None? && old(pool.nextId) <= I32Max
    ensures r.Ok? ==> r.value == 1
    ensures r.Ok? ==> pool.rows == old(pool.rows) + [Account(old(pool.nextId), username, Some(password), DefaultRole)]
    ensures r.Err? ==> pool.rows == old(pool.rows)
    ensures pool.nextId ==
      if fault == DbUp && old(pool.nextId) <= I32Max then old(pool.nextId) + 1 else old(pool.nextId)
  {
    r := pool.Insert(username, password, DefaultRole, fault);
  }
}
