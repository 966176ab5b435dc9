/** Account creation straight on the pool (src/db.rs).

    Two queries run against the same table, the lookup and the insert, and
    the database may fail either: `lookupFault` and `insertFault` say how
    each goes. The salt argon2 draws from the operating system is the
    parameter `salt`. */
module Db {
  import opened Primitives
  import opened Sqlx
  import opened Password
  import opened Errors
  import opened AccountRepo

  /** `add_account`: a taken username is `Exists`, a failed hash is `Hashing`,
      a failed query is `Database`; otherwise the new row with the digest and
      role `"user"`, and the rows affected. The table changes only on success. */
  method AddAccount(pool: AccountTable, newAccount: NewAccount, hasher: PasswordHasher, salt: string,
                    lookupFault: DbFault, insertFault: DbFault)
    returns (r: Result<U64, DbError>)
    modifies pool
    ensures lookupFault == DbDown ==> r == Err(Database(DatabaseFailure))
    ensures lookupFault == DbUp && FindByUsername(old(pool.rows), newAccount.username).Some? ==> r == Err(Exists)
    ensures (lookupFault == DbUp && FindByUsername(old(pool.rows), newAccount.username).None? &&
             hasher.hash(newAccount.password, salt).None?) ==> r == Err(Hashing)
    ensures r.Ok? <==>
      && lookupFault == DbUp && FindByUsername(old(pool.rows), newAccount.username).None?
      && hasher.hash(newAccount.password, salt).Some?
      && insertFault == DbUp && old(pool.nextId) <= I32Max
    ensures r.Ok? ==> r.value == 1 && pool.nextId == old(pool.nextId) + 1
    ensures r.Ok? ==>
      pool.rows == old(pool.rows) + [Account(old(pool.nextId), newAccount.username,
                                             Some(hasher.hash(newAccount.password, salt).value), DefaultRole)]
    ensures r.Err? ==> pool.rows == old(pool.rows) && pool.nextId == old(pool.nextId)
    ensures r.Err? && r.error.Database? ==> r.error.cause == DatabaseFailure
    ensures (lookupFault == DbUp && FindByUsername(old(pool.rows), newAccount.username).None? &&
             hasher.hash(newAccount.password, salt).Some? && r.Err?) ==> r == Err(Database(DatabaseFailure))
  {
    if lookupFault == DbDown {
      return Err(Database(DatabaseFailure));
    }
    var acc := FindByUsername(pool.rows, newAccount.username);
    if acc.Some? {
      return Err(Exists);
    }
    var passwordHash := hasher.hash(newAccount.password, salt);
    if passwordHash.None? {
      return Err(Hashing);
    }
    var x := pool.Insert(newAccount.username, passwordHash.value, DefaultRole, insertFault);
    match x
    case Err(e) => return Err(Database(e));
    case Ok(rowsAffected) => return Ok(rowsAffected);
  }

  /** A new account can log in: its row is the one a lookup by its username
      finds, and under a sound hasher the password it was created with
      verifies against the stored digest. */
  method AddedAccountVerifies(pool: AccountTable, newAccount: NewAccount, hasher: PasswordHasher, salt: string)
    returns (r: Result<U64, DbError>, found: Result<Account, SqlError>)
    requires hasher.Sound()
    requires FindByUsername(pool.rows, newAccount.username).None?
    requires hasher.hash(newAccount.password, salt).Some?
    requires pool.nextId <= I32Max
    modifies pool
    ensures r == Ok(1)
    ensures found.Ok? && found.value.username == newAccount.username && found.value.role == DefaultRole
    ensures found.Ok? && found.value.password.Some? && hasher.verify(newAccount.password, found.value.password.value)
  {
    r := AddAccount(pool, newAccount, hasher, salt, DbUp, DbUp);
    FindByUsernameAppended(old(pool.rows), pool.rows[|pool.rows| - 1], newAccount.username);
    found := GetAccountByUsername(pool.rows, newAccount.username, DbUp);
  }
}
