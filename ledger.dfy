/** The refresh-token ledger kept in Redis (src/repository/token_redis_repo.rs).

    The store is a map from key to entry; an entry set with `SETEX key ttl value`
    at time `now` lives while the clock is below `now + ttl`. What the pool and
    the server do on one call is the parameter `fault`. The pure functions
    `StoreStep`, `ExistsReply` and `DeleteStep` give the meaning of the three
    commands; the methods of `TokenRedisRepo` carry them out on the store. */
module Ledger {
  import opened Primitives
  import Text

  /** src/error/redis_error.rs */
  datatype RedisError = PoolError | RedisError

  /** The failure injected into one call: none, no connection from the pool,
      or the command itself failing. */
  datatype Fault = NoFault | PoolFailure | CommandFailure

  const KeyPrefix: string := "refresh_token:"

  function Key(token: string): string {
    KeyPrefix + token
  }

  /** `{"user_id": <user_id>, "exp": <ttl>}` */
  function EntryValue(userId: string, ttl: int): string {
    "{\"user_id\": " + userId + ", \"exp\": " + Text.IntToDecimal(ttl) + "}"
  }

  datatype Entry = Entry(value: string, expiresAt: int)

  type Store = map<string, Entry>

  /** A key is there, for EXISTS, while it has not expired. */
  predicate Live(store: Store, key: string, now: int) {
    key in store && now < store[key].expiresAt
  }

  /** Redis refuses SETEX with an expire time that is not positive. */
  predicate SetexAccepts(ttl: int) {
    ttl > 0
  }

  /** `store_refresh_token`: SETEX on the prefixed key; the new store is the second component. */
  function StoreStep(store: Store, userId: string, token: string, ttl: int, now: int, fault: Fault):
    (out: (Result<(), RedisError>, Store))
    ensures fault == PoolFailure ==> out.0 == Err(PoolError)
    ensures fault == CommandFailure ==> out.0 == Err(RedisError)
    ensures out.0.Err? && fault != PoolFailure ==> out.0 == Err(RedisError)
    ensures out.0.Ok? <==> fault == NoFault && SetexAccepts(ttl)
    ensures out.0.Err? ==> out.1 == store
    ensures out.0.Ok? ==> out.1.Keys == store.Keys + {Key(token)}
    ensures out.0.Ok? ==> out.1[Key(token)] == Entry(EntryValue(userId, ttl), now + ttl)
    ensures out.0.Ok? ==> forall k | k in store && k != Key(token) :: out.1[k] == store[k]
  {
    match fault
    case PoolFailure => (Err(PoolError), store)
    case CommandFailure => (Err(RedisError), store)
    case NoFault =>
      if SetexAccepts(ttl) then (Ok(()), store[Key(token) := Entry(EntryValue(userId, ttl), now + ttl)])
      else (Err(RedisError), store)
  }

  /** `is_refresh_token_valid`: EXISTS on the prefixed key. */
  function ExistsReply(store: Store, token: string, now: int, fault: Fault): (r: Result<bool, RedisError>)
    ensures r.Ok? <==> fault == NoFault
    ensures r == Ok(true) <==> fault == NoFault && Live(store, Key(token), now)
    ensures fault == PoolFailure ==> r == Err(PoolError)
    ensures fault == CommandFailure ==> r == Err(RedisError)
  {
    match fault
    case PoolFailure => Err(PoolError)
    case CommandFailure => Err(RedisError)
    case NoFault => Ok(Live(store, Key(token), now))
  }

  /** `delete_refresh_token`: DEL on the prefixed key, which succeeds whether or not the key is there. */
  function DeleteStep(store: Store, token: string, fault: Fault): (out: (Result<(), RedisError>, Store))
    ensures out.0.Ok? <==> fault == NoFault
    ensures fault == PoolFailure ==> out.0 == Err(PoolError)
    ensures fault == CommandFailure ==> out.0 == Err(RedisError)
    ensures out.0.Err? ==> out.1 == store
    ensures out.0.Ok? ==> out.1.Keys == store.Keys - {Key(token)}
    ensures out.0.Ok? ==> forall k | k in out.1 :: out.1[k] == store[k]
  {
    match fault
    case PoolFailure => (Err(PoolError), store)
    case CommandFailure => (Err(RedisError), store)
    case NoFault => (Ok(()), store - {Key(token)})
  }

  /** Prefixing is injective: distinct tokens have distinct keys. */
  lemma KeyInjective(token: string, other: string)
    ensures Key(token) == Key(other) <==> token == other
  {
    if Key(token) == Key(other) {
      assert token == Key(token)[|KeyPrefix|..];
      assert other == Key(other)[|KeyPrefix|..];
    }
  }

  /** After a successful store, the token is valid until its TTL runs out, and not after. */
  lemma StoredTokenIsValidUntilTtl(store: Store, userId: string, token: string, ttl: int, now: int, later: int)
    requires StoreStep(store, userId, token, ttl, now, NoFault).0.Ok?
    requires now <= later
    ensures ExistsReply(StoreStep(store, userId, token, ttl, now, NoFault).1, token, later, NoFault)
      == Ok(later < now + ttl)
  {
  }

  /** Storing a token again replaces the first entry: the second SETEX wins. */
  lemma StoreOverwrites(store: Store, u1: string, u2: string, token: string, ttl1: int, ttl2: int, t1: int, t2: int)
    requires StoreStep(store, u1, token, ttl1, t1, NoFault).0.Ok?
    requires SetexAccepts(ttl2)
    ensures StoreStep(StoreStep(store, u1, token, ttl1, t1, NoFault).1, u2, token, ttl2, t2, NoFault)
      == StoreStep(store, u2, token, ttl2, t2, NoFault)
  {
    var once := StoreStep(store, u1, token, ttl1, t1, NoFault).1;
    assert once[Key(token) := Entry(EntryValue(u2, ttl2), t2 + ttl2)]
      == store[Key(token) := Entry(EntryValue(u2, ttl2), t2 + ttl2)];
  }

  /** After a successful delete, the token is not valid, whatever the store held. */
  lemma DeletedTokenIsInvalid(store: Store, token: string, later: int)
    ensures DeleteStep(store, token, NoFault).0 == Ok(())
    ensures ExistsReply(DeleteStep(store, token, NoFault).1, token, later, NoFault) == Ok(false)
  {
  }

  /** Storing or deleting one token leaves what EXISTS says about every other token unchanged. */
  lemma OtherTokensUnaffected(store: Store, userId: string, token: string, ttl: int, now: int,
                              other: string, later: int, fault: Fault)
    requires other != token
    ensures ExistsReply(StoreStep(store, userId, token, ttl, now, NoFault).1, other, later, fault)
      == ExistsReply(store, other, later, fault)
    ensures ExistsReply(DeleteStep(store, token, NoFault).1, other, later, fault)
      == ExistsReply(store, other, later, fault)
  {
    KeyInjective(token, other);
  }

  /** The connection to the refresh-token store, which all three operations go through. */
  class TokenRedisRepo {
    var store: Store

    /** `TokenRedisRepo::new(pool)`: the repository sees whatever the server
        already holds; it adds and removes nothing. */
    constructor (current: Store)
      ensures store == current
    {
      store := current;
    }

    method StoreRefreshToken(userId: string, token: string, ttl: I64, now: nat, fault: Fault)
      returns (r: Result<(), RedisError>)
      modifies this
      ensures (r, store) == StoreStep(old(store), userId, token, ttl, now, fault)
    {
      if fault == PoolFailure {
        return Err(PoolError);
      }
      var key := Key(token);
      var value := EntryValue(userId, ttl);
      if fault == CommandFailure || !SetexAccepts(ttl) {
        return Err(RedisError);
      }
      store := store[key := Entry(value, now + ttl)];
      return Ok(());
    }

    method IsRefreshTokenValid(token: string, now: nat, fault: Fault) returns (r: Result<bool, RedisError>)
      ensures r == ExistsReply(store, token, now, fault)
    {
      if fault == PoolFailure {
        return Err(PoolError);
      }
      var key := Key(token);
      if fault == CommandFailure {
        return Err(RedisError);
      }
      var existed := key in store && now < store[key].expiresAt;
      return Ok(existed);
    }

    method DeleteRefreshToken(token: string, fault: Fault) returns (r: Result<(), RedisError>)
      modifies this
      ensures (r, store) == DeleteStep(old(store), token, fault)
    {
      if fault == PoolFailure {
        return Err(PoolError);
      }
      var key := Key(token);
      if fault == CommandFailure {
        return Err(RedisError);
      }
      store := store - {key};
      return Ok(());
    }
  }
}
