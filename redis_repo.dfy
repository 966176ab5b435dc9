/** The free-function version of the ledger (src/repository/redis_repo.rs):
    the same three commands on the same store, reached through the pool
    argument, with an unsigned TTL. */
module RedisRepo {
  import opened Primitives
  import opened Ledger

  method StoreRefreshToken(pool: TokenRedisRepo, userId: string, token: string, ttl: U64, now: nat, fault: Fault)
    returns (r: Result<(), RedisError>)
    modifies pool
    ensures (r, pool.store) == StoreStep(old(pool.store), userId, token, ttl, now, fault)
  {
    if fault == PoolFailure {
      return Err(PoolError);
    }
    var key := Key(token);
    var value := EntryValue(userId, ttl);
    if fault == CommandFailure || !SetexAccepts(ttl) {
      return Err(RedisError);
    }
    pool.store := pool.store[key := Entry(value, now + ttl)];
    return Ok(());
  }

  method IsRefreshTokenValid(pool: TokenRedisRepo, token: string, now: nat, fault: Fault)
    returns (r: Result<bool, RedisError>)
    ensures r == ExistsReply(pool.store, token, now, fault)
  {
    if fault == PoolFailure {
      return Err(PoolError);
    }
    var key := Key(token);
    if fault == CommandFailure {
      return Err(RedisError);
    }
    var existed := key in pool.store && now < pool.store[key].expiresAt;
    return Ok(existed);
  }

  method DeleteRefreshToken(pool: TokenRedisRepo, token: string, fault: Fault) returns (r: Result<(), RedisError>)
    modifies pool
    ensures (r, pool.store) == DeleteStep(old(pool.store), token, fault)
  {
    if fault == PoolFailure {
      return Err(PoolError);
    }
    var key := Key(token);
    if fault == CommandFailure {
      return Err(RedisError);
    }
    pool.store := pool.store - {key};
    return Ok(());
  }

  /** Store, then exists, answers true while the TTL runs; delete, then exists, answers false. */
  method StoreThenCheck(pool: TokenRedisRepo, userId: string, token: string, ttl: U64, now: nat)
    returns (afterStore: Result<bool, RedisError>, afterDelete: Result<bool, RedisError>)
    requires ttl > 0
    modifies pool
    ensures afterStore == Ok(true) && afterDelete == Ok(false)
  {
    var stored := StoreRefreshToken(pool, userId, token, ttl, now, NoFault);
    afterStore := IsRefreshTokenValid(pool, token, now, NoFault);
    var deleted := DeleteRefreshToken(pool, token, NoFault);
    afterDelete := IsRefreshTokenValid(pool, token, now, NoFault);
  }
}
