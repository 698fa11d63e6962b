// The range check that every Redis expiry command makes.
module RedisExpiry {
  import opened Basics

  /** An expiry is refused when signed 64-bit milliseconds since the epoch cannot say it. */
  predicate ExpireAccepted(nowMillis: nat, ttlMillis: nat) {
    nowMillis + ttlMillis <= I64_MAX
  }
}
