// Monotonic instants and TTL durations in nanoseconds. Both volatile stores compute expiries this way.
module Clock {
  import opened Basics

  const NANOS_PER_SEC: nat := 1_000_000_000

  /** The last instant the clock type can hold: a signed 64-bit second count with nanoseconds. */
  const MAX_INSTANT: nat := 0x8000_0000_0000_0000 * 1_000_000_000 - 1

  type Instant = t: nat | t <= MAX_INSTANT

  /** `Duration::MAX`: an unsigned 64-bit second count with nanoseconds. */
  const MAX_DURATION: nat := 0x1_0000_0000_0000_0000 * 1_000_000_000 - 1

  type Duration = d: nat | d <= MAX_DURATION

  /** A zero TTL means one second. */
  function TtlDuration(ttl: Duration): (r: Duration)
    ensures r > 0
  {
    if ttl == 0 then NANOS_PER_SEC else ttl
  }

  /** The least number of whole seconds that covers the TTL, as Redis is told it: one for a zero TTL, and
      at most what 64 bits hold. */
  function TtlSecsCeil(ttl: Duration): (r: nat)
    ensures ttl == 0 ==> r == 1
    ensures ttl > 0 ==> (r - 1) * 1_000_000_000 < ttl
    ensures ttl <= r * 1_000_000_000 || r == 0xFFFF_FFFF_FFFF_FFFF
    ensures 0 < r <= 0xFFFF_FFFF_FFFF_FFFF
  {
    var d := TtlDuration(ttl);
    Min(d / NANOS_PER_SEC + if d % NANOS_PER_SEC != 0 then 1 else 0, U64_MAX)
  }

  /** The expiry computed for `duration` from `now`: exact with headroom; otherwise the duration is
      halved until it fits, which keeps at least half of the headroom there is. */
  function SaturatingAdd(now: Instant, duration: Duration): (r: Instant)
    ensures now + duration <= MAX_INSTANT ==> r == now + duration
    ensures now + duration > MAX_INSTANT ==> MAX_INSTANT - now <= 2 * (r - now) + 1
    ensures now <= r
    ensures duration > 0 ==> (r > now <==> now < MAX_INSTANT)
  {
    if now + duration <= MAX_INSTANT then now + duration
    else if duration / 2 == 0 then now
    else SaturatingAdd(now, duration / 2)
  }

  /** When what is stored at `now` with `ttl` expires. */
  function Expiry(now: Instant, ttl: Duration): Instant {
    SaturatingAdd(now, TtlDuration(ttl))
  }

  /** How long what is stored with `ttl` lasts. */
  function Lifetime(ttl: Duration): nat {
    if ttl == 0 then 1_000_000_000 else ttl
  }

  /** Short of the clock's end, what is stored at `now` lasts for its TTL to the nanosecond, and for a
      second if that is zero. */
  lemma ExpiryIsExact(now: Instant, ttl: Duration)
    requires now + Lifetime(ttl) < 0x8000_0000_0000_0000 * 1_000_000_000
    ensures Expiry(now, ttl) == now + Lifetime(ttl)
  {
  }

  /** The halving loop of `instant_saturating_add`. */
  method InstantSaturatingAdd(now: Instant, duration: Duration) returns (r: Instant)
    ensures r == SaturatingAdd(now, duration)
  {
    var d := duration;
    while true
      invariant SaturatingAdd(now, d) == SaturatingAdd(now, duration)
      decreases d
    {
      if now + d <= MAX_INSTANT {
        return now + d;
      }
      d := d / 2;
      if d == 0 {
        return now;
      }
    }
  }
}
