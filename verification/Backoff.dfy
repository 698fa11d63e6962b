// The two exponential backoff loops, early exit and saturation included, against their closed form.
module Backoff {
  import opened Basics
  import opened Wrappers
  import opened Clock

  datatype BackoffError = InvalidBackoff

  datatype Policy = Policy(initial: Duration, max: Duration, multiplier: nat)

  /** What both constructors accept. */
  predicate Valid(p: Policy) {
    0 < p.initial <= p.max && 0 < p.multiplier <= U32_MAX
  }

  function NewPolicy(initial: Duration, max: Duration, multiplier: nat): (r: Result<Policy, BackoffError>)
    requires multiplier <= U32_MAX
    ensures r.Ok? <==> Valid(Policy(initial, max, multiplier))
    ensures r.Ok? ==> r.value == Policy(initial, max, multiplier)
  {
    if initial == 0 || max == 0 || multiplier == 0 || max < initial then Err(InvalidBackoff)
    else Ok(Policy(initial, max, multiplier))
  }

  function SaturatingMul(d: Duration, factor: nat): Duration {
    if d * factor <= MAX_DURATION then d * factor else MAX_DURATION
  }

  function Pow(base: nat, exponent: nat): nat {
    if exponent == 0 then 1 else base * Pow(base, exponent - 1)
  }

  /** `min(max, initial * multiplier^retry)` */
  function DelayOf(p: Policy, retry: nat): nat {
    Min(p.max, p.initial * Pow(p.multiplier, retry))
  }

  // ----- arithmetic of the closed form -----

  lemma PowPositive(base: nat, exponent: nat)
    requires base > 0
    ensures Pow(base, exponent) > 0
  {
  }

  lemma PowStep(p: Policy, retry: nat)
    ensures p.initial * Pow(p.multiplier, retry + 1) == (p.initial * Pow(p.multiplier, retry)) * p.multiplier
  {
    var (i, m, x) := (p.initial, p.multiplier, Pow(p.multiplier, retry));
    assert i * (m * x) == (i * x) * m;
  }

  /** One more multiplication, capped, is one more power, capped. */
  lemma NextDelay(p: Policy, retry: nat)
    requires Valid(p)
    ensures DelayOf(p, retry) <= MAX_DURATION
    ensures Min(SaturatingMul(DelayOf(p, retry), p.multiplier), p.max) == DelayOf(p, retry + 1)
    ensures DelayOf(p, retry) <= DelayOf(p, retry + 1)
    ensures DelayOf(p, retry) == DelayOf(p, retry + 1) <==> p.multiplier == 1 || DelayOf(p, retry) == p.max
  {
    PowStep(p, retry);
    PowPositive(p.multiplier, retry);
    NextCapped(p.initial * Pow(p.multiplier, retry), p.multiplier, p.max);
    assert p.initial * Pow(p.multiplier, retry) > 0;
  }

  lemma NextCapped(x: nat, m: nat, max: nat)
    requires m > 0 && max <= MAX_DURATION
    ensures Min(SaturatingMul(Min(max, x), m), max) == Min(max, x * m)
    ensures Min(max, x) <= Min(max, x * m)
    ensures x > 0 ==> (Min(max, x) == Min(max, x * m) <==> m == 1 || max <= x)
  {
    MulMonotone(1, m, x);
    if x > max {
      MulMonotone(max, x, m);
      MulMonotone(1, m, max);
    } else if m >= 2 {
      MulMonotone(2, m, x);
    }
  }

  lemma {:induction false} Settled(p: Policy, retry: nat, later: nat)
    requires Valid(p) && retry <= later && DelayOf(p, retry) == DelayOf(p, retry + 1)
    ensures DelayOf(p, later) == DelayOf(p, retry)
  {
    if retry < later {
      Settled(p, retry, later - 1);
      NextDelay(p, later - 1);
      NextDelay(p, retry);
    }
  }

  // ----- the loops -----

  /** How many times the loop ran: once more at most than it takes to reach the cap. */
  ghost predicate FewIterations(p: Policy, iterations: nat) {
    && (p.multiplier == 1 ==> iterations <= 1)
    && (iterations >= 2 ==> p.initial * Pow(p.multiplier, iterations - 2) < p.max)
  }

  lemma FewStep(p: Policy, i: nat)
    requires FewIterations(p, i)
    requires (p.multiplier == 1 ==> i == 0) && (i > 0 ==> DelayOf(p, i - 1) < p.max)
    ensures FewIterations(p, i + 1)
  {
  }

  lemma LoopStarts(p: Policy)
    requires Valid(p)
    ensures DelayOf(p, 0) == p.initial && FewIterations(p, 0)
  {
  }

  /** `delay_for_attempt_index`: zero-based retry index. */
  method DelayForAttemptIndex(p: Policy, attemptIndex: nat) returns (delay: Duration, ghost iterations: nat)
    requires Valid(p)
    ensures delay == DelayOf(p, attemptIndex)
    ensures iterations <= attemptIndex && FewIterations(p, iterations)
  {
    hide DelayOf, FewIterations, SaturatingMul;
    LoopStarts(p);
    delay := p.initial;
    iterations := 0;
    for i := 0 to attemptIndex
      invariant delay == DelayOf(p, i) && iterations == i && FewIterations(p, i)
      invariant p.multiplier == 1 ==> i == 0
      invariant i > 0 ==> DelayOf(p, i - 1) < p.max
    {
      NextDelay(p, i);
      FewStep(p, i);
      iterations := iterations + 1;
      var next := Min(SaturatingMul(delay, p.multiplier), p.max);
      if next == delay {
        Settled(p, i, attemptIndex);
        break;
      }
      delay := next;
    }
  }

  /** `delay_for_attempt`: one-based attempt number, with attempt 0 treated as the first. */
  method DelayForAttempt(p: Policy, attempt: nat) returns (delay: Duration, ghost iterations: nat)
    requires Valid(p)
    ensures delay == DelayOf(p, if attempt == 0 then 0 else attempt - 1)
    ensures iterations <= attempt && FewIterations(p, iterations)
  {
    var retries := if attempt == 0 then 0 else attempt - 1;
    hide DelayOf, FewIterations, SaturatingMul;
    LoopStarts(p);
    delay := p.initial;
    iterations := 0;
    for i := 0 to retries
      invariant delay == DelayOf(p, i) && iterations == i && FewIterations(p, i)
      invariant p.multiplier == 1 ==> i == 0
      invariant i > 0 ==> DelayOf(p, i - 1) < p.max
    {
      NextDelay(p, i);
      FewStep(p, i);
      iterations := iterations + 1;
      var next := Min(SaturatingMul(delay, p.multiplier), p.max);
      if next == delay {
        Settled(p, i, retries);
        break;
      }
      delay := next;
    }
  }

  function AttemptFromCompletedCount(completed: nat): (attempt: nat)
    requires completed <= U32_MAX
    ensures 0 < attempt <= U32_MAX
  {
    if completed < U32_MAX then completed + 1 else U32_MAX
  }

  /** The delay after `completed` attempts is the one for retry index `completed`; only the saturated
      counter lags one behind. */
  method DelayForCompletedAttempts(p: Policy, completed: nat) returns (delay: Duration)
    requires Valid(p) && completed <= 0xFFFF_FFFF
    ensures completed < 0xFFFF_FFFF ==> delay == DelayOf(p, completed)
    ensures completed == 0xFFFF_FFFF ==> delay == DelayOf(p, 0xFFFF_FFFE)
  {
    ghost var iterations;
    delay, iterations := DelayForAttempt(p, AttemptFromCompletedCount(completed));
  }

  // ----- properties of the delays -----

  /** Delays never fall, start at the initial delay and never pass the cap. */
  lemma {:induction false} DelaysMonotone(p: Policy, retry: nat, later: nat)
    requires Valid(p) && retry <= later
    ensures p.initial == DelayOf(p, 0) <= DelayOf(p, retry) <= DelayOf(p, later) <= p.max
    decreases later
  {
    if later > 0 {
      NextDelay(p, later - 1);
      DelaysMonotone(p, if retry < later then retry else later - 1, later - 1);
    }
  }

  /** With a multiplier of at least two, a loop that iterates this often needs a cap that many doublings
      above the initial delay. */
  lemma {:induction false} IterationsLogarithmic(p: Policy, iterations: nat)
    requires Valid(p) && p.multiplier >= 2 && iterations >= 2 && FewIterations(p, iterations)
    ensures p.initial * Pow(2, iterations - 2) < p.max
  {
    PowDominates(p.multiplier, iterations - 2);
    MulMonotone(Pow(2, iterations - 2), Pow(p.multiplier, iterations - 2), p.initial);
  }

  lemma {:induction false} PowDominates(base: nat, exponent: nat)
    requires base >= 2
    ensures Pow(2, exponent) <= Pow(base, exponent)
  {
    if exponent > 0 {
      PowDominates(base, exponent - 1);
      MulMonotone(2, base, Pow(2, exponent - 1));
      MulMonotone(Pow(2, exponent - 1), Pow(base, exponent - 1), base);
    }
  }
}
