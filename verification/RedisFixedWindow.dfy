// The Redis fixed-window limiter: one expiring counter per key and window, and its equivalence with
// the in-process limiter on every run of one shared clock.
module RedisFixedWindow {
  import opened Basics
  import opened Wrappers
  import opened FixedWindow
  import opened KeyEncoding
  import opened RedisExpiry

  /** A counter without an expiry lives on. */
  datatype Counter = Counter(value: nat, expireAtMillis: Option<nat>)

  type Keyspace = map<string, Counter>

  predicate Alive(ks: Keyspace, key: string, now: nat) {
    key in ks && (ks[key].expireAtMillis.Some? ==> ks[key].expireAtMillis.value > now)
  }

  /** The script: INCR, and PEXPIRE when the counter is new. INCR fails on a counter at its ceiling; a
      PEXPIRE that is refused fails the script and leaves the new counter behind. */
  function IncrScript(ks: Keyspace, key: string, ttlMillis: nat, now: nat): (Keyspace, Option<nat>) {
    if Alive(ks, key, now) then
      if ks[key].value >= I64_MAX then (ks, None)
      else (ks[key := ks[key].(value := ks[key].value + 1)], Some(ks[key].value + 1))
    else if ExpireAccepted(now, ttlMillis) then (ks[key := Counter(1, Some(now + ttlMillis))], Some(1))
    else (ks[key := Counter(1, None)], None)
  }

  function TtlMillis(w: nat): nat {
    Min(w + 1000, I64_MAX)
  }

  function RedisCheckStep(ks: Keyspace, id: Id, limit: Limit, now: int): (Keyspace, Result<Decision, LimitError>) {
    match limit
    case Unlimited => (ks, Ok(Decision(true, U32_MAX, None)))
    case Fixed(count, window) =>
      if window == 0 then (ks, Err(ZeroWindow))
      else
        var w := WindowMillis(window);
        var bucket := AlignedStart(UnixMillis(now), w);
        var (ks', current) :=
          IncrScript(ks, RedisBucketKey(id.namespace, id.key, bucket), TtlMillis(w), UnixMillis(now));
        match current
        case None => (ks', Err(Backend))
        case Some(current) => (ks', Ok(Decide(count, Min(current, U32_MAX), UnixMillis(now), bucket, w)))
  }

  /** The in-process cleanup has no counterpart: expiry does its work. */
  function KeyspaceAfter(ops: seq<Op>): Keyspace {
    if ops == [] then map[]
    else
      var (before, last) := (KeyspaceAfter(ops[..|ops| - 1]), ops[|ops| - 1]);
      match last
      case Check(id, limit, now) => RedisCheckStep(before, id, limit, now).0
      case Cleanup(_, _) => before
  }

  function RedisAnswerAt(ops: seq<Op>, j: nat): Result<Decision, LimitError>
    requires j < |ops| && ops[j].Check?
  {
    RedisCheckStep(KeyspaceAfter(ops[..j]), ops[j].id, ops[j].limit, ops[j].now).1
  }

  function Value(ks: Keyspace, id: Id, start: nat): nat {
    var key := RedisBucketKey(id.namespace, id.key, start);
    if key in ks then ks[key].value else 0
  }

  /** The counter of a window that the clock has not left yet exists only if it was hit, holds the rank,
      and outlives the window if it expires at all. */
  ghost predicate CountsWindow(ks: Keyspace, ops: seq<Op>, id: Id, w: nat, start: nat) {
    var key := RedisBucketKey(id.namespace, id.key, start);
    && Value(ks, id, start) == Rank(ops, id, start)
    && (key in ks ==> ks[key].value > 0)
    && (key in ks && ks[key].expireAtMillis.Some? ==> ks[key].expireAtMillis.value >= start + w)
  }

  lemma {:induction false} RedisCountsExactly(ops: seq<Op>, id: Id, w: nat, start: nat)
    requires Monotone(ops) && 0 < w <= I64_MAX && UsesWindow(ops, id, w) && |ops| <= I64_MAX
    requires start % w == 0 && start + w > Clock(ops)
    ensures CountsWindow(KeyspaceAfter(ops), ops, id, w, start)
  {
    hide RedisCheckStep, CountsWindow, AlignedStart, WindowMillis, UnixMillis;
    if ops == [] {
      EmptyKeyspace(id, w, start);
    } else {
      var n := |ops| - 1;
      RedisCountsExactly(ops[..n], id, w, start);
      if Hits(ops[n], id, start) {
        CountsWindowHit(KeyspaceAfter(ops[..n]), ops, w, start);
      } else {
        CountsWindowMiss(KeyspaceAfter(ops[..n]), ops, id, w, start);
      }
    }
  }

  lemma EmptyKeyspace(id: Id, w: nat, start: nat)
    ensures CountsWindow(map[], [], id, w, start)
  {
  }

  lemma CountsWindowHit(before: Keyspace, ops: seq<Op>, w: nat, start: nat)
    requires ops != [] && |ops| <= I64_MAX && w <= I64_MAX
    requires var op := ops[|ops| - 1];
      && Counts(op) && Window(op) == w && Start(op) == start
      && CountsWindow(before, ops[..|ops| - 1], op.id, w, start)
    ensures var op := ops[|ops| - 1];
      CountsWindow(RedisCheckStep(before, op.id, op.limit, op.now).0, ops, op.id, w, start)
  {
    hide RedisBucketKey, WindowMillis, UnixMillis;
  }

  lemma CountsWindowMiss(before: Keyspace, ops: seq<Op>, id: Id, w: nat, start: nat)
    requires ops != [] && !Hits(ops[|ops| - 1], id, start)
    requires CountsWindow(before, ops[..|ops| - 1], id, w, start)
    ensures var op := ops[|ops| - 1];
      CountsWindow(if op.Check? then RedisCheckStep(before, op.id, op.limit, op.now).0 else before, ops, id, w, start)
  {
    hide RedisBucketKey, WindowMillis, UnixMillis, AlignedStart;
    var op := ops[|ops| - 1];
    if Counts(op) &&
       RedisBucketKey(op.id.namespace, op.id.key, Start(op)) == RedisBucketKey(id.namespace, id.key, start)
    {
      RedisBucketKeyInjective(op.id.namespace, op.id.key, Start(op), id.namespace, id.key, start);
    }
  }

  /** Every window length is one Redis can be told to expire, and every key sticks to one window length. */
  predicate SharedRun(ops: seq<Op>) {
    && Monotone(ops) && |ops| <= I64_MAX
    && (forall i :: 0 <= i < |ops| && Counts(ops[i]) ==> Window(ops[i]) <= I64_MAX)
    && (forall i, j | 0 <= i < |ops| && 0 <= j < |ops| && Counts(ops[i]) && Counts(ops[j]) && ops[i].id == ops[j].id ::
          Window(ops[i]) == Window(ops[j]))
  }

  /** The check opens its window and the counter's expiry lies beyond what Redis accepts. */
  predicate Refused(ops: seq<Op>, j: nat)
    requires j < |ops|
  {
    Counts(ops[j]) && RankAt(ops, j) == 1 && !ExpireAccepted(Millis(ops[j]), TtlMillis(Window(ops[j])))
  }

  /** With cleanups of the in-process limiter interleaved anywhere, both limiters give a check the same
      allowed flag, remaining count and retry hint exactly unless Redis refuses the expiry of the window
      it opens; the checks behind such a one are counted alike again. */
  lemma LimitersAnswerAlike(ops: seq<Op>, j: nat)
    requires SharedRun(ops) && j < |ops| && ops[j].Check?
    ensures AnswerAt(ops, j) == RedisAnswerAt(ops, j) <==> !Refused(ops, j)
  {
    if Counts(ops[j]) {
      var (op, w) := (ops[j], Window(ops[j]));
      DecidedByRank(ops, j);
      assert Clock(ops[..j]) <= Millis(op);
      RedisCountsExactly(ops[..j], op.id, w, Start(op));
    }
  }

  /** In numbers: the check opens its window, and what the clock shows plus the window and a second, at most
      2^63 - 1, is beyond 2^63 - 1 milliseconds. */
  lemma RefusedIff(ops: seq<Op>, j: nat)
    requires j < |ops|
    ensures Refused(ops, j) <==>
            && Counts(ops[j]) && RankAt(ops, j) == 1
            && UnixMillis(ops[j].now) +
               (if Window(ops[j]) + 1000 < 0x7FFF_FFFF_FFFF_FFFF then Window(ops[j]) + 1000 else 0x7FFF_FFFF_FFFF_FFFF)
                 > 0x7FFF_FFFF_FFFF_FFFF
  {
  }

  /** The counter that an accepted check opens is told to expire one second after a window length from now. */
  lemma OpenedCounter(ks: Keyspace, id: Id, count: Count, window: nat, now: int)
    requires window > 0 && UnixMillis(now) + WindowMillis(window) + 1000 < 0x8000_0000_0000_0000
    ensures var (t, w) := (UnixMillis(now), WindowMillis(window));
      var key := RedisBucketKey(id.namespace, id.key, AlignedStart(t, w));
      !Alive(ks, key, t) ==>
        RedisCheckStep(ks, id, Fixed(count, window), now).0 == ks[key := Counter(1, Some(t + w + 1000))]
  {
  }
}
