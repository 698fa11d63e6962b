// The in-process fixed-window limiter: one reused bucket per key. Every decision is proved to depend
// only on the rank of the request within its aligned window.
module FixedWindow {
  import opened Basics
  import opened Wrappers

  const NANOS_PER_MILLI: nat := 1_000_000

  datatype Id = Id(namespace: string, key: string)

  type Count = n: nat | 0 < n <= U32_MAX witness 1

  datatype Limit = Fixed(count: Count, window: nat) | Unlimited

  datatype Decision = Decision(allowed: bool, remaining: nat, retryAfterMillis: Option<nat>)

  datatype LimitError = ZeroWindow | Backend

  datatype Bucket = Bucket(windowStart: nat, windowEnd: nat, count: nat)

  type Buckets = map<Id, Bucket>

  // ----- milliseconds -----

  /** Milliseconds since the Unix epoch of a time in nanoseconds; times before it count as the epoch. */
  function UnixMillis(now: int): nat {
    if now < 0 then 0 else now / NANOS_PER_MILLI
  }

  function DurationMillisCeil(duration: nat): nat {
    duration / NANOS_PER_MILLI + if duration % NANOS_PER_MILLI != 0 then 1 else 0
  }

  function WindowMillis(window: nat): (w: nat)
    ensures w > 0
  {
    var w := DurationMillisCeil(window);
    if w < 1 then 1 else w
  }

  /** Whole milliseconds since the epoch, rounded down; times before it count as the epoch. */
  lemma UnixMillisIs(now: int, m: nat)
    ensures now < 0 ==> UnixMillis(now) == 0
    ensures now >= 0 ==> (UnixMillis(now) == m <==> m * 1_000_000 <= now < (m + 1) * 1_000_000)
  {
  }

  /** The least number of whole milliseconds that covers the duration. */
  lemma DurationMillisIs(duration: nat)
    ensures duration <= DurationMillisCeil(duration) * 1_000_000
    ensures DurationMillisCeil(duration) == 0 || (DurationMillisCeil(duration) - 1) * 1_000_000 < duration
  {
  }

  /** The least positive number of whole milliseconds that covers the window. */
  lemma WindowMillisIs(window: nat)
    ensures 1 <= WindowMillis(window) && window <= WindowMillis(window) * 1_000_000
    ensures WindowMillis(window) == 1 || (WindowMillis(window) - 1) * 1_000_000 < window
  {
    DurationMillisIs(window);
  }

  /** The start of the aligned window that holds `t`. */
  function AlignedStart(t: nat, w: nat): (s: nat)
    requires w > 0
    ensures s <= t < s + w && s % w == 0
  {
    AlignedRemainder(t, w);
    t - t % w
  }

  lemma Divided(x: nat, w: nat)
    requires w > 0
    ensures x == w * (x / w) + x % w
  {
  }

  /** Quotient and remainder are unique. */
  lemma ModUnique(x: nat, q: nat, r: nat, w: nat)
    requires w > 0 && x == w * q + r && r < w
    ensures x / w == q && x % w == r
  {
    Divided(x, w);
    if x / w < q {
      MulMonotone(x / w, q, w);
    } else {
      MulMonotone(q, x / w, w);
    }
  }

  lemma AlignedRemainder(t: nat, w: nat)
    requires w > 0
    ensures (t - t % w) % w == 0
  {
    assert t - t % w == w * (t / w);
    ModUnique(t - t % w, t / w, 0, w);
  }

  /** Distinct aligned starts are a window apart. */
  lemma AlignedGap(a: nat, b: nat, w: nat)
    requires w > 0 && a % w == 0 && b % w == 0 && a < b
    ensures a + w <= b
  {
    Divided(a, w);
    Divided(b, w);
    if b / w <= a / w {
      MulMonotone(b / w, a / w, w);
    } else {
      MulMonotone(a / w, b / w, w);
    }
  }

  // ----- one step on the locked map -----

  /** The decision for the request that brings its window's counter to `counted` at `now`. */
  function Decide(count: Count, counted: nat, now: nat, windowStart: nat, w: nat): Decision {
    var next := windowStart + w;
    var wait := if next > now then next - now else 0;
    Decision(counted <= count, if counted <= count then count - counted else 0,
             if counted <= count then None else Some(Min(if wait < 1 then 1 else wait, U64_MAX)))
  }

  function CheckStep(buckets: Buckets, id: Id, limit: Limit, now: int): (Buckets, Result<Decision, LimitError>) {
    match limit
    case Unlimited => (buckets, Ok(Decision(true, U32_MAX, None)))
    case Fixed(count, window) =>
      if window == 0 then (buckets, Err(ZeroWindow))
      else
        var w := WindowMillis(window);
        var start := AlignedStart(UnixMillis(now), w);
        var before := if id in buckets && buckets[id].windowStart == start then buckets[id]
                      else Bucket(start, start + w, 0);
        var bucket := before.(count := Min(before.count + 1, U32_MAX));
        (buckets[id := bucket], Ok(Decide(count, bucket.count, UnixMillis(now), start, w)))
  }

  function CleanupStep(buckets: Buckets, now: int, olderThan: nat): Buckets {
    var age := DurationMillisCeil(olderThan);
    var cutoff := if UnixMillis(now) >= age then UnixMillis(now) - age else 0;
    map id | id in buckets && buckets[id].windowEnd > cutoff :: buckets[id]
  }

  class InProcessFixedWindow {
    var buckets: Buckets

    constructor ()
      ensures buckets == map[]
    {
      buckets := map[];
    }

    method Check(id: Id, limit: Limit, now: int) returns (r: Result<Decision, LimitError>)
      modifies this
      ensures (buckets, r) == CheckStep(old(buckets), id, limit, now)
    {
      if limit.Unlimited? { return Ok(Decision(true, U32_MAX, None)); }
      if limit.window == 0 { return Err(ZeroWindow); }
      var w := WindowMillis(limit.window);
      var nowMillis := UnixMillis(now);
      var windowStart := AlignedStart(nowMillis, w);
      var windowEnd := windowStart + w;
      var bucket := if id in buckets then buckets[id] else Bucket(windowStart, windowEnd, 0);
      if bucket.windowStart != windowStart {
        bucket := Bucket(windowStart, windowEnd, 0);
      }
      bucket := bucket.(count := if bucket.count < U32_MAX then bucket.count + 1 else U32_MAX);
      buckets := buckets[id := bucket];
      var allowed := bucket.count <= limit.count;
      var remaining := if limit.count >= bucket.count then limit.count - bucket.count else 0;
      if allowed { return Ok(Decision(true, remaining, None)); }
      var wait := windowEnd - nowMillis;
      return Ok(Decision(false, remaining, Some(if wait < 1 then 1 else if wait > U64_MAX then U64_MAX else wait)));
    }

    method Cleanup(now: int, olderThan: nat) returns (removed: nat)
      modifies this
      ensures buckets == CleanupStep(old(buckets), now, olderThan)
      ensures removed == |old(buckets)| - |buckets|
    {
      var age := DurationMillisCeil(olderThan);
      var cutoff := if UnixMillis(now) >= age then UnixMillis(now) - age else 0;
      var before := buckets;
      buckets := map id | id in buckets && buckets[id].windowEnd > cutoff :: buckets[id];
      Subset(buckets.Keys, before.Keys);
      removed := |before| - |buckets|;
    }
  }

  /** Cleanup forgets exactly the buckets whose window ended at least `olderThan` ago; the saturating
      subtraction never forgets a bucket early, since a window never ends at the epoch. */
  lemma CleanupForgetsEnded(buckets: Buckets, now: int, olderThan: nat, id: Id)
    requires id in buckets && buckets[id].windowEnd > 0
    ensures var kept := CleanupStep(buckets, now, olderThan);
      && (id in kept <==> buckets[id].windowEnd + DurationMillisCeil(olderThan) > UnixMillis(now))
      && (id in kept ==> kept[id] == buckets[id])
  {
  }

  /** In nanoseconds, for a clock past the epoch: the clock counts in whole milliseconds. */
  lemma CleanupInTime(buckets: Buckets, now: nat, olderThan: nat, id: Id)
    requires id in buckets && buckets[id].windowEnd > 0
    ensures id in CleanupStep(buckets, now, olderThan) <==>
            buckets[id].windowEnd * 1_000_000 + olderThan > now - now % 1_000_000
  {
    CleanupForgetsEnded(buckets, now, olderThan, id);
    UnixMillisIs(now, UnixMillis(now));
    DurationMillisIs(olderThan);
  }

  /** Checks that no window counts: an unlimited one is allowed, a zero window is an error, and neither
      leaves a trace. */
  lemma UncountedAnswers(buckets: Buckets, id: Id, limit: Limit, now: int)
    ensures limit.Unlimited? ==> CheckStep(buckets, id, limit, now) == (buckets, Ok(Decision(true, 0xFFFF_FFFF, None)))
    ensures limit.Fixed? && limit.window == 0 ==> CheckStep(buckets, id, limit, now) == (buckets, Err(ZeroWindow))
  {
  }

  lemma Subset<T>(a: set<T>, b: set<T>)
    requires a <= b
    ensures |a| <= |b|
  {
    if a != {} {
      var x :| x in a;
      Subset(a - {x}, b - {x});
    }
  }

  // ----- runs -----

  datatype Op = Check(id: Id, limit: Limit, now: int) | Cleanup(now: int, olderThan: nat)

  function BucketsAfter(ops: seq<Op>): Buckets {
    if ops == [] then map[]
    else
      var (before, last) := (BucketsAfter(ops[..|ops| - 1]), ops[|ops| - 1]);
      match last
      case Check(id, limit, now) => CheckStep(before, id, limit, now).0
      case Cleanup(now, olderThan) => CleanupStep(before, now, olderThan)
  }

  function AnswerAt(ops: seq<Op>, j: nat): Result<Decision, LimitError>
    requires j < |ops| && ops[j].Check?
  {
    CheckStep(BucketsAfter(ops[..j]), ops[j].id, ops[j].limit, ops[j].now).1
  }

  /** A check that counts towards a window. */
  predicate Counts(op: Op) {
    op.Check? && op.limit.Fixed? && op.limit.window > 0
  }

  function Window(op: Op): (w: nat)
    requires Counts(op)
    ensures w > 0
  {
    WindowMillis(op.limit.window)
  }

  function Millis(op: Op): nat {
    UnixMillis(op.now)
  }

  /** The aligned window start a counting check falls into. */
  function Start(op: Op): nat
    requires Counts(op)
  {
    AlignedStart(Millis(op), Window(op))
  }

  predicate Hits(op: Op, id: Id, start: nat) {
    Counts(op) && op.id == id && Start(op) == start
  }

  /** How many of the checks fell into the window of `id` that starts at `start`. */
  function Rank(ops: seq<Op>, id: Id, start: nat): (n: nat)
    ensures n <= |ops|
  {
    if ops == [] then 0
    else Rank(ops[..|ops| - 1], id, start) + if Hits(ops[|ops| - 1], id, start) then 1 else 0
  }

  predicate Monotone(ops: seq<Op>) {
    forall i, j :: 0 <= i < j < |ops| ==> Millis(ops[i]) <= Millis(ops[j])
  }

  /** Every counting check of `id` uses the window length `w`. */
  predicate UsesWindow(ops: seq<Op>, id: Id, w: nat) {
    forall i :: 0 <= i < |ops| && Counts(ops[i]) && ops[i].id == id ==> Window(ops[i]) == w
  }

  function Clock(ops: seq<Op>): nat {
    if ops == [] then 0 else Millis(ops[|ops| - 1])
  }

  lemma {:induction false} FutureRankIsZero(ops: seq<Op>, id: Id, start: nat)
    requires Monotone(ops) && start > Clock(ops)
    ensures Rank(ops, id, start) == 0
  {
    if ops != [] {
      var front := ops[..|ops| - 1];
      assert Clock(front) <= Clock(ops);
      FutureRankIsZero(front, id, start);
    }
  }

  /** The counter kept for the window starting at `start`. */
  function Held(buckets: Buckets, id: Id, start: nat): nat {
    if id in buckets && buckets[id].windowStart == start then buckets[id].count else 0
  }

  /** A window of `id` that the clock has not left yet is counted exactly, up to the counter's ceiling. */
  ghost predicate CountsExactly(buckets: Buckets, ops: seq<Op>, id: Id, w: nat)
    requires w > 0
  {
    && (id in buckets ==> buckets[id].windowEnd == buckets[id].windowStart + w)
    && forall start :: start % w == 0 && start + w > Clock(ops) ==>
         Held(buckets, id, start) == Min(Rank(ops, id, start), U32_MAX)
  }

  /** Of the aligned starts not yet over at `now`, all but the current one lie in the future. */
  lemma CurrentOrFuture(start: nat, now: nat, w: nat)
    requires w > 0 && start % w == 0 && start + w > now
    ensures start == AlignedStart(now, w) || start > now
  {
    var current := AlignedStart(now, w);
    if start < current { AlignedGap(start, current, w); }
    if start > current { AlignedGap(current, start, w); }
  }

  lemma {:induction false} RunCountsExactly(ops: seq<Op>, id: Id, w: nat)
    requires Monotone(ops) && w > 0 && UsesWindow(ops, id, w)
    ensures CountsExactly(BucketsAfter(ops), ops, id, w)
  {
    if ops != [] {
      var n := |ops| - 1;
      RunCountsExactly(ops[..n], id, w);
      var (before, after) := (BucketsAfter(ops[..n]), BucketsAfter(ops));
      forall start | start % w == 0 && start + w > Clock(ops)
        ensures Held(after, id, start) == Min(Rank(ops, id, start), U32_MAX)
      {
        CurrentOrFuture(start, Clock(ops), w);
        if start > Clock(ops) {
          FutureRankIsZero(ops[..n], id, start);
        }
      }
    }
  }

  /** The rank, within its aligned window, of the check that op `j` makes. */
  function RankAt(ops: seq<Op>, j: nat): nat
    requires j < |ops| && Counts(ops[j])
  {
    Rank(ops[..j], ops[j].id, Start(ops[j])) + 1
  }

  /** Whatever was swept in between, a decision depends only on the rank of the check in its window. */
  lemma DecidedByRank(ops: seq<Op>, j: nat)
    requires j < |ops| && Counts(ops[j]) && Monotone(ops) && UsesWindow(ops[..j + 1], ops[j].id, Window(ops[j]))
    ensures AnswerAt(ops, j)
         == Ok(Decide(ops[j].limit.count, Min(RankAt(ops, j), U32_MAX), Millis(ops[j]), Start(ops[j]), Window(ops[j])))
  {
    var (op, w) := (ops[j], Window(ops[j]));
    assert forall i :: 0 <= i < j ==> ops[..j + 1][i] == ops[..j][i];
    RunCountsExactly(ops[..j], op.id, w);
    assert Clock(ops[..j]) <= Millis(op);
    assert Held(BucketsAfter(ops[..j]), op.id, Start(op)) == Min(Rank(ops[..j], op.id, Start(op)), U32_MAX);
  }

  // ----- bounds -----

  /** Every counting check of `id` uses this one limit. */
  predicate UsesLimit(ops: seq<Op>, id: Id, count: Count, w: nat) {
    forall i :: 0 <= i < |ops| && Counts(ops[i]) && ops[i].id == id ==>
      ops[i].limit.count == count && Window(ops[i]) == w
  }

  predicate Admitted(ops: seq<Op>, i: nat)
    requires i < |ops| && Counts(ops[i])
  {
    AnswerAt(ops, i).Ok? && AnswerAt(ops, i).value.allowed
  }

  /** The counter's ceiling is out of the way: a limit at the ceiling needs a run too short to reach it. */
  predicate BelowCeiling(ops: seq<Op>, count: Count) {
    count < U32_MAX || |ops| <= U32_MAX
  }

  /** A check is admitted exactly when it is among the first `count` of its aligned window. */
  lemma AdmittedByRank(ops: seq<Op>, j: nat, id: Id, count: Count, w: nat)
    requires Monotone(ops) && UsesLimit(ops, id, count, w) && BelowCeiling(ops, count)
    requires j < |ops| && Counts(ops[j]) && ops[j].id == id
    ensures Admitted(ops, j) <==> RankAt(ops, j) <= count
    ensures AnswerAt(ops, j).Ok? &&
            AnswerAt(ops, j).value.remaining == if RankAt(ops, j) <= count then count - RankAt(ops, j) else 0
  {
    DecidedByRank(ops, j);
  }

  /** How many of the first `n` operations are admitted checks of `id` in the window starting at `start`. */
  function AdmittedIn(ops: seq<Op>, n: nat, id: Id, start: nat): nat
    requires n <= |ops|
  {
    if n == 0 then 0
    else AdmittedIn(ops, n - 1, id, start) + if Hits(ops[n - 1], id, start) && Admitted(ops, n - 1) then 1 else 0
  }

  /** In each aligned window the first `count` checks get in and all the others are refused. */
  lemma {:induction false} WindowAdmitsFirst(ops: seq<Op>, n: nat, id: Id, count: Count, w: nat, start: nat)
    requires Monotone(ops) && UsesLimit(ops, id, count, w) && BelowCeiling(ops, count) && n <= |ops|
    ensures AdmittedIn(ops, n, id, start) == Min(Rank(ops[..n], id, start), count)
  {
    hide AnswerAt;
    if n > 0 {
      WindowAdmitsFirst(ops, n - 1, id, count, w, start);
      assert ops[..n][..n - 1] == ops[..n - 1];
      if Hits(ops[n - 1], id, start) { AdmittedByRank(ops, n - 1, id, count, w); }
    }
  }

  /** How many of the first `n` operations are admitted checks of `id` at times in `[from, from + length)`. */
  function AdmittedInSpan(ops: seq<Op>, n: nat, id: Id, from: nat, length: nat): nat
    requires n <= |ops|
  {
    if n == 0 then 0
    else
      var op := ops[n - 1];
      AdmittedInSpan(ops, n - 1, id, from, length) +
      if Counts(op) && op.id == id && from <= Millis(op) < from + length && Admitted(ops, n - 1) then 1 else 0
  }

  /** A span of one window length, both ends included, meets at most two aligned windows. */
  lemma {:induction false} SpanMeetsTwoWindows(ops: seq<Op>, n: nat, id: Id, count: Count, w: nat, from: nat)
    requires UsesLimit(ops, id, count, w) && n <= |ops| && w > 0
    ensures AdmittedInSpan(ops, n, id, from, w + 1)
         <= AdmittedIn(ops, n, id, AlignedStart(from, w)) + AdmittedIn(ops, n, id, AlignedStart(from, w) + w)
  {
    hide Admitted;
    if n > 0 {
      SpanMeetsTwoWindows(ops, n - 1, id, count, w, from);
      var op := ops[n - 1];
      if Counts(op) && op.id == id && from <= Millis(op) <= from + w {
        CurrentOrNext(from, Millis(op), w);
      }
    }
  }

  lemma CurrentOrNext(from: nat, t: nat, w: nat)
    requires w > 0 && from <= t <= from + w
    ensures AlignedStart(t, w) == AlignedStart(from, w) || AlignedStart(t, w) == AlignedStart(from, w) + w
  {
    var (a, b) := (AlignedStart(from, w), AlignedStart(t, w));
    NextAligned(from, w);
    if a + w < b { AlignedGap(a + w, b, w); }
    if a < b { AlignedGap(a, b, w); }
    if b < a { AlignedGap(b, a, w); }
  }

  lemma NextAligned(t: nat, w: nat)
    requires w > 0
    ensures (AlignedStart(t, w) + w) % w == 0
  {
    Divided(t, w);
    assert AlignedStart(t, w) + w == w * (t / w + 1);
    ModUnique(AlignedStart(t, w) + w, t / w + 1, 0, w);
  }

  /** Any span of one window length, both ends included, admits at most twice the count. */
  lemma SpanAdmitsTwice(ops: seq<Op>, id: Id, count: Count, w: nat, from: nat)
    requires Monotone(ops) && UsesLimit(ops, id, count, w) && BelowCeiling(ops, count) && w > 0
    ensures AdmittedInSpan(ops, |ops|, id, from, w + 1) <= 2 * count
  {
    SpanMeetsTwoWindows(ops, |ops|, id, count, w, from);
    WindowAdmitsFirst(ops, |ops|, id, count, w, AlignedStart(from, w));
    WindowAdmitsFirst(ops, |ops|, id, count, w, AlignedStart(from, w) + w);
  }

  // ----- the same in the nanoseconds that callers pass -----

  predicate Ordered(ops: seq<Op>) {
    forall i, j :: 0 <= i < j < |ops| ==> ops[i].now <= ops[j].now
  }

  /** Every check of `id` comes with this one limit. */
  predicate OneLimit(ops: seq<Op>, id: Id, count: Count, window: nat) {
    window > 0 &&
    forall i :: 0 <= i < |ops| && ops[i].Check? && ops[i].id == id ==> ops[i].limit == Fixed(count, window)
  }

  /** `w` is the least positive number of whole milliseconds that covers `window` nanoseconds. */
  predicate CoversInMillis(w: nat, window: nat) {
    1 <= w && window <= w * 1_000_000 && (w == 1 || (w - 1) * 1_000_000 < window)
  }

  /** How many of the first `n` operations are checks of `id` with a clock in `[from, to)`. */
  function ChecksDuring(ops: seq<Op>, n: nat, id: Id, from: int, to: int): nat
    requires n <= |ops|
  {
    if n == 0 then 0
    else ChecksDuring(ops, n - 1, id, from, to) +
         if ops[n - 1].Check? && ops[n - 1].id == id && from <= ops[n - 1].now < to then 1 else 0
  }

  predicate Allowed(ops: seq<Op>, i: nat)
    requires i < |ops| && ops[i].Check?
  {
    AnswerAt(ops, i).Ok? && AnswerAt(ops, i).value.allowed
  }

  /** How many of them are allowed. */
  function AllowedDuring(ops: seq<Op>, n: nat, id: Id, from: int, to: int): nat
    requires n <= |ops|
  {
    if n == 0 then 0
    else AllowedDuring(ops, n - 1, id, from, to) +
         if ops[n - 1].Check? && ops[n - 1].id == id && from <= ops[n - 1].now < to && Allowed(ops, n - 1) then 1 else 0
  }

  lemma OrderedIsMonotone(ops: seq<Op>)
    requires Ordered(ops)
    ensures Monotone(ops)
  {
    forall i, j | 0 <= i < j < |ops|
      ensures Millis(ops[i]) <= Millis(ops[j])
    {
      UnixMillisIs(ops[i].now, Millis(ops[i]));
      UnixMillisIs(ops[j].now, Millis(ops[j]));
    }
  }

  lemma OneLimitIsUsed(ops: seq<Op>, id: Id, count: Count, window: nat, w: nat)
    requires OneLimit(ops, id, count, window) && CoversInMillis(w, window)
    ensures UsesLimit(ops, id, count, w)
  {
    WindowMillisIs(window);
    hide WindowMillis;
    assert WindowMillis(window) == w;
  }

  /** A check of `id` falls into the `k`-th window exactly when its clock is in the `k`-th span of `w`
      milliseconds since the epoch; the first span takes in all earlier times. */
  lemma HitsInTime(op: Op, id: Id, window: nat, w: nat, k: nat)
    requires op.Check? && op.limit.Fixed? && op.limit.window == window > 0 && CoversInMillis(w, window)
    ensures Hits(op, id, k * w) <==>
            op.id == id && op.now < (k + 1) * w * 1_000_000 && (k > 0 ==> k * w * 1_000_000 <= op.now)
  {
    WindowMillisIs(window);
    var (t, start) := (Millis(op), k * w);
    UnixMillisIs(op.now, t);
    assert (k + 1) * w == start + w;
    ModUnique(start, k, 0, w);
    hide WindowMillis, UnixMillis, AlignedStart;
    if start <= t < start + w { SameWindow(t, start, w); }
    assert k > 0 ==> start > 0;
  }

  /** Where the `k`-th span starts; the first one starts before all clocks there are. */
  predicate SpanStart(ops: seq<Op>, from: int, k: nat, w: nat) {
    if k > 0 then from == k * w * 1_000_000 else forall i :: 0 <= i < |ops| ==> from <= ops[i].now
  }

  lemma {:induction false} WindowCounts(ops: seq<Op>, n: nat, id: Id, count: Count, window: nat, w: nat, k: nat,
                                        from: int)
    requires OneLimit(ops, id, count, window) && CoversInMillis(w, window) && n <= |ops|
    requires SpanStart(ops, from, k, w)
    ensures ChecksDuring(ops, n, id, from, (k + 1) * w * 1_000_000) == Rank(ops[..n], id, k * w)
    ensures AllowedDuring(ops, n, id, from, (k + 1) * w * 1_000_000) == AdmittedIn(ops, n, id, k * w)
  {
    hide AnswerAt, CoversInMillis;
    if n > 0 {
      var op := ops[n - 1];
      WindowCounts(ops, n - 1, id, count, window, w, k, from);
      assert ops[..n][..n - 1] == ops[..n - 1];
      if op.Check? && op.id == id { HitsInTime(op, id, window, w, k); }
    }
  }

  /** With ordered clocks, in every span of `w` milliseconds counted from the epoch, `w` being what the
      window rounds up to, exactly the first `count` checks are allowed: the smaller of the number of
      checks and `count`. The first span takes in times before the epoch. */
  lemma WindowAllowsCount(ops: seq<Op>, id: Id, count: Count, window: nat, w: nat, k: nat, from: int)
    requires Ordered(ops) && OneLimit(ops, id, count, window) && CoversInMillis(w, window)
    requires count < 0xFFFF_FFFF || |ops| <= 0xFFFF_FFFF
    requires SpanStart(ops, from, k, w)
    ensures var to := (k + 1) * w * 1_000_000;
      AllowedDuring(ops, |ops|, id, from, to) == Min(ChecksDuring(ops, |ops|, id, from, to), count)
  {
    OrderedIsMonotone(ops);
    OneLimitIsUsed(ops, id, count, window, w);
    WindowCounts(ops, |ops|, id, count, window, w, k, from);
    WindowAdmitsFirst(ops, |ops|, id, count, w, k * w);
    assert ops[..|ops|] == ops;
  }

  lemma SpanInMillis(now: int, from: int, window: nat, w: nat)
    requires from <= now < from + window && CoversInMillis(w, window)
    ensures UnixMillis(from) <= UnixMillis(now) <= UnixMillis(from) + w
  {
    UnixMillisIs(from, UnixMillis(from));
    UnixMillisIs(now, UnixMillis(now));
  }

  lemma {:induction false} SpanCounts(ops: seq<Op>, n: nat, id: Id, count: Count, window: nat, w: nat, from: int)
    requires OneLimit(ops, id, count, window) && CoversInMillis(w, window) && n <= |ops|
    ensures AllowedDuring(ops, n, id, from, from + window) <= AdmittedInSpan(ops, n, id, UnixMillis(from), w + 1)
  {
    hide AnswerAt, CoversInMillis, UnixMillis;
    if n > 0 {
      var op := ops[n - 1];
      SpanCounts(ops, n - 1, id, count, window, w, from);
      if op.Check? && op.id == id && from <= op.now < from + window { SpanInMillis(op.now, from, window, w); }
    }
  }

  /** With ordered clocks, any span of one window length, wherever it starts, allows at most twice the
      count. */
  lemma AnySpanAllowsTwice(ops: seq<Op>, id: Id, count: Count, window: nat, from: int)
    requires Ordered(ops) && OneLimit(ops, id, count, window)
    requires count < 0xFFFF_FFFF || |ops| <= 0xFFFF_FFFF
    ensures AllowedDuring(ops, |ops|, id, from, from + window) <= 2 * count
  {
    var w := WindowMillis(window);
    WindowMillisIs(window);
    OrderedIsMonotone(ops);
    OneLimitIsUsed(ops, id, count, window, w);
    SpanCounts(ops, |ops|, id, count, window, w, from);
    SpanAdmitsTwice(ops, id, count, w, UnixMillis(from));
  }

  /** A refused check is told to wait exactly until the first instant of the next window, if a 64-bit
      millisecond count can say so. */
  lemma RetryReachesNextWindow(ops: seq<Op>, j: nat)
    requires j < |ops| && Counts(ops[j]) && Monotone(ops) && UsesWindow(ops[..j + 1], ops[j].id, Window(ops[j]))
    requires Start(ops[j]) + Window(ops[j]) - Millis(ops[j]) <= U64_MAX
    ensures AnswerAt(ops, j).Ok?
    ensures var (op, w, d) := (ops[j], Window(ops[j]), AnswerAt(ops, j).value);
      && (d.retryAfterMillis.Some? <==> !d.allowed)
      && (!d.allowed ==>
            var again := Millis(op) + d.retryAfterMillis.value;
            && AlignedStart(again, w) == again == Start(op) + w
            && forall t :: Millis(op) <= t < again ==> AlignedStart(t, w) == Start(op))
  {
    DecidedByRank(ops, j);
    var (op, w) := (ops[j], Window(ops[j]));
    NextAligned(Millis(op), w);
    forall t | Millis(op) <= t < Start(op) + w
      ensures AlignedStart(t, w) == Start(op)
    {
      SameWindow(t, Start(op), w);
    }
    SameWindow(Start(op) + w, Start(op) + w, w);
  }

  /** In nanoseconds: waiting for the hint reaches the first millisecond of the next span. */
  lemma RetryInTime(ops: seq<Op>, j: nat, window: nat, w: nat)
    requires j < |ops| && Counts(ops[j]) && Ordered(ops) && UsesWindow(ops[..j + 1], ops[j].id, Window(ops[j]))
    requires ops[j].now >= 0 && ops[j].limit.window == window && CoversInMillis(w, window)
    requires Start(ops[j]) + w - Millis(ops[j]) <= 0xFFFF_FFFF_FFFF_FFFF
    ensures AnswerAt(ops, j).Ok?
    ensures var (now, d) := (ops[j].now, AnswerAt(ops, j).value);
      !d.allowed ==>
        && d.retryAfterMillis.Some?
        && exists k: nat :: k * w * 1_000_000 <= now < (k + 1) * w * 1_000_000
                            <= now + d.retryAfterMillis.value * 1_000_000 < ((k + 1) * w + 1) * 1_000_000
  {
    hide AnswerAt, UnixMillis, WindowMillis;
    OrderedIsMonotone(ops);
    WindowMillisIs(window);
    assert Window(ops[j]) == w;
    RetryReachesNextWindow(ops, j);
    var (t, d) := (Millis(ops[j]), AnswerAt(ops, j).value);
    if !d.allowed {
      UnixMillisIs(ops[j].now, t);
      var k := t / w;
      Divided(t, w);
      assert Start(ops[j]) == k * w;
      assert (k + 1) * w == k * w + w;
      assert k * w * 1_000_000 <= ops[j].now < (k + 1) * w * 1_000_000
                               <= ops[j].now + d.retryAfterMillis.value * 1_000_000 < ((k + 1) * w + 1) * 1_000_000;
    }
  }

  lemma SameWindow(t: nat, start: nat, w: nat)
    requires w > 0 && start % w == 0 && start <= t < start + w
    ensures AlignedStart(t, w) == start
  {
    var b := AlignedStart(t, w);
    if b < start { AlignedGap(b, start, w); }
    if start < b { AlignedGap(start, b, w); }
  }
}
