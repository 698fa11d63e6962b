// The sliding-window limiter for WebSocket control frames: a log of accepted times, pruned on every
// call. Over a whole run it is a selection of the requests that obeys the bound, and no other
// obeying selection is ever ahead of it.
module SlidingWindow {

  /** `now.saturating_duration_since(at) < window` */
  predicate Recent(at: nat, now: nat, window: nat) {
    (if at <= now then now - at else 0) < window
  }

  function Retain(log: seq<nat>, now: nat, window: nat): (r: seq<nat>)
    ensures |r| <= |log|
  {
    if log == [] then []
    else
      var kept := Retain(log[..|log| - 1], now, window);
      if Recent(log[|log| - 1], now, window) then kept + [log[|log| - 1]] else kept
  }

  function AllowStep(maxFrames: nat, window: nat, log: seq<nat>, now: nat): (seq<nat>, bool) {
    if maxFrames == 0 || window == 0 then (log, false)
    else
      var pruned := Retain(log, now, window);
      if |pruned| >= maxFrames then (pruned, false) else (pruned + [now], true)
  }

  /** How many of the logged times are less than one window old, future ones counting as new. */
  function Younger(log: seq<nat>, now: nat, window: nat): nat {
    if log == [] then 0 else (if now < log[0] + window then 1 else 0) + Younger(log[1..], now, window)
  }

  lemma {:induction false} YoungerSnoc(log: seq<nat>, at: nat, now: nat, window: nat)
    ensures Younger(log + [at], now, window) == Younger(log, now, window) + if now < at + window then 1 else 0
  {
    if log == [] {
      assert [at][1..] == [] && log + [at] == [at];
    } else {
      assert (log + [at])[1..] == log[1..] + [at];
      YoungerSnoc(log[1..], at, now, window);
    }
  }

  lemma {:induction false} RetainedAreYounger(log: seq<nat>, now: nat, window: nat)
    requires window > 0
    ensures |Retain(log, now, window)| == Younger(log, now, window)
    ensures forall at :: at in Retain(log, now, window) <==> at in log && now < at + window
  {
    if log != [] {
      var (front, at) := (log[..|log| - 1], log[|log| - 1]);
      assert log == front + [at];
      RetainedAreYounger(front, now, window);
      YoungerSnoc(front, at, now, window);
    }
  }

  /** A frame is allowed exactly when the limits are not zero and fewer than `maxFrames` logged times are
      less than one window old, whatever the order of the times; with a zero limit nothing happens. */
  lemma AllowedIff(maxFrames: nat, window: nat, log: seq<nat>, now: nat)
    ensures AllowStep(maxFrames, window, log, now).1 <==>
            maxFrames > 0 && window > 0 && Younger(log, now, window) < maxFrames
    ensures maxFrames == 0 || window == 0 ==> AllowStep(maxFrames, window, log, now).0 == log
    ensures maxFrames > 0 && window > 0 ==>
              forall at :: at in AllowStep(maxFrames, window, log, now).0 <==>
                (at in log && now < at + window) || (at == now && AllowStep(maxFrames, window, log, now).1)
  {
    if window > 0 { RetainedAreYounger(log, now, window); }
  }

  class ControlFrameRateLimit {
    const maxFrames: nat
    const window: nat
    var acceptedAt: seq<nat>

    constructor (maxFrames: nat, window: nat)
      ensures this.maxFrames == maxFrames && this.window == window && acceptedAt == []
    {
      this.maxFrames := maxFrames;
      this.window := window;
      acceptedAt := [];
    }

    method AllowAt(now: nat) returns (allowed: bool)
      modifies this`acceptedAt
      ensures (acceptedAt, allowed) == AllowStep(maxFrames, window, old(acceptedAt), now)
    {
      if maxFrames == 0 || window == 0 {
        return false;
      }
      acceptedAt := Retain(acceptedAt, now, window);
      if |acceptedAt| >= maxFrames {
        return false;
      }
      acceptedAt := acceptedAt + [now];
      return true;
    }
  }

  // ----- runs -----

  function LogAfter(maxFrames: nat, window: nat, times: seq<nat>): seq<nat> {
    if times == [] then []
    else AllowStep(maxFrames, window, LogAfter(maxFrames, window, times[..|times| - 1]), times[|times| - 1]).0
  }

  /** Which of the requests the limiter accepts, one after the other. */
  function Decisions(maxFrames: nat, window: nat, times: seq<nat>): (r: seq<bool>)
    ensures |r| == |times|
  {
    if times == [] then []
    else
      var n := |times| - 1;
      Decisions(maxFrames, window, times[..n]) +
      [AllowStep(maxFrames, window, LogAfter(maxFrames, window, times[..n]), times[n]).1]
  }

  predicate Monotone(times: seq<nat>) {
    forall i, j :: 0 <= i < j < |times| ==> times[i] <= times[j]
  }

  /** How many of the first `n` requests are selected. */
  function Count(selected: seq<bool>, n: nat): nat
    requires n <= |selected|
  {
    if n == 0 then 0 else Count(selected, n - 1) + if selected[n - 1] then 1 else 0
  }

  /** How many of the first `n` requests are selected and fall in the half-open span `[from, from + window)`. */
  function SpanCount(times: seq<nat>, selected: seq<bool>, n: nat, from: int, window: nat): nat
    requires n <= |times| && n <= |selected|
  {
    if n == 0 then 0
    else SpanCount(times, selected, n - 1, from, window) +
         if selected[n - 1] && from <= times[n - 1] < from + window then 1 else 0
  }

  /** No half-open span of one window length holds more than `maxFrames` selected requests. */
  ghost predicate Obeys(maxFrames: nat, window: nat, times: seq<nat>, selected: seq<bool>)
    requires |selected| == |times|
  {
    forall from: int :: SpanCount(times, selected, |times|, from, window) <= maxFrames
  }

  // ----- counting -----

  lemma {:induction false} SpanPrefix(times: seq<nat>, longer: seq<nat>, selected: seq<bool>, more: seq<bool>, n: nat,
                                      from: int, window: nat)
    requires n <= |times| <= |longer| && n <= |selected| <= |more|
    requires longer[..|times|] == times && more[..|selected|] == selected
    ensures SpanCount(times, selected, n, from, window) == SpanCount(longer, more, n, from, window)
  {
    if n > 0 {
      SpanPrefix(times, longer, selected, more, n - 1, from, window);
      assert times[n - 1] == longer[..|times|][n - 1] && selected[n - 1] == more[..|selected|][n - 1];
    }
  }

  /** A longer prefix counts at least as much. */
  lemma SpanGrows(times: seq<nat>, selected: seq<bool>, m: nat, n: nat, from: int, window: nat)
    requires m <= n <= |times| && n <= |selected|
    ensures SpanCount(times, selected, m, from, window) <= SpanCount(times, selected, n, from, window)
  {
  }

  /** When every time up to `n` is at most `now`, the span ending at `now` covers any span containing `now`. */
  lemma {:induction false} SpanShift(times: seq<nat>, selected: seq<bool>, n: nat, from: int, window: nat, now: nat)
    requires n <= |times| && n <= |selected|
    requires forall i :: 0 <= i < n ==> times[i] <= now
    requires from <= now < from + window
    ensures SpanCount(times, selected, n, from, window) <= SpanCount(times, selected, n, now - window + 1, window)
  {
    if n > 0 { SpanShift(times, selected, n - 1, from, window, now); }
  }

  /** On ordered times a span that reaches the end holds what was selected from its first index on. */
  lemma {:induction false} SpanIsTail(times: seq<nat>, selected: seq<bool>, m: nat, n: nat, from: int, window: nat)
    requires m <= n <= |times| && n <= |selected|
    requires forall i :: 0 <= i < m ==> times[i] < from
    requires forall i :: m <= i < n ==> from <= times[i] < from + window
    ensures SpanCount(times, selected, n, from, window) == Count(selected, n) - Count(selected, m)
    decreases n
  {
    if m < n {
      SpanIsTail(times, selected, m, n - 1, from, window);
    } else if n > 0 {
      SpanIsTail(times, selected, n - 1, n - 1, from, window);
    }
  }

  // ----- the log -----

  lemma {:induction false} RetainAppend(log: seq<nat>, at: nat, now: nat, window: nat)
    ensures Retain(log + [at], now, window) == Retain(log, now, window) + if Recent(at, now, window) then [at] else []
  {
    assert (log + [at])[..|log|] == log;
  }

  predicate Bounded(log: seq<nat>, bound: nat) {
    forall i :: 0 <= i < |log| ==> log[i] <= bound
  }

  /** Pruning earlier removes nothing that a later pruning would keep. */
  lemma {:induction false} RetainTwice(log: seq<nat>, now: nat, later: nat, window: nat)
    requires now <= later
    requires Bounded(log, now)
    ensures Retain(Retain(log, now, window), later, window) == Retain(log, later, window)
  {
    if log != [] {
      var front, last := log[..|log| - 1], log[|log| - 1];
      RetainTwice(front, now, later, window);
      if Recent(last, now, window) { RetainAppend(Retain(front, now, window), last, later, window); }
    }
  }

  lemma {:induction false} RetainBounded(log: seq<nat>, now: nat, window: nat, bound: nat)
    requires Bounded(log, bound)
    ensures Bounded(Retain(log, now, window), bound)
  {
    if log != [] { RetainBounded(log[..|log| - 1], now, window, bound); }
  }

  lemma {:induction false} LogBounded(maxFrames: nat, window: nat, times: seq<nat>, bound: nat)
    requires Bounded(times, bound)
    ensures Bounded(LogAfter(maxFrames, window, times), bound)
  {
    if times != [] {
      var n := |times| - 1;
      var log := LogAfter(maxFrames, window, times[..n]);
      LogBounded(maxFrames, window, times[..n], bound);
      RetainBounded(log, times[n], window, bound);
    }
  }

  /** The log after one more request, seen from a later time. */
  lemma LogStep(maxFrames: nat, window: nat, times: seq<nat>, now: nat)
    requires maxFrames > 0 && window > 0 && times != [] && times[|times| - 1] <= now
    requires Bounded(times, times[|times| - 1])
    ensures var n := |times| - 1;
      |Retain(LogAfter(maxFrames, window, times), now, window)|
        == |Retain(LogAfter(maxFrames, window, times[..n]), now, window)|
           + if Decisions(maxFrames, window, times)[n] && now - times[n] < window then 1 else 0
  {
    hide Retain;
    var n := |times| - 1;
    var log, t := LogAfter(maxFrames, window, times[..n]), times[n];
    LogBounded(maxFrames, window, times[..n], t);
    RetainTwice(log, t, now, window);
    RetainAppend(Retain(log, t, window), t, now, window);
  }

  /** The pruned log holds exactly the accepted times of the span ending at `now`. */
  lemma {:induction false} LogIsSpan(maxFrames: nat, window: nat, times: seq<nat>, now: nat)
    requires maxFrames > 0 && window > 0 && Monotone(times)
    requires Bounded(times, now)
    ensures |Retain(LogAfter(maxFrames, window, times), now, window)|
         == SpanCount(times, Decisions(maxFrames, window, times), |times|, now - window + 1, window)
  {
    hide AllowStep, LogAfter;
    if times == [] {
      EmptyLog(maxFrames, window);
    } else {
      var n := |times| - 1;
      LogIsSpan(maxFrames, window, times[..n], now);
      LogStep(maxFrames, window, times, now);
      SpanPrefix(times[..n], times, Decisions(maxFrames, window, times[..n]), Decisions(maxFrames, window, times), n,
                 now - window + 1, window);
    }
  }

  lemma EmptyLog(maxFrames: nat, window: nat)
    ensures LogAfter(maxFrames, window, []) == []
  {
  }

  /** Request `n` is accepted exactly when the pruned log still has room. */
  lemma DecisionAt(maxFrames: nat, window: nat, times: seq<nat>, n: nat)
    requires maxFrames > 0 && window > 0 && n < |times|
    ensures Decisions(maxFrames, window, times)[n] <==>
              |Retain(LogAfter(maxFrames, window, times[..n]), times[n], window)| < maxFrames
  {
    hide Retain, LogAfter;
    DecisionsPrefix(maxFrames, window, times, n + 1);
    assert times[..n + 1][..n] == times[..n];
    assert Decisions(maxFrames, window, times)[n] == Decisions(maxFrames, window, times)[..n + 1][n];
  }

  /** On ordered times, request `n` is accepted exactly when the span that ends with it still has room. */
  lemma AcceptsWhenRoom(maxFrames: nat, window: nat, times: seq<nat>, n: nat)
    requires maxFrames > 0 && window > 0 && Monotone(times) && n < |times|
    ensures Decisions(maxFrames, window, times)[n] <==>
              SpanCount(times, Decisions(maxFrames, window, times), n, times[n] - window + 1, window) < maxFrames
  {
    hide Retain, LogAfter, SpanCount, Decisions;
    DecisionAt(maxFrames, window, times, n);
    DecisionsPrefix(maxFrames, window, times, n);
    LogIsSpan(maxFrames, window, times[..n], times[n]);
    SpanPrefix(times[..n], times, Decisions(maxFrames, window, times[..n]), Decisions(maxFrames, window, times),
               n, times[n] - window + 1, window);
  }

  lemma {:induction false} DecisionsPrefix(maxFrames: nat, window: nat, times: seq<nat>, n: nat)
    requires n <= |times|
    ensures Decisions(maxFrames, window, times)[..n] == Decisions(maxFrames, window, times[..n])
    decreases |times|
  {
    if n < |times| {
      DecisionsPrefix(maxFrames, window, times[..|times| - 1], n);
      assert times[..|times| - 1][..n] == times[..n];
    } else {
      assert times[..n] == times;
    }
  }

  // ----- the two main results -----

  lemma {:induction false} SpanBounded(maxFrames: nat, window: nat, times: seq<nat>, n: nat, from: int)
    requires maxFrames > 0 && window > 0 && Monotone(times) && n <= |times|
    ensures SpanCount(times, Decisions(maxFrames, window, times), n, from, window) <= maxFrames
  {
    if n > 0 {
      SpanBounded(maxFrames, window, times, n - 1, from);
      if from <= times[n - 1] < from + window {
        AcceptsWhenRoom(maxFrames, window, times, n - 1);
        SpanShift(times, Decisions(maxFrames, window, times), n - 1, from, window, times[n - 1]);
      }
    }
  }

  /** On ordered times, every half-open span of one window length holds at most `maxFrames` accepted frames. */
  lemma LimiterObeys(maxFrames: nat, window: nat, times: seq<nat>)
    requires maxFrames > 0 && window > 0 && Monotone(times)
    ensures Obeys(maxFrames, window, times, Decisions(maxFrames, window, times))
  {
    forall from: int
      ensures SpanCount(times, Decisions(maxFrames, window, times), |times|, from, window) <= maxFrames
    {
      SpanBounded(maxFrames, window, times, |times|, from);
    }
  }

  /** The first index, up to `n`, whose time is at least `from`. */
  lemma FirstFrom(times: seq<nat>, n: nat, from: int) returns (m: nat)
    requires n <= |times| && Monotone(times)
    ensures m <= n
    ensures forall i :: 0 <= i < m ==> times[i] < from
    ensures forall i :: m <= i < n ==> from <= times[i]
  {
    m := n;
    while m > 0 && times[m - 1] >= from
      invariant m <= n && forall i :: m <= i < n ==> from <= times[i]
    {
      m := m - 1;
    }
  }

  /** At every point the limiter has accepted at least as many frames as any other selection of the same
      requests that obeys the bound. */
  lemma {:induction false} LimiterIsOptimal(maxFrames: nat, window: nat, times: seq<nat>, other: seq<bool>, n: nat)
    requires maxFrames > 0 && window > 0 && Monotone(times)
    requires |other| == |times| && Obeys(maxFrames, window, times, other)
    requires n <= |times|
    ensures Count(other, n) <= Count(Decisions(maxFrames, window, times), n)
    decreases n
  {
    if n > 0 {
      var mine := Decisions(maxFrames, window, times);
      var k := n - 1;
      LimiterIsOptimal(maxFrames, window, times, other, k);
      if other[k] && !mine[k] {
        var from := times[k] - window + 1;
        AcceptsWhenRoom(maxFrames, window, times, k);
        SpanGrows(times, other, k + 1, |times|, from, window);
        var m := FirstFrom(times, k, from);
        SpanIsTail(times, mine, m, k, from, window);
        SpanIsTail(times, other, m, k, from, window);
        LimiterIsOptimal(maxFrames, window, times, other, m);
      }
    }
  }

  // ----- clocks that run backwards -----

  /** With a limit of one the bound needs no ordering: an accepted time in the future still counts as
      recent, so every accepted frame lies a full window after the one before it. */
  lemma {:induction false} SingleFrameBounded(window: nat, times: seq<nat>, from: int)
    requires window > 0
    ensures var (log, count) :=
        (LogAfter(1, window, times), SpanCount(times, Decisions(1, window, times), |times|, from, window));
      && |log| <= 1 && count <= 1
      && (log == [] || log[0] < from ==> count == 0)
  {
    if times != [] {
      var n := |times| - 1;
      SingleFrameBounded(window, times[..n], from);
      SpanPrefix(times[..n], times, Decisions(1, window, times[..n]), Decisions(1, window, times), n, from, window);
      SingleFrameStep(window, LogAfter(1, window, times[..n]), times[n]);
    }
  }

  lemma SingleFrameStep(window: nat, log: seq<nat>, t: nat)
    requires window > 0 && |log| <= 1
    ensures AllowStep(1, window, log, t)
         == if log == [] || log[0] + window <= t then ([t], true) else (log, false)
  {
    var none: seq<nat> := [];
    assert none + [t] == [t];
    if log != [] {
      assert log[..0] == [] && log == [log[0]];
      assert Retain(log, t, window) == if Recent(log[0], t, window) then [log[0]] else [];
    }
  }

  lemma {:induction false} NoneAccepted(window: nat, times: seq<nat>, n: nat, from: int)
    requires n <= |times|
    ensures SpanCount(times, Decisions(0, window, times), n, from, window) == 0
  {
    if n > 0 {
      NoneAccepted(window, times, n - 1, from);
      DecisionsPrefix(0, window, times, n);
      assert !Decisions(0, window, times[..n])[n - 1];
    }
  }

  /** A full burst at time 0, a frame one window later, and a frame claiming time 0 again. */
  function BackwardTimes(maxFrames: nat, window: nat): seq<nat> {
    seq(maxFrames, _ => 0) + [window, 0]
  }

  lemma {:induction false} BurstCount(maxFrames: nat, window: nat, times: seq<nat>, n: nat)
    requires window > 0 && maxFrames > 0 && n <= maxFrames <= |times|
    requires forall i :: 0 <= i < maxFrames ==> times[i] == 0
    ensures Monotone(times) ==> SpanCount(times, Decisions(maxFrames, window, times), n, 0, window) == n
    ensures Monotone(times) ==> SpanCount(times, Decisions(maxFrames, window, times), n, 1 - window, window) == n
  {
    if n > 0 && Monotone(times) {
      BurstCount(maxFrames, window, times, n - 1);
      AcceptsWhenRoom(maxFrames, window, times, n - 1);
    }
  }

  lemma BackwardBreaks(maxFrames: nat, window: nat)
    requires maxFrames >= 2 && window > 0
    ensures !Obeys(maxFrames, window, BackwardTimes(maxFrames, window),
                   Decisions(maxFrames, window, BackwardTimes(maxFrames, window)))
  {
    var times := BackwardTimes(maxFrames, window);
    var mine := Decisions(maxFrames, window, times);
    var ordered := times[..maxFrames + 1];
    assert Monotone(ordered);
    BurstCount(maxFrames, window, ordered, maxFrames);
    DecisionsPrefix(maxFrames, window, times, maxFrames + 1);
    SpanPrefix(ordered, times, Decisions(maxFrames, window, ordered), mine, maxFrames, 0, window);
    // The frame at `window` empties the log, so the backward frame finds room.
    OldFramesGone(maxFrames, window, ordered);
    DecisionAt(maxFrames, window, times, maxFrames + 1);
    assert SpanCount(times, mine, maxFrames + 2, 0, window) == maxFrames + 1;
  }

  lemma OldFramesGone(maxFrames: nat, window: nat, times: seq<nat>)
    requires maxFrames >= 2 && window > 0 && |times| == maxFrames + 1 && times[maxFrames] == window
    requires forall i :: 0 <= i < maxFrames ==> times[i] == 0
    ensures |Retain(LogAfter(maxFrames, window, times), 0, window)| < maxFrames
  {
    var log := LogAfter(maxFrames, window, times[..maxFrames]);
    LogBounded(maxFrames, window, times[..maxFrames], 0);
    AllOld(log, window);
    assert LogAfter(maxFrames, window, times) == [window];
  }

  lemma {:induction false} AllOld(log: seq<nat>, window: nat)
    requires window > 0 && Bounded(log, 0)
    ensures Retain(log, window, window) == []
  {
    if log != [] { AllOld(log[..|log| - 1], window); }
  }

  lemma SmallLimitsObey(maxFrames: nat, window: nat, times: seq<nat>)
    requires window > 0 && maxFrames <= 1
    ensures Obeys(maxFrames, window, times, Decisions(maxFrames, window, times))
  {
    hide SpanCount, Decisions;
    forall from: int
      ensures SpanCount(times, Decisions(maxFrames, window, times), |times|, from, window) <= maxFrames
    {
      if maxFrames == 0 { NoneAccepted(window, times, |times|, from); }
      else { SingleFrameBounded(window, times, from); }
    }
  }

  /** Exactly the limits of at most one frame keep their bound when times may arrive in any order. */
  lemma BoundWithoutOrder(maxFrames: nat, window: nat)
    requires window > 0
    ensures (forall times :: Obeys(maxFrames, window, times, Decisions(maxFrames, window, times))) <==> maxFrames <= 1
  {
    hide Obeys, Decisions;
    if maxFrames >= 2 {
      BackwardBreaks(maxFrames, window);
    } else {
      forall times
        ensures Obeys(maxFrames, window, times, Decisions(maxFrames, window, times))
      {
        SmallLimitsObey(maxFrames, window, times);
      }
    }
  }

  /** A zero limit or a zero window admits no frame of any run. */
  lemma {:induction false} ZeroAdmitsNothing(maxFrames: nat, window: nat, times: seq<nat>)
    requires maxFrames == 0 || window == 0
    ensures forall i :: 0 <= i < |times| ==> !Decisions(maxFrames, window, times)[i]
  {
    if times != [] {
      ZeroAdmitsNothing(maxFrames, window, times[..|times| - 1]);
    }
  }
}
