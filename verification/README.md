# Verified models of the world-infra algorithms

This project models the algorithms of the `world-infra` crates in Dafny and proves what they promise. It
keeps to the parts where a fast form has to agree with a simple one, where a protocol has to hold over every
run, and where an encoding or a scanner has to be unambiguous. `dafny verify dfyconfig.toml` checks it all.

| file | crate | subject |
|---|---|---|
| `BreachFile.dfy`, `BreachLookup.dfy` | auth-password-core | validation, linear scan and seek-based binary search of a breached-password file |
| `RefreshStore.dfy`, `RedisRefreshStore.dfy` | auth-refresh-core | single-use refresh-token rotation, in memory and in Redis |
| `ClaimStore.dfy` | idempotency-runtime-core | TTL claims with a lazy cleanup schedule |
| `FixedWindow.dfy`, `RedisFixedWindow.dfy` | rate-limit-core | fixed-window limiting, in process and in Redis |
| `SlidingWindow.dfy` | auth-ws-core | the sliding-window log of control frames |
| `SqlLint.dfy` | scoped-sql-lint | the literal-aware comment finder and the identifier search |
| `SnapshotRedaction.dfy` | billing-risk-core | key normalization and recursive redaction |
| `KeyEncoding.dfy`, `DeviceHash.dfy`, `SettingQuote.dfy` | several | length-prefixed keys, hash material, quoted settings |
| `ClientIp.dfy` | http-primitives | CIDR membership and the trusted-proxy walk |
| `Backoff.dfy` | delivery-core, world-cycle-core | both backoff loops against a closed form |
| `Wrappers.dfy`, `Basics.dfy`, `Text.dfy`, `Decimal.dfy`, `Clock.dfy`, `RedisExpiry.dfy` | shared | options and results, small facts, UTF-8 and trimming, decimal text, saturating instants, the range of Redis expiries |

How the source's form is kept:

- A mutex-protected store or a mutable limiter is a class whose methods update its fields in place. Each method
  is proved equal to one step function on the state (`Step`, `CheckStep`, `AllowStep`), and a run is any sequence
  of such steps. A caller reads its clock before it takes the lock, so runs carry arbitrary clock values unless a
  lemma asks for `Monotone` or `Orderly` ones. The step functions are in turn proved against independent
  descriptions: the Redis command model, a store that never sweeps, the rank of a request in its window, or a
  counting bound.
- A loop stays a loop with invariants, proved against a recursive function or a line-level description.
- What a method and its contract both rely on, such as clocks in milliseconds, TTLs, white space, hexadecimal digits
  or header entries, is characterized in plain terms beside it, and the main results are restated in the units that
  callers pass (`WindowAllowsCount`, `InstalledLoadsForItsTtl`, `StoredLastsForItsTtl`, `AnswerIsNamed`).
- Instants and durations are natural numbers of nanoseconds. Widths that matter (`u32` counters, `u64` and `i64`
  fields, the `Duration` and `Instant` ceilings, the `u32` length cast) are written out. Address words are bit
  sequences, so that shifting and masking are what the code does.
- The two list-header parsers of http-primitives run the same loop over different entry parsers; the model has
  one loop with the entry parser as a parameter.
- Clocks are parameters. SHA-256 is an injective constructor or an injective function parameter, and the standard
  library's address parsers are function parameters.

Some promises hold only in part, or more widely than they are stated:

- Under out-of-order clocks the lazily swept claim store may forget an entry that a caller still counts; the runs
  in which it does are exactly those of `AnswersLikeIdealIff`.
- Legacy idempotency keys of two stores may collide, for exactly the namespaces of `LegacyKeysCollideIff`.
- A quote that delimits nothing can hide a comment from the lint, exactly when the quotes do not pair up
  (`CommentFoundIffQuotesPair`).
- Capitalized key spellings may run together at words that follow a one-letter word or start with a digit
  (`StyleDoesNotMatter` has the exact condition).
- The two refresh stores differ where a TTL is not a whole number of seconds, where Redis refuses it, and where a
  rotation rounds it: above 2^53 seconds the count passes through a float. `BackendsAnswerAlikeIff` has the runs,
  `AgreementNeedsSharedTtl` and `RotationNeedsSharedOp` the TTLs, `RoundedRotationSeparates` an input.
- The two limiters differ on the checks whose expiry Redis refuses (`LimitersAnswerAlike`).
- Rotation conserves the number of live entries with no clock headroom at all: a winning rotation has seen an
  entry that outlives its own clock (`RotateKeepsLiveCount`).
- The sliding-window bound needs ordered times only for limits above one frame (`BoundWithoutOrder`).
- The `line_start >= high` exit of the sorted lookup is taken on unvalidated files only, such as one of a single
  character and a newline, and can only end in an error (`SortedFileContains`).

## Model

| member | source | states |
|---|---|---|
| BreachLookup.SortedFileContains | crates/auth-password-core/src/lib.rs:502-550 | On every file validation accepts as sorted: no error, the answer is exactly whether some line carries the hash, the fallback exit is never taken, and the number of probes is logarithmic in the file length. On any file: it terminates, a hit is never wrong, an error means some line has no readable hash, and the fallback, which a file of one character and a newline takes, can only end in an error |
| BreachLookup.SeekProbeLineStart | crates/auth-password-core/src/lib.rs:552-587 | The probe returns the line holding `mid`, or the line after a newline at `mid`, never errs within the file, and leaves the cursor exactly on that line start |
| BreachLookup.CompareNextLine | crates/auth-password-core/src/lib.rs:495-500 | Reading and comparing at a boundary consumes one line, errs exactly on a line without a hash, and reports the ordering of that line's hash against the query |
| BreachLookup.ProbeSettles | crates/auth-password-core/src/lib.rs:531-539 | One probed line decides, by sortedness, every line on its own side of the bracket |
| BreachLookup.ProbeHalves | crates/auth-password-core/src/lib.rs:516-539 | A probe that leaves at most half the range plus one byte keeps the halving budget |
| BreachLookup.RangeHoldsALine | crates/auth-password-core/src/lib.rs:519-526 | Between two line boundaries of an accepted file lie at least 40 bytes, which is why the fallback is unreachable there |
| BreachLookup.LinearScanContains | crates/auth-password-core/src/lib.rs:589-612 | A hit exactly when the hash is on a line with only readable lines above it, a miss exactly when all lines are readable and none carries it, otherwise the first unreadable line's error; on accepted files, exactly whether some line carries the hash |
| BreachLookup.ValidateFile | crates/auth-password-core/src/lib.rs:386-428 | Files of a refused size are refused as such; of the others exactly the non-empty ones whose every line has a hash and, if sorted, whose hashes never fall are accepted; otherwise the first fault is reported with its line number |
| BreachLookup.PreviousIsLargest | crates/auth-password-core/src/lib.rs:410-420 | Comparing with the previous hash only is the same as comparing with all earlier ones |
| BreachLookup.FileContains | crates/auth-password-core/src/lib.rs:435-447 | Files under the minimum size, and unsorted ones over the scan limit, are refused; then any query that does not trim to 40 hexadecimal digits is. On files accepted under the same options both strategies answer whether some line carries the query in capitals; on no file is a hit wrong |
| BreachFile.HashIgnoresTerminator | crates/auth-password-core/src/lib.rs:475-482 | A line read with its terminator and the same line stripped of it carry the same hash |
| BreachFile.Normalizes | crates/auth-password-core/src/lib.rs:484-493 | Exactly the texts that trim to 40 characters, each in `0-9`, `a-f` or `A-F`, normalize, to the same digits with the letters as capitals |
| BreachFile.LineHashIff | crates/auth-password-core/src/lib.rs:475-482 | A line carries exactly the hash that stands before its first colon, in either case and perhaps between white space |
| BreachFile.CarriesIff | crates/auth-password-core/src/lib.rs:475-493 | A file carries a hash exactly when the bytes of some line are the UTF-8 form of a text that spells it so |
| BreachFile.BlankIff | crates/auth-password-core/src/lib.rs:397-402 | A line is blank exactly when its bytes are a text of white space |
| BreachFile.EntryHash | crates/auth-password-core/src/lib.rs:475-482 | 40 hexadecimal digits in either case, followed by an optional `:count` and by nothing, a newline or CRLF, carry those digits in capitals |
| BreachFile.EntryLine | crates/auth-password-core/src/lib.rs:475-500 | So do the bytes of such a line, read at its start in any file |
| BreachFile.NormalizedHash | crates/auth-password-core/src/lib.rs:484-493 | Normal hashes are 40 upper-case hexadecimal digits and are fixed points of normalization |
| BreachFile.LessIsLexicographic | crates/auth-password-core/src/lib.rs:499 | The comparison used throughout is the lexicographic order |
| BreachFile.AtMostIff | crates/auth-password-core/src/lib.rs:412 | A hash may follow another in a sorted file exactly when it is the same or lexicographically later |
| BreachFile.BlankHasNoHash | crates/auth-password-core/src/lib.rs:397-408 | A line that trims to nothing never carries a hash, so blank and invalid lines exclude accepted ones |
| Text.DecodesIffEncoded | crates/auth-password-core/src/lib.rs:396 | The reader's text decoding accepts exactly the UTF-8 forms of texts (RFC 3629) |
| Text.TrimIff | crates/auth-password-core/src/lib.rs:485 | Trimming takes the 25 white-space characters off both ends and nothing else |
| Text.UppercaseAt | crates/auth-password-core/src/lib.rs:487 | Only `a` to `z` change, each to its capital |
| Text.LowercaseAt | crates/scoped-sql-lint/src/lib.rs:371 | Only `A` to `Z` change, each to its small letter |
| Text.Utf8LengthCountsBytes | crates/idempotency-runtime-core/src/lib.rs:137 | The byte length that limits and prefixes keys is the length of the UTF-8 form |
| Clock.SaturatingAdd | crates/auth-refresh-core/src/lib.rs:415-426 | Exact with headroom; otherwise at least half of what headroom there is; later than `now` exactly when the clock is not at its end |
| Clock.InstantSaturatingAdd | crates/idempotency-runtime-core/src/lib.rs:155-166 | The halving loop computes that expiry |
| Clock.ExpiryIsExact | crates/auth-refresh-core/src/lib.rs:407-426 | Short of the clock's end the expiry is `now + ttl`, or `now` plus one second for a zero TTL, to the nanosecond |
| Clock.TtlSecsCeil | crates/auth-refresh-core/src/lib.rs:429-434 | One second for a zero TTL, otherwise the least number of whole seconds that covers the TTL; the count saturates at the unsigned 64-bit maximum |
| RefreshStore.InMemoryRefreshStore.Set | crates/auth-refresh-core/src/lib.rs:506-526 | The locked section is the set step: the session under the token's key with the saturating expiry, or an invalid-token error and no change |
| RefreshStore.InMemoryRefreshStore.Get | crates/auth-refresh-core/src/lib.rs:533-547 | The locked section is the get step, which drops an entry it finds expired |
| RefreshStore.InMemoryRefreshStore.Rotate | crates/auth-refresh-core/src/lib.rs:559-603 | The locked section is the rotate step, losing branches and their removals included |
| RefreshStore.InMemoryRefreshStore.Delete | crates/auth-refresh-core/src/lib.rs:610-617 | The locked section is the delete step |
| RefreshStore.RotatedAwayStaysDead | crates/auth-refresh-core/src/lib.rs:549-603 | In every interleaving, under any clocks, a token that was rotated away neither loads nor rotates until a later step installs that token |
| RefreshStore.AtMostOneWinner | crates/auth-refresh-core/src/lib.rs:549-603 | Two winning rotations of one token always have an installation of it in between |
| RefreshStore.RotateKeepsLiveCount | crates/auth-refresh-core/src/lib.rs:574-602 | A rotation never changes how many entries are live at its own time, and a losing one never changes which |
| RefreshStore.RotateWinsIff | crates/auth-refresh-core/src/lib.rs:549-554 | A rotation wins exactly when both tokens are valid and different, the old one loads the expected session and the new one loads nothing |
| RefreshStore.InstalledLoads | crates/auth-refresh-core/src/lib.rs:513-546 | What a set or a winning rotation installs loads unchanged until exactly its expiry, through any steps on other tokens |
| RefreshStore.InstalledLoadsForItsTtl | crates/auth-refresh-core/src/lib.rs:407-413 | In nanoseconds: what is installed at `now` loads while the clock is before `now + ttl`, or before `now + 1_000_000_000` for a zero TTL, and at no later clock |
| RefreshStore.DeletedStaysDead | crates/auth-refresh-core/src/lib.rs:610-617 | A deleted token neither loads nor rotates until a later step installs it |
| RefreshStore.RejectedIff | crates/auth-refresh-core/src/lib.rs:347-361 | An operation is rejected exactly when one of its tokens is not 1 to 1024 letters, digits, dashes and underscores, and then changes nothing |
| RefreshStore.SessionFieldIff | crates/auth-refresh-core/src/lib.rs:392-405 | A session field is valid exactly when it has 1 to 256 bytes and no control character or white space |
| RefreshStore.KeysDiffer | crates/auth-refresh-core/src/lib.rs:436-450 | Different tokens and different stores use different keys |
| RedisRefreshStore.BackendsAnswerAlikeIff | crates/auth-refresh-core/src/lib.rs:506-868 | For valid sessions, distinct field names, one clock and arbitrary TTLs: the in-memory store and the Redis hash model with its rotate script answer a run of set, get, rotate and delete alike if and only if no step separates them, that is, no set has its expiry refused, no get looks between the two expiries of a session, and no rotation wins under one expiry only or wins with its expiry refused |
| RedisRefreshStore.AnswersOnSides | crates/auth-refresh-core/src/lib.rs:506-868 | Up to and including the first step that separates, each store answers as records with its own expiry say, so the first answers that differ are those of that step |
| RedisRefreshStore.StepHere | crates/auth-refresh-core/src/lib.rs:506-617 | For any TTL, one operation of the in-memory store is answered as the records say under its own expiry, and the store goes on holding what they hold |
| RedisRefreshStore.StepThere | crates/auth-refresh-core/src/lib.rs:706-868 | For any TTL, one operation of the Redis store is answered as the records say under the expiry Redis was told, refusals included, and unless it separates the store goes on holding what they hold |
| RedisRefreshStore.BackendsAnswerAlike | crates/auth-refresh-core/src/lib.rs:706-868 | A run whose TTLs are whole seconds that Redis accepts and that rotations do not round is answered alike |
| RedisRefreshStore.AgreementNeedsSharedTtl | crates/auth-refresh-core/src/lib.rs:429-434 | For every TTL and clock, a set and a later get are answered alike at every time if and only if the TTL is a whole number of seconds and Redis accepts the expiry |
| RedisRefreshStore.SharedTtlIff | crates/auth-refresh-core/src/lib.rs:429-434 | That condition in numbers: the TTL is a multiple of 1_000_000_000, and the clock in whole milliseconds plus the TTL in milliseconds, 1000 for zero, is at most 2^63 - 1 |
| RedisRefreshStore.RotationNeedsSharedOp | crates/auth-refresh-core/src/lib.rs:788-848 | For every TTL and clock, a rotation of a stored session and a later get of the new token are answered alike at every time if and only if the TTL is a whole number of seconds, Redis accepts the expiry and the script's `tonumber` does not round the count |
| RedisRefreshStore.RoundedRotationSeparates | crates/auth-refresh-core/src/lib.rs:819 | The rounding input: a rotation for 2^53 + 1 seconds gets 2^53 from Redis, at which time memory still loads the session and Redis does not |
| RedisRefreshStore.RefusedSetLeavesHash | crates/auth-refresh-core/src/lib.rs:706-738 | A set whose expiry is refused is answered with an error and leaves the session in Redis, without an expiry or with that of an earlier set |
| RedisRefreshStore.RefusedRotationLeavesHash | crates/auth-refresh-core/src/lib.rs:805-819 | A winning rotation whose expiry is refused is answered with an error; the old token is gone and the new session stays without an expiry |
| RedisRefreshStore.ComparedSessions | crates/auth-refresh-core/src/lib.rs:796-807 | The script's four field comparisons decide equality with the expected session |
| RedisRefreshStore.SessionRoundTrip | crates/auth-refresh-core/src/lib.rs:929-960 | A stored session parses back to itself when the field names are distinct |
| RedisRefreshStore.ParseSessionIff | crates/auth-refresh-core/src/lib.rs:929-960 | A hash is read as a session exactly when all four fields are there, the two numbers parse and the two names are valid; then as what they say |
| RedisRefreshStore.RoundTripNeedsDistinctFields | crates/auth-refresh-core/src/lib.rs:205-218 | The field-name check is exact: all valid sessions survive storage if and only if the four names are distinct |
| RedisRefreshStore.ValidateDistinctSessionFields | crates/auth-refresh-core/src/lib.rs:205-218 | The loop accepts exactly the schemas with four distinct names |
| Decimal.ParsePrintedI64 | crates/auth-refresh-core/src/lib.rs:939-948 | Every 64-bit signed number parses back from its decimal text |
| Decimal.ParsePrintedU64 | crates/auth-refresh-core/src/lib.rs:949-958 | Every 64-bit unsigned number parses back from its decimal text |
| Decimal.ParseI64Iff | crates/auth-refresh-core/src/lib.rs:939-948 | A text is read as a signed number exactly when it is digits behind at most one sign that write that number in base ten |
| Decimal.ParseU64Iff | crates/auth-refresh-core/src/lib.rs:949-958 | A text is read as an unsigned number exactly when it is digits behind at most a plus sign that write that number in base ten |
| Decimal.PrintedDigits | crates/auth-refresh-core/src/lib.rs:836-841 | Numbers are printed as the digits that write them, without leading zeros |
| Decimal.PrintedInteger | crates/auth-refresh-core/src/lib.rs:836-841 | Negative numbers are printed with a minus sign in front of their digits, others without |
| ClaimStore.InMemoryIdempotencyStore.MaybeCleanup | crates/idempotency-runtime-core/src/lib.rs:46-52 | The retain and the minimum over the kept entries compute the sweep step and its new schedule |
| ClaimStore.InMemoryIdempotencyStore.NoteExpiry | crates/idempotency-runtime-core/src/lib.rs:54-60 | The schedule moves to the earlier of itself and the new expiry |
| ClaimStore.InMemoryIdempotencyStore.SetOnce | crates/idempotency-runtime-core/src/lib.rs:246-275 | The locked section is the set-once step on the namespaced key; an invalid key changes nothing |
| ClaimStore.InMemoryIdempotencyStore.ClaimPending | crates/idempotency-runtime-core/src/lib.rs:285-316 | The locked section is the claim step on the namespaced key; an invalid key changes nothing |
| ClaimStore.InMemoryIdempotencyStore.MarkCompleted | crates/idempotency-runtime-core/src/lib.rs:323-344 | The locked section is the completion step, which does not sweep |
| ClaimStore.InMemoryIdempotencyStore.Delete | crates/idempotency-runtime-core/src/lib.rs:351-359 | The locked section is the delete step, which leaves the schedule alone |
| ClaimStore.InMemoryIdempotencyStore.Exists | crates/idempotency-runtime-core/src/lib.rs:366-378 | The locked section is the lookup step |
| ClaimStore.ReachableIsScheduled | crates/idempotency-runtime-core/src/lib.rs:46-60 | In every reachable state the schedule is no later than any stored expiry, under any clocks |
| ClaimStore.LazySweepIsFullSweep | crates/idempotency-runtime-core/src/lib.rs:46-52 | In every reachable state `maybe_cleanup` leaves exactly the unexpired entries, under any clocks |
| ClaimStore.HeldStep | crates/idempotency-runtime-core/src/lib.rs:285-316 | A step that neither deletes a key nor sweeps past its stored expiry keeps it and reports it as what it is: never Fresh, Pending only while pending |
| ClaimStore.FreshClaimsAreSeparated | crates/idempotency-runtime-core/src/lib.rs:246-359 | In every run, under any clocks, two Fresh claims of one key are separated by a delete of it or by a sweep whose clock reached the expiry then stored |
| ClaimStore.CompletedStaysCompleted | crates/idempotency-runtime-core/src/lib.rs:277-316 | In every run, under any clocks, a marked or completed key is reported Completed until such a delete or sweep ends it |
| ClaimStore.StoredLastsForItsTtl | crates/idempotency-runtime-core/src/lib.rs:147-153 | In nanoseconds: what a set-once, a Fresh claim or a completion stores at `now` is found by every claim, set-once and lookup with a clock before `now + ttl`, or before `now + 1_000_000_000` for a zero TTL, and by none with a later one, as long as nothing deletes or completes the key and no earlier sweep had such a later clock |
| ClaimStore.AnswersLikeIdealIff | crates/idempotency-runtime-core/src/lib.rs:46-378 | For every run and any clocks: all answers are those of a never-swept map whose entries vanish at their expiry if and only if no set-once, claim or lookup misses an entry, that is, looks under a clock that still counts what the map holds for a key and an earlier step, under a clock past that expiry, has swept since it was last written |
| ClaimStore.FirstDifference | crates/idempotency-runtime-core/src/lib.rs:246-378 | The first answer that differs from that map is the one of the first step that misses an entry |
| ClaimStore.AnswersLikeIdeal | crates/idempotency-runtime-core/src/lib.rs:246-378 | With a clock that never runs backwards nothing is missed, so every answer is that of the map |
| ClaimStore.BackwardClockMatters | crates/idempotency-runtime-core/src/lib.rs:252-257 | The shortest case: of two claims of a key around one lookup, the last is answered differently if and only if its own clock is before the expiry set by the first and the clock of the lookup is not |
| FixedWindow.InProcessFixedWindow.Check | crates/rate-limit-core/src/lib.rs:572-619 | The locked section is the check step: reuse or reset the one bucket, count up to the ceiling, decide |
| FixedWindow.UnixMillisIs | crates/rate-limit-core/src/lib.rs:646-650 | The clock in milliseconds is the one `m` with `m * 1_000_000 <= now < (m + 1) * 1_000_000`, and 0 before the epoch |
| FixedWindow.WindowMillisIs | crates/rate-limit-core/src/lib.rs:652-660 | A window counts as the least positive number of whole milliseconds that covers it |
| FixedWindow.UncountedAnswers | crates/rate-limit-core/src/lib.rs:572-584 | An unlimited check is allowed, one with a zero window is an error, and neither leaves a trace |
| FixedWindow.InProcessFixedWindow.Cleanup | crates/rate-limit-core/src/lib.rs:622-631 | Keeps the buckets whose window ended after the cutoff and returns how many went |
| FixedWindow.CleanupForgetsEnded | crates/rate-limit-core/src/lib.rs:621-629 | A bucket goes exactly when its window ended at least the given age ago |
| FixedWindow.CleanupInTime | crates/rate-limit-core/src/lib.rs:621-629 | In nanoseconds: a bucket is kept exactly when its end plus the given age is past the clock rounded down to milliseconds |
| FixedWindow.DecidedByRank | crates/rate-limit-core/src/lib.rs:585-618 | With ordered times and one window length per key, whatever cleanups are interleaved, a decision depends only on the rank of the check in its aligned window, up to the counter's ceiling |
| FixedWindow.AdmittedByRank | crates/rate-limit-core/src/lib.rs:607-609 | A check is admitted exactly when it is among the first `count` of its window, and `remaining` is what is left |
| FixedWindow.WindowAdmitsFirst | crates/rate-limit-core/src/lib.rs:585-609 | In each aligned window exactly the smaller of the number of checks and `count` get in |
| FixedWindow.SpanAdmitsTwice | crates/rate-limit-core/src/lib.rs:585-609 | Any span of one window length in milliseconds, both ends included, admits at most twice the count |
| FixedWindow.WindowAllowsCount | crates/rate-limit-core/src/lib.rs:572-619 | In the nanoseconds callers pass, for ordered clocks and one limit: of the checks in each span of the rounded-up window counted from the epoch, the smaller of their number and `count` are allowed |
| FixedWindow.AnySpanAllowsTwice | crates/rate-limit-core/src/lib.rs:572-619 | In nanoseconds: any span as long as the window, wherever it starts, allows at most twice the count |
| FixedWindow.RetryReachesNextWindow | crates/rate-limit-core/src/lib.rs:610-616 | A hint is given exactly on refusal, and waiting for it, where a 64-bit millisecond count can express it, reaches the first instant of the next window and no earlier one |
| FixedWindow.RetryInTime | crates/rate-limit-core/src/lib.rs:610-616 | In nanoseconds: waiting for the hint from a refused check reaches the first millisecond of the next span |
| RedisFixedWindow.LimitersAnswerAlike | crates/rate-limit-core/src/lib.rs:699-746 | With ordered times, one window length per key of at most 2^63 - 1 milliseconds and cleanups interleaved anywhere, both limiters give a check the same decision if and only if it is not one that opens its window with an expiry Redis refuses |
| RedisFixedWindow.RefusedIff | crates/rate-limit-core/src/lib.rs:719-726 | In numbers: a refused check opens its window while the clock in milliseconds plus the window and a second, at most 2^63 - 1, is beyond 2^63 - 1 |
| RedisFixedWindow.OpenedCounter | crates/rate-limit-core/src/lib.rs:719-726 | An accepted check that opens its window leaves a counter at one that expires one second and one window length later |
| RedisFixedWindow.RedisCountsExactly | crates/rate-limit-core/src/lib.rs:716-736 | A window's counter holds the rank and, if it has an expiry, outlives the window; that of a refused expiry stays and goes on counting |
| SlidingWindow.ControlFrameRateLimit.AllowAt | crates/auth-ws-core/src/lib.rs:228-239 | The method is the prune-and-push step on the log |
| SlidingWindow.LimiterObeys | crates/auth-ws-core/src/lib.rs:208-239 | On ordered times every half-open span of one window length holds at most `max_frames` accepted frames |
| SlidingWindow.LimiterIsOptimal | crates/auth-ws-core/src/lib.rs:208-239 | At every point the limiter has accepted at least as many frames as any other selection obeying that bound |
| SlidingWindow.AcceptsWhenRoom | crates/auth-ws-core/src/lib.rs:232-238 | A frame is accepted exactly when the span that ends with it has room |
| SlidingWindow.AllowedIff | crates/auth-ws-core/src/lib.rs:228-239 | Whatever the order of times: a frame is allowed exactly when neither limit is zero and fewer than `max_frames` logged times are less than one window old, and the log then holds those and the frame |
| SlidingWindow.ZeroAdmitsNothing | crates/auth-ws-core/src/lib.rs:229-231 | A zero limit or a zero window admits no frame of any run |
| SlidingWindow.BoundWithoutOrder | crates/auth-ws-core/src/lib.rs:232-233 | When times may come in any order, the bound survives exactly for limits of at most one frame |
| SqlLint.LineComment | crates/scoped-sql-lint/src/lib.rs:280-295 | The scanning loop returns the text from the first comment position, if any |
| SqlLint.StringLiteralEnd | crates/scoped-sql-lint/src/lib.rs:297-311 | The dispatch over ordinary, byte, raw and raw-byte literals returns the end of the literal starting here |
| SqlLint.QuotedStringEnd | crates/scoped-sql-lint/src/lib.rs:313-326 | The escape-tracking loop ends after the first unescaped quote, or at the end of the line |
| SqlLint.RawStringLiteralEnd | crates/scoped-sql-lint/src/lib.rs:328-353 | The hash-counting loops end after the first matching delimiter, or at the end of the line |
| SqlLint.LiteralLength | crates/scoped-sql-lint/src/lib.rs:297-311 | Every literal skip strictly advances and stays within the line |
| SqlLint.LiteralMeasured | crates/scoped-sql-lint/src/lib.rs:297-353 | Every well-formed literal is measured exactly, whatever follows it |
| SqlLint.CommentOfRenderedLine | crates/scoped-sql-lint/src/lib.rs:280-353 | For every line rendered from code pieces and literals, the scanner finds exactly the trailing comment, or none |
| SqlLint.CommentIsFirst | crates/scoped-sql-lint/src/lib.rs:280-353 | For every line, the scanner with its lookahead and skips finds the first `//` that a one-pass automaton meets outside string and raw literals, and nothing when there is none |
| SqlLint.CommentFoundIff | crates/scoped-sql-lint/src/lib.rs:280-353 | For every text, the comment behind it is the one found if and only if no comment starts in the text and the text ends outside literals; when it ends inside one, anything found starts later |
| SqlLint.CommentFoundIffQuotesPair | crates/scoped-sql-lint/src/lib.rs:280-326 | Behind code that may hold quotes that are no delimiters, but no backslash, comment or raw prefix before a quote, the comment is found if and only if the number of quotes is even; if it is odd, anything found starts later, and without a further quote nothing is found |
| SqlLint.QuoteInCharLiteralHidesComment | crates/scoped-sql-lint/src/lib.rs:280-295 | So a quote in a character literal hides the comment behind it when no further quote follows, which is why code pieces exclude quotes |
| SqlLint.ContainsIdentifier | crates/scoped-sql-lint/src/lib.rs:370-384 | The loop over non-overlapping matches reports whether one of them has no identifier neighbour |
| SqlLint.IdentifierCharIff | crates/scoped-sql-lint/src/lib.rs:382-384 | The identifier characters are letters, digits and the underscore |
| SqlLint.SearchIsCompleteIff | crates/scoped-sql-lint/src/lib.rs:370-384 | The search finds a bounded occurrence, overlapping ones included, in every window exactly for tables without a loose self-overlap |
| SqlLint.IdentifierTablesHaveNoLooseOverlap | crates/scoped-sql-lint/src/lib.rs:382-384 | Tables made only of identifier characters are among them |
| SnapshotRedaction.NormalizeSnapshotKey | crates/billing-risk-core/src/lib.rs:281-316 | The loop with its two flags computes the normal form |
| SnapshotRedaction.NormalizedIsSnakeCase | crates/billing-risk-core/src/lib.rs:281-316 | Only lower-case letters, digits and single inner underscores come out |
| SnapshotRedaction.FixedIffSnakeCase | crates/billing-risk-core/src/lib.rs:281-316 | Exactly the snake-case keys are left alone |
| SnapshotRedaction.NormalizeIdempotent | crates/billing-risk-core/src/lib.rs:281-316 | Normalizing twice changes nothing |
| SnapshotRedaction.StyleDoesNotMatter | crates/billing-risk-core/src/lib.rs:281-316 | For all words of lower-case letters and digits, separated spellings normalize to snake case; camelCase and PascalCase do if and only if the scanner splits off every word, which it does when each starts with a letter and either does not follow a one-letter word or has a letter as its second character; words of two characters or more that start with a letter always qualify |
| SnapshotRedaction.AcronymNormalizes | crates/billing-risk-core/src/lib.rs:288-301 | An all-capitals word in front of capitalized ones keeps together, and the whole normalizes to snake case if and only if those are split off |
| SnapshotRedaction.SeparatorsCut | crates/billing-risk-core/src/lib.rs:281-316 | Any run of characters other than letters and digits cuts a key in two that are normalized on their own and joined by one underscore; at either end it is dropped |
| SnapshotRedaction.MatchesIffWordsEnd | crates/billing-risk-core/src/lib.rs:269-279 | For all words of lower-case letters and digits, one snake-case text matches another if and only if its words end in those of the other |
| SnapshotRedaction.SensitiveIffWordsEnd | crates/billing-risk-core/src/lib.rs:269-279 | For every key and every list of names, the key is sensitive if and only if its words end in the words of some name, where the words are those between the underscores of the normal form |
| SnapshotRedaction.SplitJoins | crates/billing-risk-core/src/lib.rs:269-316 | Every snake-case text, so every normal form, is the snake case of its words |
| SnapshotRedaction.WordsOfSpelling | crates/billing-risk-core/src/lib.rs:269-316 | A key spelled from words in a style that normalizes to their snake case is judged by exactly these words |
| SnapshotRedaction.SensitiveByNormalForm | crates/billing-risk-core/src/lib.rs:269-279 | Normalizing a key first changes nothing about whether it is sensitive |
| SnapshotRedaction.ElsewhereUnchanged | crates/billing-risk-core/src/lib.rs:246-267 | Away from sensitive keys every path leads to the redaction of what it led to before |
| SnapshotRedaction.InsensitiveSurvives | crates/billing-risk-core/src/lib.rs:248-267 | Along a path without sensitive keys a null, boolean, number or string is found unchanged, an array with as many items, an object with the same keys, and nothing where nothing was |
| SnapshotRedaction.SensitiveIsReplaced | crates/billing-risk-core/src/lib.rs:246-267 | At every depth a sensitive key stays and its value is the string `[redacted]` |
| SnapshotRedaction.RedactIdempotent | crates/billing-risk-core/src/lib.rs:246-267 | Redacting twice changes nothing |
| KeyEncoding.SelfDelimiting | crates/rate-limit-core/src/lib.rs:797-806 | A length-prefixed piece can be read back from the front of any text |
| KeyEncoding.NamespacedKeyInjective | crates/idempotency-runtime-core/src/lib.rs:176-195 | Length-prefixed keys determine the optional namespace and the trimmed key |
| KeyEncoding.ValidatePartIff | crates/idempotency-runtime-core/src/lib.rs:131-146 | Keys are refused exactly for a control character anywhere and, once trimmed, for being empty, for more than 512 bytes and for white space inside |
| KeyEncoding.StoredKeyText | crates/idempotency-runtime-core/src/lib.rs:176-195 | The text of an accepted key in both formats, with lengths in bytes |
| KeyEncoding.LegacyKeysCollideIff | crates/idempotency-runtime-core/src/lib.rs:176-195 | Two different stores with valid namespaces have a legacy key in common if and only if one namespace is the other followed by a colon and any text, or one store has none and the namespace of the other is at most 510 bytes |
| KeyEncoding.LegacyKeyInjective | crates/idempotency-runtime-core/src/lib.rs:176-195 | Within one store, legacy keys determine the trimmed key |
| KeyEncoding.NamespacePrefixCollides | crates/idempotency-runtime-core/src/lib.rs:191-194 | The witness: namespace `a` with key `b:c` and namespace `a:b` with key `c` share a legacy key |
| KeyEncoding.RedisBucketKeyInjective | crates/rate-limit-core/src/lib.rs:797-806 | Bucket keys determine namespace, key and window start |
| KeyEncoding.BucketKeyText | crates/rate-limit-core/src/lib.rs:797-806 | The text of a bucket key, with lengths in bytes |
| KeyEncoding.LengthPrefixedSubjectKeyInjective | crates/rate-limit-core/src/lib.rs:252-264 | Subject keys determine prefix, label, kind and subject |
| KeyEncoding.SubjectKeyInjective | crates/rate-limit-core/src/lib.rs:228-250 | Printed or digested, the keys of different prefixes, labels or trimmed subjects never collide |
| KeyEncoding.SubjectKeyAnswers | crates/rate-limit-core/src/lib.rs:228-264 | Exactly which subjects get a printed key, which a digested one and which an error, with the text of the key |
| KeyEncoding.ValidateKeyPartIff | crates/rate-limit-core/src/lib.rs:439-453 | Exactly the texts without control characters that trim to 1 to 256 letters, digits and characters of `-_.:/` are accepted |
| DeviceHash.UpdateHashMaterial | crates/auth-device-core/src/lib.rs:488-512 | The digest absorbs the separator, a colon and the tagged, length-prefixed fields, in that order, and nothing else |
| DeviceHash.UpdateLenPrefixed | crates/auth-device-core/src/lib.rs:555-558 | The digest absorbs four big-endian length bytes and the value |
| DeviceHash.BigEndianValue | crates/auth-device-core/src/lib.rs:556 | The four bytes are the length in base 256, most significant first |
| DeviceHash.MaterialInjective | crates/auth-device-core/src/lib.rs:488-512 | Behind one separator, with fields under 2^32 bytes, different materials feed different bytes |
| DeviceHash.SameBytesIff | crates/auth-device-core/src/lib.rs:458-486 | Two requests feed the same bytes exactly when they carry the same device id, or neither carries one and they agree on address and user agent |
| DeviceHash.RequestBytes | crates/auth-device-core/src/lib.rs:458-512 | A request has no hash material exactly when it carries none of the three fields; otherwise the bytes are `device-id:` and the id, or `ip-ua:` with `ip:` and `ua:` fields as they are there, each value behind four bytes that spell its length |
| SettingQuote.QuoteReadsBackIff | crates/tenant-scope-sqlx/src/lib.rs:185-189 | Only values with NUL are refused; reading a quoted value back gives the value and stops at the suffix exactly when the suffix does not begin with a quote |
| SettingQuote.ReplacementsFuse | crates/tenant-scope-sqlx/src/lib.rs:187 | The two replacements act as one character-wise escape: the second leaves the first one's output alone |
| ClientIp.ContainsIffTopBitsAgree | crates/http-primitives/src/lib.rs:250-270 | Masked equality is agreement on the top prefix bits within one address family |
| ClientIp.SingleIpContainsItself | crates/http-primitives/src/lib.rs:214-220 | A single-address network contains that address only |
| ClientIp.TrustedIff | crates/http-primitives/src/lib.rs:544-546 | Trusted are exactly the addresses that lie in one of the networks, by family and top prefix bits |
| ClientIp.ParseListHeader | crates/http-primitives/src/lib.rs:435-461 | The right-to-left loop with its flag and early returns computes the walk over the non-blank entries |
| ClientIp.FoundIff | crates/http-primitives/src/lib.rs:488-512 | The walk yields an address exactly when it is the rightmost one outside all trusted networks with only valid trusted hops to its right |
| ClientIp.MissingIff | crates/http-primitives/src/lib.rs:456-460 | A header counts as missing exactly when it has no non-blank entry |
| ClientIp.TokenIff | crates/http-primitives/src/lib.rs:521-542 | A token is read exactly as the address it names once trimmed: one in brackets, perhaps with a 16-bit port, or else an address or an address with a port as the standard library reads them, without quotes at either end |
| ClientIp.ForwardedEntryIff | crates/http-primitives/src/lib.rs:463-486 | An entry of `name=value` parameters between semicolons, with any white space in front of names and around values, names exactly the address that the value of its first parameter called `for`, in any case, names, quoted or not, and none when there is none |
| ClientIp.EntryIff | crates/http-primitives/src/lib.rs:463-542 | Every entry of either header is read as the address it names in this way, or as none; every text is an entry of such parameters |
| ClientIp.EntriesOf | crates/http-primitives/src/lib.rs:440-445 | The entries of a header are the texts between its commas, trimmed, without those of white space only, in order |
| ClientIp.PrependingChangesNothing | crates/http-primitives/src/lib.rs:435-512 | Once a header yields an address, any text put in front of it with a comma changes nothing |
| ClientIp.ExtractClientIp | crates/http-primitives/src/lib.rs:347-371 | The early returns compute one function of the headers: an untrusted peer is returned whatever they say; behind a trusted one they are consulted in order, and an invalid one falls back to the peer |
| ClientIp.AnswerIsRightmostClient | crates/http-primitives/src/lib.rs:347-371 | Behind a trusted peer the first list header with an entry decides alone, and the answer is its rightmost address outside all trusted networks with only valid trusted hops behind it, or the peer when it has none; the single-address header counts only when neither list header has an entry |
| ClientIp.AnswerIsNamed | crates/http-primitives/src/lib.rs:347-371 | The same with no parser in between: the answer is named by the deciding header's rightmost entry that names an address outside all trusted networks, with only entries behind it that name one inside; or by the single-address header; or it is the peer |
| ClientIp.PrependingKeepsAnswer | crates/http-primitives/src/lib.rs:347-371 | Text put in front of the header that yields the answer changes nothing in it, and neither do the headers after that one |
| Backoff.DelayForAttempt | crates/delivery-core/src/lib.rs:175-185 | The loop, early exit and saturation included, is min(max, initial * multiplier^(attempt - 1)), with its iteration count bounded |
| Backoff.DelayForAttemptIndex | crates/world-cycle-core/src/lib.rs:492-502 | The loop is min(max, initial * multiplier^index), with its iteration count bounded |
| Backoff.DelayForCompletedAttempts | crates/delivery-core/src/lib.rs:187-191 | The delay after n completed attempts is that of retry index n, one behind only at the saturated counter |
| Backoff.NextDelay | crates/delivery-core/src/lib.rs:178-182 | One capped saturating multiplication is one more power, and it stands still exactly at the cap or for multiplier one |
| Backoff.DelaysMonotone | crates/delivery-core/src/lib.rs:175-185 | Delays start at the initial one, never fall and never pass the cap |
| Backoff.IterationsLogarithmic | crates/world-cycle-core/src/lib.rs:494-499 | With a multiplier of at least two the loop runs logarithmically often in max / initial |
| Backoff.NewPolicy | crates/delivery-core/src/lib.rs:163-172 | Accepts exactly positive delays and multiplier with the cap no smaller than the start, and keeps the values it was given |

## Left out

- Real files: metadata, permissions and read errors other than invalid UTF-8; a file is its bytes and a cursor.
- Argon2, SHA-1, SHA-256, HMAC, randomness and token minting: library calls.
- Redis connections, timeouts, connection caching and non-UTF-8 replies; commands and scripts are atomic steps on a map with expiry. The server clock is the caller's, a key is gone from the very instant of its expiry on, and its rounding to milliseconds is modelled only where it decides whether an expiry is accepted.
- Instants of platforms other than those with a signed 64-bit second count: only the ceiling constant differs.
- Key order and duplicate keys of JSON objects, and the syntax of JSON numbers: an object is a map, a number is opaque.
- The text of error messages; errors are kinds, with the line number where the source prints one.
- The address parsers of the standard library: any two parsers may be plugged into `ClientIp`, so their own syntax is not part of this model.
- Commas inside quoted `Forwarded` values (section 4 of RFC 7239): the code splits at them too, and the model follows the code.
- Octal, hexadecimal and Unicode escapes, and the continuation of a literal across a newline, in the PostgreSQL reader: `quote_setting_value` never writes the former, and the latter depends on the statement around the literal.
- RedisFixedWindow.RedisCountsExactly: covers runs of at most 2^63 - 1 operations, after which INCR itself fails, and windows of at most 2^63 - 1 milliseconds, beyond which a counter opened at the epoch would expire first.
- FixedWindow.RetryReachesNextWindow: covers waits up to the 64-bit millisecond count a hint can express.
- The Redis idempotency store: its markers and expiry follow the in-memory store's states, and its script is not part of this model.
- The unkeyed legacy modes of the device hash (raw device id, bare address and user agent): they feed untagged bytes by design.
- Lint findings beyond one line: allow markers on neighbouring lines and the window of context lines.
- Label, token and schema validators that are settled by reading one branch, and the status enums of the other crates.
