// The in-memory idempotency store: claims with a TTL, swept only when the cleanup schedule says so.
// A caller reads its clock before taking the lock, so clock values may arrive out of order; the
// lemmas say which guarantees survive that and which need a clock that never runs backwards.
module ClaimStore {
  import opened Wrappers
  import opened Clock
  import opened KeyEncoding

  datatype WorkClaim = Fresh | Pending | Completed

  datatype EntryState = Marker | Pending | Completed

  datatype Entry = Entry(state: EntryState, expiresAt: Instant)

  type Entries = map<string, Entry>

  datatype State = State(entries: Entries, nextCleanupAt: Option<Instant>)

  const EMPTY: State := State(map[], None)

  // ----- the schedule -----

  function Unexpired(m: Entries, now: Instant): Entries {
    map k | k in m && m[k].expiresAt > now :: m[k]
  }

  /** `t` is the least expiry stored in `m`, or None when `m` is empty. */
  predicate IsEarliest(m: Entries, t: Option<Instant>) {
    match t
    case None => m == map[]
    case Some(t) => (exists k :: k in m && m[k].expiresAt == t) && forall k :: k in m ==> t <= m[k].expiresAt
  }

  lemma EarliestExists(m: Entries)
    ensures exists t: Option<Instant> :: IsEarliest(m, t)
  {
    if m == map[] {
      assert IsEarliest(m, None);
    } else {
      var k :| k in m;
      var rest := m - {k};
      EarliestExists(rest);
      var t: Option<Instant> :| IsEarliest(rest, t);
      assert forall x :: x in m <==> x == k || x in rest;
      var least := if t.Some? && t.value <= m[k].expiresAt then t.value else m[k].expiresAt;
      if least != m[k].expiresAt {
        var x :| x in rest && rest[x].expiresAt == least;
        assert x in m && m[x].expiresAt == least;
      }
      assert IsEarliest(m, Some(least));
    }
  }

  ghost function Earliest(m: Entries): (t: Option<Instant>)
    ensures IsEarliest(m, t)
  {
    EarliestExists(m);
    var t: Option<Instant> :| IsEarliest(m, t);
    t
  }

  lemma EarliestUnique(m: Entries, t: Option<Instant>, u: Option<Instant>)
    requires IsEarliest(m, t) && IsEarliest(m, u)
    ensures t == u
  {
  }

  /** `maybe_cleanup`: nothing before the scheduled time, a full sweep and a new schedule after it. */
  ghost function Sweep(s: State, now: Instant): State {
    if s.nextCleanupAt.Some? && s.nextCleanupAt.value > now then s
    else
      var kept := Unexpired(s.entries, now);
      State(kept, Earliest(kept))
  }

  /** Insert an entry and `note_expiry`. */
  function Store(s: State, key: string, state: EntryState, expiresAt: Instant): State {
    State(s.entries[key := Entry(state, expiresAt)],
          Some(if s.nextCleanupAt.Some? && s.nextCleanupAt.value <= expiresAt then s.nextCleanupAt.value
               else expiresAt))
  }

  predicate Live(m: Entries, key: string, now: Instant) {
    key in m && m[key].expiresAt > now
  }

  // ----- atomic steps -----

  datatype Op =
    | SetOnce(key: string, ttl: Duration, now: Instant)
    | Claim(key: string, ttl: Duration, now: Instant)
    | MarkCompleted(key: string, ttl: Duration, now: Instant)
    | Delete(key: string)
    | Exists(key: string, now: Instant)

  datatype Answer = Marked(first: bool) | Claimed(claim: WorkClaim) | Noted | Deleted | Found(live: bool)

  ghost function Step(s: State, op: Op): (State, Answer) {
    match op
    case SetOnce(key, ttl, now) =>
      var swept := Sweep(s, now);
      if Live(swept.entries, key, now) then (swept, Marked(false))
      else (Store(swept, key, Marker, Expiry(now, ttl)), Marked(true))
    case Claim(key, ttl, now) =>
      var swept := Sweep(s, now);
      if Live(swept.entries, key, now) then
        (swept, Claimed(if swept.entries[key].state == EntryState.Pending then WorkClaim.Pending
                        else WorkClaim.Completed))
      else (Store(swept, key, EntryState.Pending, Expiry(now, ttl)), Claimed(Fresh))
    case MarkCompleted(key, ttl, now) => (Store(s, key, EntryState.Completed, Expiry(now, ttl)), Noted)
    case Delete(key) => (s.(entries := s.entries - {key}), Deleted)
    case Exists(key, now) =>
      var swept := Sweep(s, now);
      (swept, Found(Live(swept.entries, key, now)))
  }

  /** The store object; each method body is what runs while the lock is held. */
  class InMemoryIdempotencyStore {
    const namespace: Option<string>
    const keyFormat: KeyFormat
    var entries: Entries
    var nextCleanupAt: Option<Instant>

    ghost function Contents(): State
      reads this
    {
      State(entries, nextCleanupAt)
    }

    constructor (namespace: Option<string>, keyFormat: KeyFormat)
      ensures this.namespace == namespace && this.keyFormat == keyFormat && Contents() == EMPTY
    {
      this.namespace := namespace;
      this.keyFormat := keyFormat;
      entries := map[];
      nextCleanupAt := None;
    }

    method MaybeCleanup(now: Instant)
      modifies this
      ensures Contents() == Sweep(old(Contents()), now)
    {
      if nextCleanupAt.Some? && nextCleanupAt.value > now {
        return;
      }
      entries := map k | k in entries && entries[k].expiresAt > now :: entries[k];
      var rest := entries.Keys;
      var least: Option<Instant> := None;
      while rest != {}
        invariant rest <= entries.Keys
        invariant least == None ==> rest == entries.Keys
        invariant least.Some? ==>
                    && (exists k :: k in entries && k !in rest && entries[k].expiresAt == least.value)
                    && forall k :: k in entries && k !in rest ==> least.value <= entries[k].expiresAt
        decreases rest
      {
        var k :| k in rest;
        if least.None? || entries[k].expiresAt < least.value {
          least := Some(entries[k].expiresAt);
        }
        rest := rest - {k};
      }
      nextCleanupAt := least;
      assert IsEarliest(entries, least);
      EarliestUnique(entries, least, Earliest(entries));
    }

    method NoteExpiry(expiresAt: Instant)
      modifies this`nextCleanupAt
      ensures nextCleanupAt.Some?
      ensures nextCleanupAt.value ==
                if old(nextCleanupAt).Some? && old(nextCleanupAt).value <= expiresAt then old(nextCleanupAt).value
                else expiresAt
    {
      nextCleanupAt :=
        if nextCleanupAt.Some? && nextCleanupAt.value < expiresAt then nextCleanupAt else Some(expiresAt);
    }

    method SetOnce(rawKey: string, ttl: Duration, now: Instant) returns (r: Result<bool, KeyError>)
      modifies this
      ensures match NamespacedKey(namespace, rawKey, keyFormat)
        case Err(e) => r == Err(e) && Contents() == old(Contents())
        case Ok(key) => r.Ok? && (Contents(), Marked(r.value)) == Step(old(Contents()), Op.SetOnce(key, ttl, now))
    {
      var key := NamespacedKey(namespace, rawKey, keyFormat);
      if key.Err? { return Err(key.error); }
      var expiresAt := InstantSaturatingAdd(now, TtlDuration(ttl));
      MaybeCleanup(now);
      if key.value in entries && entries[key.value].expiresAt > now { return Ok(false); }
      entries := entries[key.value := Entry(Marker, expiresAt)];
      NoteExpiry(expiresAt);
      return Ok(true);
    }

    method ClaimPending(rawKey: string, ttl: Duration, now: Instant) returns (r: Result<WorkClaim, KeyError>)
      modifies this
      ensures match NamespacedKey(namespace, rawKey, keyFormat)
        case Err(e) => r == Err(e) && Contents() == old(Contents())
        case Ok(key) => r.Ok? && (Contents(), Claimed(r.value)) == Step(old(Contents()), Claim(key, ttl, now))
    {
      var key := NamespacedKey(namespace, rawKey, keyFormat);
      if key.Err? { return Err(key.error); }
      var expiresAt := InstantSaturatingAdd(now, TtlDuration(ttl));
      MaybeCleanup(now);
      if key.value in entries && entries[key.value].expiresAt > now {
        if entries[key.value].state == EntryState.Pending { return Ok(WorkClaim.Pending); }
        return Ok(WorkClaim.Completed);
      }
      entries := entries[key.value := Entry(EntryState.Pending, expiresAt)];
      NoteExpiry(expiresAt);
      return Ok(Fresh);
    }

    method MarkCompleted(rawKey: string, ttl: Duration, now: Instant) returns (r: Result<(), KeyError>)
      modifies this
      ensures match NamespacedKey(namespace, rawKey, keyFormat)
        case Err(e) => r == Err(e) && Contents() == old(Contents())
        case Ok(key) => r.Ok? && Contents() == Step(old(Contents()), Op.MarkCompleted(key, ttl, now)).0
    {
      var key := NamespacedKey(namespace, rawKey, keyFormat);
      if key.Err? { return Err(key.error); }
      var expiresAt := InstantSaturatingAdd(now, TtlDuration(ttl));
      entries := entries[key.value := Entry(EntryState.Completed, expiresAt)];
      NoteExpiry(expiresAt);
      return Ok(());
    }

    method Delete(rawKey: string) returns (r: Result<(), KeyError>)
      modifies this
      ensures match NamespacedKey(namespace, rawKey, keyFormat)
        case Err(e) => r == Err(e) && Contents() == old(Contents())
        case Ok(key) => r.Ok? && Contents() == Step(old(Contents()), Op.Delete(key)).0
    {
      var key := NamespacedKey(namespace, rawKey, keyFormat);
      if key.Err? { return Err(key.error); }
      entries := entries - {key.value};
      return Ok(());
    }

    method Exists(rawKey: string, now: Instant) returns (r: Result<bool, KeyError>)
      modifies this
      ensures match NamespacedKey(namespace, rawKey, keyFormat)
        case Err(e) => r == Err(e) && Contents() == old(Contents())
        case Ok(key) => r.Ok? && (Contents(), Found(r.value)) == Step(old(Contents()), Op.Exists(key, now))
    {
      var key := NamespacedKey(namespace, rawKey, keyFormat);
      if key.Err? { return Err(key.error); }
      MaybeCleanup(now);
      return Ok(key.value in entries && entries[key.value].expiresAt > now);
    }
  }

  // ----- runs -----

  ghost function After(ops: seq<Op>): State {
    if ops == [] then EMPTY else Step(After(ops[..|ops| - 1]), ops[|ops| - 1]).0
  }

  ghost function AnswerAt(ops: seq<Op>, j: nat): Answer
    requires j < |ops|
  {
    Step(After(ops[..j]), ops[j]).1
  }

  lemma AfterExtend(ops: seq<Op>, j: nat)
    requires j < |ops|
    ensures After(ops[..j + 1]) == Step(After(ops[..j]), ops[j]).0
  {
    assert ops[..j + 1][..j] == ops[..j];
  }

  /** The schedule never lies later than a stored expiry. */
  predicate Scheduled(s: State) {
    forall k :: k in s.entries ==> s.nextCleanupAt.Some? && s.nextCleanupAt.value <= s.entries[k].expiresAt
  }

  lemma StepKeepsSchedule(s: State, op: Op)
    requires Scheduled(s)
    ensures Scheduled(Step(s, op).0)
  {
  }

  lemma {:induction false} ReachableIsScheduled(ops: seq<Op>)
    ensures Scheduled(After(ops))
  {
    hide Step, Scheduled;
    if ops == [] {
      EmptyIsScheduled();
    } else {
      ReachableIsScheduled(ops[..|ops| - 1]);
      StepKeepsSchedule(After(ops[..|ops| - 1]), ops[|ops| - 1]);
    }
  }

  lemma EmptyIsScheduled()
    ensures Scheduled(EMPTY)
  {
  }

  /** In every reachable state skipping a sweep is harmless: whatever the clock, `maybe_cleanup` leaves
      exactly the unexpired entries, as a full sweep would. */
  lemma LazySweepIsFullSweep(ops: seq<Op>, now: Instant)
    ensures Sweep(After(ops), now).entries == Unexpired(After(ops).entries, now)
  {
    ReachableIsScheduled(ops);
    ScheduledSweep(After(ops), now);
  }

  // ----- guarantees under any clocks -----

  /** A step that runs the cleanup; these are also the steps whose answer looks the key up. */
  predicate Sweeps(op: Op) {
    op.SetOnce? || op.Claim? || op.Exists?
  }

  /** `op` ends what is stored under `key`: it deletes the key, or it sweeps with a clock that has reached
      the stored expiry. */
  predicate Ends(s: State, op: Op, key: string) {
    if op.Delete? then op.key == key
    else Sweeps(op) && key in s.entries && s.entries[key].expiresAt <= op.now
  }

  /** A step that does not end a stored key keeps it, leaves its entry alone unless it completes it, and
      reports it to a claim as what it is: never Fresh, and Pending only while it is pending. */
  lemma HeldStep(s: State, op: Op, key: string)
    requires key in s.entries && !Ends(s, op, key)
    ensures var (s', answer) := Step(s, op);
      && key in s'.entries
      && (s'.entries[key] == s.entries[key] ||
            (op.MarkCompleted? && op.key == key &&
               s'.entries[key] == Entry(EntryState.Completed, Expiry(op.now, op.ttl))))
      && (op.Claim? && op.key == key ==>
            answer == Claimed(if s.entries[key].state == EntryState.Pending then WorkClaim.Pending
                              else WorkClaim.Completed))
      && (op.SetOnce? && op.key == key ==> answer == Marked(false))
      && (op.Exists? && op.key == key ==> answer == Found(true))
  {
  }

  lemma FreshIsHeld(s: State, op: Op)
    requires op.Claim? && Step(s, op).1 == Claimed(Fresh)
    ensures op.key in Step(s, op).0.entries
  {
  }

  lemma {:induction false} HeldUntilEnded(ops: seq<Op>, i: nat, j: nat, key: string)
    requires i <= j <= |ops| && key in After(ops[..i]).entries
    requires forall k :: i <= k < j ==> !Ends(After(ops[..k]), ops[k], key)
    ensures key in After(ops[..j]).entries
    ensures After(ops[..i]).entries[key].state != EntryState.Pending ==>
            After(ops[..j]).entries[key].state != EntryState.Pending
  {
    hide Step, Ends;
    if i < j {
      HeldUntilEnded(ops, i, j - 1, key);
      assert !Ends(After(ops[..j - 1]), ops[j - 1], key);
      HeldStep(After(ops[..j - 1]), ops[j - 1], key);
      AfterExtend(ops, j - 1);
    }
  }

  /** In any run, two Fresh claims of one key are separated by a delete of that key or by a sweep whose
      clock had reached the expiry then stored for it (the second claim itself may make that sweep). */
  lemma FreshClaimsAreSeparated(ops: seq<Op>, i: nat, j: nat)
    requires i < j < |ops| && ops[i].Claim? && ops[j].Claim? && ops[i].key == ops[j].key
    requires AnswerAt(ops, i) == Claimed(Fresh) && AnswerAt(ops, j) == Claimed(Fresh)
    ensures exists k :: i < k <= j && Ends(After(ops[..k]), ops[k], ops[i].key)
  {
    hide Step, Ends;
    var key := ops[i].key;
    if forall k :: i < k <= j ==> !Ends(After(ops[..k]), ops[k], key) {
      AfterExtend(ops, i);
      FreshIsHeld(After(ops[..i]), ops[i]);
      HeldUntilEnded(ops, i + 1, j, key);
      HeldStep(After(ops[..j]), ops[j], key);
    }
  }

  /** In any run, a key once completed or marked is reported Completed to every claim until it is ended. */
  lemma CompletedStaysCompleted(ops: seq<Op>, i: nat, j: nat)
    requires i < j < |ops| && ops[j].Claim? && ops[j].key == ops[i].key
    requires ops[i].MarkCompleted? || (ops[i].SetOnce? && AnswerAt(ops, i) == Marked(true))
    requires forall k :: i < k <= j ==> !Ends(After(ops[..k]), ops[k], ops[i].key)
    ensures AnswerAt(ops, j) == Claimed(WorkClaim.Completed)
  {
    AfterExtend(ops, i);
    HeldUntilEnded(ops, i + 1, j, ops[i].key);
    HeldStep(After(ops[..j]), ops[j], ops[i].key);
  }

  // ----- how long a claim lasts -----

  /** Step `i` stores `key` at `now` with `ttl`. */
  ghost predicate StoresAt(ops: seq<Op>, i: nat, key: string, ttl: Duration, now: Instant)
    requires i < |ops|
  {
    || (ops[i] == Op.SetOnce(key, ttl, now) && AnswerAt(ops, i) == Marked(true))
    || (ops[i] == Claim(key, ttl, now) && AnswerAt(ops, i) == Claimed(Fresh))
    || ops[i] == Op.MarkCompleted(key, ttl, now)
  }

  /** Between `i` and `j` nothing deletes or completes `key`, and nothing sweeps at or past `end`. */
  predicate LeftAlone(ops: seq<Op>, i: nat, j: nat, key: string, end: nat)
    requires j <= |ops|
  {
    forall k: nat :: i < k < j ==>
      && (ops[k].Delete? || ops[k].MarkCompleted? ==> ops[k].key != key)
      && (Sweeps(ops[k]) ==> ops[k].now < end)
  }

  lemma {:induction false} EntryStays(ops: seq<Op>, i: nat, j: nat, key: string, end: nat)
    requires i < j <= |ops| && LeftAlone(ops, i, j, key, end)
    requires key in After(ops[..i + 1]).entries && After(ops[..i + 1]).entries[key].expiresAt == end
    ensures key in After(ops[..j]).entries && After(ops[..j]).entries[key] == After(ops[..i + 1]).entries[key]
  {
    hide Step;
    if j > i + 1 {
      EntryStays(ops, i, j - 1, key, end);
      HeldStep(After(ops[..j - 1]), ops[j - 1], key);
      AfterExtend(ops, j - 1);
    }
  }

  lemma StoredEntry(ops: seq<Op>, i: nat, key: string, ttl: Duration, now: Instant)
    requires i < |ops| && StoresAt(ops, i, key, ttl, now)
    ensures var state := if ops[i].SetOnce? then Marker else if ops[i].Claim? then EntryState.Pending
                         else EntryState.Completed;
      var m := After(ops[..i + 1]).entries;
      key in m && m[key] == Entry(state, Expiry(now, ttl))
  {
    hide Sweep;
    AfterExtend(ops, i);
  }

  lemma LookedUp(s: State, op: Op)
    requires Sweeps(op) && op.key in s.entries && Scheduled(s)
    ensures var entry := s.entries[op.key];
      var live := op.now < entry.expiresAt;
      Step(s, op).1 == match op
        case Exists(_, _) => Found(live)
        case SetOnce(_, _, _) => Marked(!live)
        case _ => Claimed(if !live then Fresh
                          else if entry.state == EntryState.Pending then WorkClaim.Pending else WorkClaim.Completed)
  {
  }

  /** In plain nanoseconds: what is stored at `now` is found by every claim, set-once and lookup with a
      clock before `now + ttl`, or before one second past `now` when the TTL is zero, and by none with a
      later one; a claim is told what it is. */
  lemma StoredLastsForItsTtl(ops: seq<Op>, i: nat, j: nat, key: string, ttl: Duration, now: Instant)
    requires i < j < |ops| && StoresAt(ops, i, key, ttl, now)
    requires now + (if ttl == 0 then 1_000_000_000 else ttl) < 0x8000_0000_0000_0000 * 1_000_000_000
    requires LeftAlone(ops, i, j, key, now + if ttl == 0 then 1_000_000_000 else ttl)
    requires Sweeps(ops[j]) && ops[j].key == key
    ensures var live := ops[j].now < now + if ttl == 0 then 1_000_000_000 else ttl;
      AnswerAt(ops, j) == match ops[j]
        case Exists(_, _) => Found(live)
        case SetOnce(_, _, _) => Marked(!live)
        case _ => Claimed(if !live then Fresh else if ops[i].Claim? then WorkClaim.Pending else WorkClaim.Completed)
  {
    hide Step, Expiry, LeftAlone, Scheduled;
    ExpiryIsExact(now, ttl);
    StoredEntry(ops, i, key, ttl, now);
    EntryStays(ops, i, j, key, Expiry(now, ttl));
    ReachableIsScheduled(ops[..j]);
    LookedUp(After(ops[..j]), ops[j]);
  }

  // ----- against a store that never sweeps -----

  /** The reference store: nothing is ever swept, and an entry simply no longer counts once its expiry
      has come. */
  function IdealStep(m: Entries, op: Op): (Entries, Answer) {
    match op
    case SetOnce(key, ttl, now) =>
      if Live(m, key, now) then (m, Marked(false)) else (m[key := Entry(Marker, Expiry(now, ttl))], Marked(true))
    case Claim(key, ttl, now) =>
      if !Live(m, key, now) then (m[key := Entry(EntryState.Pending, Expiry(now, ttl))], Claimed(Fresh))
      else if m[key].state == EntryState.Pending then (m, Claimed(WorkClaim.Pending))
      else (m, Claimed(WorkClaim.Completed))
    case MarkCompleted(key, ttl, now) => (m[key := Entry(EntryState.Completed, Expiry(now, ttl))], Noted)
    case Delete(key) => (m - {key}, Deleted)
    case Exists(key, now) => (m, Found(Live(m, key, now)))
  }

  function IdealAfter(ops: seq<Op>): Entries {
    if ops == [] then map[] else IdealStep(IdealAfter(ops[..|ops| - 1]), ops[|ops| - 1]).0
  }

  function IdealAnswerAt(ops: seq<Op>, j: nat): Answer
    requires j < |ops|
  {
    IdealStep(IdealAfter(ops[..j]), ops[j]).1
  }

  predicate Monotone(ops: seq<Op>) {
    forall i, j :: 0 <= i < j < |ops| && !ops[i].Delete? && !ops[j].Delete? ==> ops[i].now <= ops[j].now
  }

  lemma ScheduledSweep(s: State, now: Instant)
    requires Scheduled(s)
    ensures Sweep(s, now).entries == Unexpired(s.entries, now)
  {
  }

  /** In the reference store `m`, `op` stores or deletes `key`. */
  predicate Rewrites(m: Entries, op: Op, key: string) {
    op.key == key && (op.MarkCompleted? || op.Delete? || (!op.Exists? && !Live(m, key, op.now)))
  }

  /** What the reference holds under `key` before step `n` had expired by the clock of the sweeping
      step `i`, and was not written again since that sweep. */
  predicate SweptAt(ops: seq<Op>, i: nat, n: nat, key: string)
    requires n <= |ops|
  {
    && i < n
    && Sweeps(ops[i])
    && key in IdealAfter(ops[..n])
    && IdealAfter(ops[..n])[key].expiresAt <= ops[i].now
    && forall m :: i <= m < n ==> !Rewrites(IdealAfter(ops[..m]), ops[m], key)
  }

  predicate Lost(ops: seq<Op>, n: nat, key: string)
    requires n <= |ops|
  {
    exists i: nat :: i < n && SweptAt(ops, i, n, key)
  }

  /** Step `j` looks for an entry that its own clock still counts and an earlier step, with a later
      clock, has swept. */
  predicate Misses(ops: seq<Op>, j: nat)
    requires j < |ops|
  {
    && Sweeps(ops[j])
    && Lost(ops, j, ops[j].key)
    && Live(IdealAfter(ops[..j]), ops[j].key, ops[j].now)
  }

  /** The store holds the entries of `m` whose keys are not lost. */
  ghost predicate Mirrors(entries: Entries, m: Entries, lost: string -> bool) {
    forall k :: (k in entries <==> k in m && !lost(k)) && (k in entries ==> entries[k] == m[k])
  }

  /** `key` is lost after the step `op`, when `lost` says whether it was before. */
  predicate LostAfter(m: Entries, op: Op, key: string, lost: bool) {
    && key in m
    && !Rewrites(m, op, key)
    && (lost || (Sweeps(op) && m[key].expiresAt <= op.now))
  }

  lemma IdealExtend(ops: seq<Op>, n: nat, key: string)
    requires n < |ops|
    ensures IdealAfter(ops[..n + 1]) == IdealStep(IdealAfter(ops[..n]), ops[n]).0
    ensures var m, m' := IdealAfter(ops[..n]), IdealAfter(ops[..n + 1]);
      !Rewrites(m, ops[n], key) ==> (key in m' <==> key in m) && (key in m ==> m'[key] == m[key])
  {
    assert ops[..n + 1][..n] == ops[..n];
  }

  lemma LostExtend(ops: seq<Op>, n: nat, key: string)
    requires n < |ops|
    ensures Lost(ops, n + 1, key) <==> LostAfter(IdealAfter(ops[..n]), ops[n], key, Lost(ops, n, key))
  {
    hide IdealAfter, IdealStep, Rewrites, Sweeps;
    IdealExtend(ops, n, key);
    if Lost(ops, n + 1, key) {
      var i: nat :| i < n + 1 && SweptAt(ops, i, n + 1, key);
      assert !Rewrites(IdealAfter(ops[..n]), ops[n], key);
      if i < n {
        assert SweptAt(ops, i, n, key);
      }
    }
    if LostAfter(IdealAfter(ops[..n]), ops[n], key, Lost(ops, n, key)) {
      var i: nat := n;
      if Lost(ops, n, key) {
        i :| i < n && SweptAt(ops, i, n, key);
      }
      assert SweptAt(ops, i, n + 1, key);
    }
  }

  /** One step: with nothing lost that its clock still counts the answers agree and the store goes on
      mirroring the reference; otherwise the answers differ. */
  lemma MirrorStep(s: State, m: Entries, op: Op, lost: string -> bool)
    requires Scheduled(s) && Mirrors(s.entries, m, lost)
    ensures var missed := Sweeps(op) && lost(op.key) && Live(m, op.key, op.now);
      && (Step(s, op).1 == IdealStep(m, op).1 <==> !missed)
      && (!missed ==> Mirrors(Step(s, op).0.entries, IdealStep(m, op).0, k => LostAfter(m, op, k, lost(k))))
  {
    hide Sweep, Scheduled, Expiry;
    if Sweeps(op) {
      ScheduledSweep(s, op.now);
    }
  }

  /** As long as the answers agree, the store holds the reference's entries but for the lost ones. */
  lemma {:induction false} MirrorsReference(ops: seq<Op>, n: nat)
    requires n <= |ops| && forall j: nat :: j < n ==> AnswerAt(ops, j) == IdealAnswerAt(ops, j)
    ensures Mirrors(After(ops[..n]).entries, IdealAfter(ops[..n]), k => Lost(ops, n, k))
  {
    hide Step, IdealStep, Lost, LostAfter, Scheduled;
    if n == 0 {
      assert ops[..0] == [];
    } else {
      MirrorsReference(ops, n - 1);
      assert AnswerAt(ops, n - 1) == IdealAnswerAt(ops, n - 1);
      ReachableIsScheduled(ops[..n - 1]);
      MirrorStep(After(ops[..n - 1]), IdealAfter(ops[..n - 1]), ops[n - 1], k => Lost(ops, n - 1, k));
      AfterExtend(ops, n - 1);
      forall k
        ensures Lost(ops, n, k) <==> LostAfter(IdealAfter(ops[..n - 1]), ops[n - 1], k, Lost(ops, n - 1, k))
      {
        LostExtend(ops, n - 1, k);
      }
      IdealExtend(ops, n - 1, "");
    }
  }

  /** The first answer that differs from the reference is the one of the first step that misses. */
  lemma FirstDifference(ops: seq<Op>, j: nat)
    requires j < |ops| && forall i: nat :: i < j ==> AnswerAt(ops, i) == IdealAnswerAt(ops, i)
    ensures AnswerAt(ops, j) == IdealAnswerAt(ops, j) <==> !Misses(ops, j)
  {
    hide Step, IdealStep, Lost, Scheduled, Mirrors;
    MirrorsReference(ops, j);
    ReachableIsScheduled(ops[..j]);
    MirrorStep(After(ops[..j]), IdealAfter(ops[..j]), ops[j], k => Lost(ops, j, k));
  }

  lemma {:induction false} AgreesBefore(ops: seq<Op>, n: nat)
    requires n <= |ops| && forall j: nat :: j < n ==> !Misses(ops, j)
    ensures forall j: nat :: j < n ==> AnswerAt(ops, j) == IdealAnswerAt(ops, j)
  {
    hide Misses, AnswerAt, IdealAnswerAt;
    if n > 0 {
      AgreesBefore(ops, n - 1);
      FirstDifference(ops, n - 1);
    }
  }

  /** Whatever the clocks, the lazily swept store answers every operation of a run as if each entry
      vanished at its expiry exactly when no step misses an entry swept under a later clock. */
  lemma AnswersLikeIdealIff(ops: seq<Op>)
    ensures (forall j: nat :: j < |ops| ==> AnswerAt(ops, j) == IdealAnswerAt(ops, j))
              <==> forall j: nat :: j < |ops| ==> !Misses(ops, j)
  {
    hide Misses, AnswerAt, IdealAnswerAt;
    if forall j: nat :: j < |ops| ==> AnswerAt(ops, j) == IdealAnswerAt(ops, j) {
      forall j: nat | j < |ops|
        ensures !Misses(ops, j)
      {
        FirstDifference(ops, j);
      }
    }
    if forall j: nat :: j < |ops| ==> !Misses(ops, j) {
      AgreesBefore(ops, |ops|);
    }
  }

  /** A clock that never runs backwards misses nothing. */
  lemma AnswersLikeIdeal(ops: seq<Op>, j: nat)
    requires Monotone(ops) && j < |ops|
    ensures AnswerAt(ops, j) == IdealAnswerAt(ops, j)
  {
    hide AnswerAt, IdealAnswerAt;
    AnswersLikeIdealIff(ops);
  }

  /** The shortest run that shows it: after a claim at `t0` and a lookup at `t1`, the second claim of the
      key is answered as the reference would exactly unless the lookup has swept an entry that `t2`
      still expects to find. */
  lemma BackwardClockMatters(key: string, other: string, ttl: Duration, t0: Instant, t1: Instant, t2: Instant)
    ensures var ops := [Claim(key, ttl, t0), Exists(other, t1), Claim(key, ttl, t2)];
      AnswerAt(ops, 2) == IdealAnswerAt(ops, 2) <==> !(t2 < Expiry(t0, ttl) <= t1)
  {
    hide Expiry, AnswerAt, IdealAnswerAt;
    var ops := [Claim(key, ttl, t0), Exists(other, t1), Claim(key, ttl, t2)];
    IdealExtend(ops, 0, key);
    IdealExtend(ops, 1, key);
    assert ops[..0] == [];
    assert Rewrites(IdealAfter(ops[..0]), ops[0], key);
    assert !SweptAt(ops, 0, 1, key) && !SweptAt(ops, 0, 2, key);
    AgreesBefore(ops, 2);
    FirstDifference(ops, 2);
    assert Misses(ops, 2) <==> SweptAt(ops, 1, 2, key) && t2 < Expiry(t0, ttl);
  }
}
