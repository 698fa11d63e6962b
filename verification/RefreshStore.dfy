// The in-memory refresh-token store: one locked map, every operation one atomic step on it.
module RefreshStore {
  import opened Wrappers
  import opened Text
  import opened Clock
  import opened Decimal

  datatype StoreError = InvalidToken | InvalidSessionField | InvalidStoredSession | InvalidSchemaConfig | Backend

  datatype Session = Session(subjectId: string, sessionId: string, issuedAtUnixSecs: I64, sessionVersion: U64)

  predicate ValidSessionField(value: string) {
    value != "" && Utf8Length(value) <= 256 && forall c :: c in value ==> !IsControl(c) && !IsWhitespace(c)
  }

  /** Exactly these fields are accepted: 1 to 256 bytes without control characters or white space. */
  lemma SessionFieldIff(value: string)
    ensures ValidSessionField(value) <==>
            && 1 <= |EncodeUtf8(value)| <= 256
            && forall i :: 0 <= i < |value| ==> PlainChar(value[i])
  {
    hide IsControl, IsWhitespace, PlainChar;
    Utf8LengthCountsBytes(value);
    forall i | 0 <= i < |value|
      ensures PlainChar(value[i]) <==> !IsControl(value[i]) && !IsWhitespace(value[i])
    {
      PlainCharIff(value[i]);
    }
    assert value != "" ==> value[0] in value;
  }

  /** A session that `RefreshSession::new` would build. */
  predicate ValidSession(s: Session) {
    ValidSessionField(s.subjectId) && ValidSessionField(s.sessionId)
  }

  function NewSession(subjectId: string, sessionId: string, issuedAt: I64, version: U64): Result<Session, StoreError> {
    if ValidSessionField(subjectId) && ValidSessionField(sessionId)
    then Ok(Session(subjectId, sessionId, issuedAt, version))
    else Err(InvalidSessionField)
  }

  /** Tokens are URL-safe: 1 to 1024 letters, digits, `-` and `_`. */
  predicate ValidToken(token: string) {
    0 < |token| <= 1024 && forall c :: c in token ==> IsAsciiAlphanumeric(c) || c == '-' || c == '_'
  }

  /** Exactly the operations on tokens of 1 to 1024 letters, digits, dashes and underscores get through. */
  predicate UrlSafe(token: string) {
    && 1 <= |token| <= 1024
    && forall i :: 0 <= i < |token| ==>
         'a' <= token[i] <= 'z' || 'A' <= token[i] <= 'Z' || '0' <= token[i] <= '9' ||
         token[i] == '-' || token[i] == '_'
  }

  lemma TokenIff(token: string)
    ensures ValidToken(token) <==> UrlSafe(token)
  {
    assert (forall c :: c in token ==> IsAsciiAlphanumeric(c) || c == '-' || c == '_') <==>
           (forall i :: 0 <= i < |token| ==> IsAsciiAlphanumeric(token[i]) || token[i] == '-' || token[i] == '_');
  }

  /** SHA-256 of a token, taken to be injective: the token itself, wrapped. */
  datatype Digest = Sha256(token: string)

  /** The store's own namespace, key prefix and key version, followed by the token digest. */
  datatype StoreKey = StoreKey(scope: string, digest: Digest)

  function KeyFor(scope: string, token: string): Result<StoreKey, StoreError> {
    if ValidToken(token) then Ok(StoreKey(scope, Sha256(token))) else Err(InvalidToken)
  }

  datatype Entry = Entry(session: Session, expiresAt: Instant)

  type Entries = map<StoreKey, Entry>

  // ----- one step on the locked map -----

  datatype Op =
    | Set(token: string, session: Session, ttl: Duration, now: Instant)
    | Get(token: string, now: Instant)
    | Rotate(oldToken: string, newToken: string, current: Session, next: Session, ttl: Duration, now: Instant)
    | Delete(token: string)

  datatype Answer =
    Stored | Loaded(session: Option<Session>) | Rotated(won: bool) | Deleted | Rejected(error: StoreError)

  function GetStep(m: Entries, key: StoreKey, now: Instant): (Entries, Answer) {
    if key !in m then (m, Loaded(None))
    else if m[key].expiresAt <= now then (m - {key}, Loaded(None))
    else (m, Loaded(Some(m[key].session)))
  }

  function RotateStep(m: Entries, oldKey: StoreKey, newKey: StoreKey, current: Session, next: Session,
                      ttl: Duration, now: Instant):
    (Entries, Answer)
  {
    if oldKey == newKey || oldKey !in m then (m, Rotated(false))
    else if m[oldKey].expiresAt <= now then (m - {oldKey}, Rotated(false))
    else if newKey in m && m[newKey].expiresAt > now then (m, Rotated(false))
    else
      var swept := m - {newKey};
      if m[oldKey].session != current then (swept, Rotated(false))
      else ((swept - {oldKey})[newKey := Entry(next, Expiry(now, ttl))], Rotated(true))
  }

  function Step(scope: string, m: Entries, op: Op): (Entries, Answer) {
    match op
    case Set(token, session, ttl, now) =>
      (match KeyFor(scope, token)
       case Err(error) => (m, Rejected(error))
       case Ok(key) => (m[key := Entry(session, Expiry(now, ttl))], Stored))
    case Get(token, now) =>
      (match KeyFor(scope, token)
       case Err(error) => (m, Rejected(error))
       case Ok(key) => GetStep(m, key, now))
    case Rotate(oldToken, newToken, current, next, ttl, now) =>
      (match (KeyFor(scope, oldToken), KeyFor(scope, newToken))
       case (Ok(oldKey), Ok(newKey)) => RotateStep(m, oldKey, newKey, current, next, ttl, now)
       case _ => (m, Rejected(InvalidToken)))
    case Delete(token) =>
      (match KeyFor(scope, token)
       case Err(error) => (m, Rejected(error))
       case Ok(key) => (m - {key}, Deleted))
  }

  function Tokens(op: Op): seq<string> {
    match op
    case Rotate(oldToken, newToken, _, _, _, _) => [oldToken, newToken]
    case _ => [op.token]
  }

  /** An operation is rejected exactly when one of its tokens is not URL-safe, and then changes nothing. */
  lemma RejectedIff(scope: string, m: Entries, op: Op)
    ensures Step(scope, m, op).1.Rejected? <==> exists token :: token in Tokens(op) && !UrlSafe(token)
    ensures Step(scope, m, op).1.Rejected? ==> Step(scope, m, op) == (m, Rejected(InvalidToken))
  {
    hide ValidToken, UrlSafe;
    forall token | token in Tokens(op)
      ensures ValidToken(token) <==> UrlSafe(token)
    {
      TokenIff(token);
    }
    match op
    case Rotate(oldToken, newToken, _, _, _, _) => assert oldToken in Tokens(op) && newToken in Tokens(op);
    case _ => assert op.token in Tokens(op);
  }

  /** Different tokens, and different stores, use different keys. */
  lemma KeysDiffer(scope1: string, token1: string, scope2: string, token2: string)
    requires KeyFor(scope1, token1).Ok? && KeyFor(scope1, token1) == KeyFor(scope2, token2)
    ensures scope1 == scope2 && token1 == token2
  {
  }

  /** The store object; each method body is what runs while the lock is held. */
  class InMemoryRefreshStore {
    const scope: string
    var entries: Entries

    constructor (scope: string)
      ensures this.scope == scope && entries == map[]
    {
      this.scope := scope;
      entries := map[];
    }

    method Set(token: string, session: Session, ttl: Duration, now: Instant) returns (r: Result<(), StoreError>)
      modifies this
      ensures (entries, match r case Ok(_) => Stored case Err(e) => Rejected(e))
           == Step(scope, old(entries), Op.Set(token, session, ttl, now))
    {
      var key := KeyFor(scope, token);
      if key.Err? { return Err(key.error); }
      var expiresAt := InstantSaturatingAdd(now, TtlDuration(ttl));
      entries := entries[key.value := Entry(session, expiresAt)];
      return Ok(());
    }

    method Get(token: string, now: Instant) returns (r: Result<Option<Session>, StoreError>)
      modifies this
      ensures (entries, match r case Ok(s) => Loaded(s) case Err(e) => Rejected(e))
           == Step(scope, old(entries), Op.Get(token, now))
    {
      var key := KeyFor(scope, token);
      if key.Err? { return Err(key.error); }
      if key.value !in entries { return Ok(None); }
      var entry := entries[key.value];
      if entry.expiresAt <= now {
        entries := entries - {key.value};
        return Ok(None);
      }
      return Ok(Some(entry.session));
    }

    method Rotate(oldToken: string, newToken: string, current: Session, next: Session, ttl: Duration, now: Instant)
      returns (r: Result<bool, StoreError>)
      modifies this
      ensures (entries, match r case Ok(won) => Rotated(won) case Err(e) => Rejected(e))
           == Step(scope, old(entries), Op.Rotate(oldToken, newToken, current, next, ttl, now))
    {
      var oldKey := KeyFor(scope, oldToken);
      if oldKey.Err? { return Err(oldKey.error); }
      var newKey := KeyFor(scope, newToken);
      if newKey.Err? { return Err(newKey.error); }
      if oldKey.value == newKey.value { return Ok(false); }
      var expiresAt := InstantSaturatingAdd(now, TtlDuration(ttl));
      if oldKey.value !in entries { return Ok(false); }
      var oldEntry := entries[oldKey.value];
      if oldEntry.expiresAt <= now {
        entries := entries - {oldKey.value};
        return Ok(false);
      }
      if newKey.value in entries {
        if entries[newKey.value].expiresAt > now { return Ok(false); }
        entries := entries - {newKey.value};
      }
      assert entries == old(entries) - {newKey.value};
      if oldEntry.session != current { return Ok(false); }
      entries := entries - {oldKey.value};
      entries := entries[newKey.value := Entry(next, expiresAt)];
      return Ok(true);
    }

    method Delete(token: string) returns (r: Result<(), StoreError>)
      modifies this
      ensures (entries, match r case Ok(_) => Deleted case Err(e) => Rejected(e))
           == Step(scope, old(entries), Op.Delete(token))
    {
      var key := KeyFor(scope, token);
      if key.Err? { return Err(key.error); }
      entries := entries - {key.value};
      return Ok(());
    }
  }

  // ----- runs: any interleaving of atomic steps, with whatever clock value each caller read -----

  function After(scope: string, m: Entries, ops: seq<Op>): Entries {
    if ops == [] then m else Step(scope, After(scope, m, ops[..|ops| - 1]), ops[|ops| - 1]).0
  }

  function AnswerAt(scope: string, m: Entries, ops: seq<Op>, j: nat): Answer
    requires j < |ops|
  {
    Step(scope, After(scope, m, ops[..j]), ops[j]).1
  }

  lemma AfterExtend(scope: string, m: Entries, ops: seq<Op>, j: nat)
    requires j < |ops|
    ensures After(scope, m, ops[..j + 1]) == Step(scope, After(scope, m, ops[..j]), ops[j]).0
  {
    assert ops[..j + 1][..j] == ops[..j];
  }

  /** Operation `op`, answered with `answer`, stores a session under `token`. */
  predicate Stores(op: Op, answer: Answer, token: string) {
    || (op.Set? && op.token == token)
    || (op.Rotate? && op.newToken == token && answer == Rotated(true))
  }

  predicate Installs(scope: string, m: Entries, ops: seq<Op>, j: nat, token: string)
    requires j < |ops|
  {
    Stores(ops[j], AnswerAt(scope, m, ops, j), token)
  }

  lemma StepKeepsAbsent(scope: string, m: Entries, op: Op, token: string)
    requires StoreKey(scope, Sha256(token)) !in m && !Stores(op, Step(scope, m, op).1, token)
    ensures StoreKey(scope, Sha256(token)) !in Step(scope, m, op).0
  {
  }

  lemma {:induction false} AbsentUntilInstalled(scope: string, m: Entries, ops: seq<Op>, i: nat, j: nat, token: string)
    requires i <= j <= |ops|
    requires StoreKey(scope, Sha256(token)) !in After(scope, m, ops[..i])
    requires forall k :: i <= k < j ==> !Installs(scope, m, ops, k, token)
    ensures StoreKey(scope, Sha256(token)) !in After(scope, m, ops[..j])
  {
    hide Step, Stores;
    if i < j {
      AbsentUntilInstalled(scope, m, ops, i, j - 1, token);
      assert !Installs(scope, m, ops, j - 1, token);
      StepKeepsAbsent(scope, After(scope, m, ops[..j - 1]), ops[j - 1], token);
      AfterExtend(scope, m, ops, j - 1);
    }
  }

  /** A token that was rotated away neither loads nor rotates until some step installs it again. */
  lemma RotatedAwayStaysDead(scope: string, m: Entries, ops: seq<Op>, i: nat, j: nat)
    requires i < j < |ops|
    requires ops[i].Rotate? && AnswerAt(scope, m, ops, i) == Rotated(true)
    requires forall k :: i < k < j ==> !Installs(scope, m, ops, k, ops[i].oldToken)
    ensures ops[j].Get? && ops[j].token == ops[i].oldToken ==> AnswerAt(scope, m, ops, j) == Loaded(None)
    ensures ops[j].Rotate? && ops[j].oldToken == ops[i].oldToken ==> AnswerAt(scope, m, ops, j) != Rotated(true)
  {
    AfterExtend(scope, m, ops, i);
    AbsentUntilInstalled(scope, m, ops, i + 1, j, ops[i].oldToken);
  }

  /** Neither does a deleted one. */
  lemma DeletedStaysDead(scope: string, m: Entries, ops: seq<Op>, i: nat, j: nat)
    requires i < j < |ops|
    requires ops[i].Delete? && AnswerAt(scope, m, ops, i) == Deleted
    requires forall k :: i < k < j ==> !Installs(scope, m, ops, k, ops[i].token)
    ensures ops[j].Get? && ops[j].token == ops[i].token ==> AnswerAt(scope, m, ops, j) == Loaded(None)
    ensures ops[j].Rotate? && ops[j].oldToken == ops[i].token ==> AnswerAt(scope, m, ops, j) != Rotated(true)
  {
    AfterExtend(scope, m, ops, i);
    AbsentUntilInstalled(scope, m, ops, i + 1, j, ops[i].token);
  }

  /** Of any two winning rotations of one token, some step in between installed the token anew. */
  lemma AtMostOneWinner(scope: string, m: Entries, ops: seq<Op>, i: nat, j: nat)
    requires i < j < |ops|
    requires ops[i].Rotate? && ops[j].Rotate? && ops[i].oldToken == ops[j].oldToken
    requires AnswerAt(scope, m, ops, i) == Rotated(true) && AnswerAt(scope, m, ops, j) == Rotated(true)
    ensures exists k :: i < k < j && Installs(scope, m, ops, k, ops[i].oldToken)
  {
    hide Step, Stores;
    if forall k :: i < k < j ==> !Installs(scope, m, ops, k, ops[i].oldToken) {
      RotatedAwayStaysDead(scope, m, ops, i, j);
    }
  }

  // ----- conservation -----

  ghost function LiveKeys(m: Entries, now: Instant): set<StoreKey> {
    set k | k in m && m[k].expiresAt > now
  }

  /** A rotation never changes the number of entries live at its own time: winning, it trades the old
      key for the new one; losing, it drops expired entries at most. No clock headroom is needed, since
      a winning rotation has found an entry that outlives `now`. */
  lemma RotateKeepsLiveCount(scope: string, m: Entries, op: Op)
    requires op.Rotate?
    ensures var (m', answer) := Step(scope, m, op);
      && |LiveKeys(m', op.now)| == |LiveKeys(m, op.now)|
      && (answer != Rotated(true) ==> LiveKeys(m', op.now) == LiveKeys(m, op.now))
  {
    hide RotateStep, ValidToken;
    if ValidToken(op.oldToken) && ValidToken(op.newToken) {
      RotateStepKeepsLive(m, StoreKey(scope, Sha256(op.oldToken)), StoreKey(scope, Sha256(op.newToken)),
                          op.current, op.next, op.ttl, op.now);
    }
  }

  lemma RotateStepKeepsLive(m: Entries, oldKey: StoreKey, newKey: StoreKey, current: Session, next: Session,
                            ttl: Duration, now: Instant)
    ensures var (m', answer) := RotateStep(m, oldKey, newKey, current, next, ttl, now);
      && |LiveKeys(m', now)| == |LiveKeys(m, now)|
      && (answer != Rotated(true) ==> LiveKeys(m', now) == LiveKeys(m, now))
  {
    hide SaturatingAdd, TtlDuration;
    var (m', answer) := RotateStep(m, oldKey, newKey, current, next, ttl, now);
    var live, live' := LiveKeys(m, now), LiveKeys(m', now);
    if answer == Rotated(true) {
      assert live' == (live - {oldKey}) + {newKey};
      assert oldKey in live && newKey !in live;
    } else {
      assert live' == live;
    }
  }

  // ----- a winning rotation hands the session over -----

  /** A rotation wins exactly when the two tokens are valid and different, the old one is live with the
      expected session, and the new one is not live. */
  lemma RotateWinsIff(scope: string, m: Entries, op: Op)
    requires op.Rotate?
    ensures Step(scope, m, op).1 == Rotated(true) <==>
              && ValidToken(op.oldToken) && ValidToken(op.newToken) && op.oldToken != op.newToken
              && Step(scope, m, Get(op.oldToken, op.now)).1 == Loaded(Some(op.current))
              && Step(scope, m, Get(op.newToken, op.now)).1 == Loaded(None)
  {
  }

  /** What is installed under a token loads until its expiry, through any steps on other tokens. */
  lemma InstalledLoads(scope: string, m: Entries, ops: seq<Op>, i: nat, j: nat, token: string, session: Session,
                       ttl: Duration, now: Instant)
    requires i < j < |ops| && ops[j].Get? && ops[j].token == token
    requires
      || (ops[i] == Set(token, session, ttl, now) && ValidToken(token))
      || (ops[i].Rotate? && ops[i].newToken == token && ops[i].next == session &&
          ops[i].ttl == ttl && ops[i].now == now &&
          AnswerAt(scope, m, ops, i) == Rotated(true))
    requires forall k :: i < k < j ==> !Touches(ops[k], token)
    ensures AnswerAt(scope, m, ops, j) == Loaded(if ops[j].now < Expiry(now, ttl) then Some(session) else None)
  {
    AfterExtend(scope, m, ops, i);
    UntouchedKeeps(scope, m, ops, i + 1, j, token);
  }

  /** In plain nanoseconds: an installed session loads at clocks before `now + ttl`, or before one second
      past `now` when the TTL is zero, and at no later one. */
  lemma InstalledLoadsForItsTtl(scope: string, m: Entries, ops: seq<Op>, i: nat, j: nat, token: string,
                                session: Session, ttl: Duration, now: Instant)
    requires i < j < |ops| && ops[j].Get? && ops[j].token == token
    requires
      || (ops[i] == Set(token, session, ttl, now) && ValidToken(token))
      || (ops[i].Rotate? && ops[i].newToken == token && ops[i].next == session &&
          ops[i].ttl == ttl && ops[i].now == now &&
          AnswerAt(scope, m, ops, i) == Rotated(true))
    requires forall k :: i < k < j ==> !Touches(ops[k], token)
    requires now + (if ttl == 0 then 1_000_000_000 else ttl) < 0x8000_0000_0000_0000 * 1_000_000_000
    ensures AnswerAt(scope, m, ops, j)
         == Loaded(if ops[j].now < now + (if ttl == 0 then 1_000_000_000 else ttl) then Some(session) else None)
  {
    hide AnswerAt, Touches, Expiry;
    ExpiryIsExact(now, ttl);
    InstalledLoads(scope, m, ops, i, j, token, session, ttl, now);
  }

  predicate Touches(op: Op, token: string) {
    match op
    case Rotate(oldToken, newToken, _, _, _, _) => token == oldToken || token == newToken
    case _ => op.token == token
  }

  predicate SameUnder(m: Entries, m': Entries, key: StoreKey) {
    (key in m <==> key in m') && (key in m ==> m[key] == m'[key])
  }

  lemma StepKeepsUntouched(scope: string, m: Entries, op: Op, token: string)
    requires !Touches(op, token)
    ensures SameUnder(m, Step(scope, m, op).0, StoreKey(scope, Sha256(token)))
  {
  }

  lemma {:induction false} UntouchedKeeps(scope: string, m: Entries, ops: seq<Op>, i: nat, j: nat, token: string)
    requires i <= j <= |ops|
    requires forall k :: i <= k < j ==> !Touches(ops[k], token)
    ensures SameUnder(After(scope, m, ops[..i]), After(scope, m, ops[..j]), StoreKey(scope, Sha256(token)))
  {
    hide Step, Touches;
    if i < j {
      UntouchedKeeps(scope, m, ops, i, j - 1, token);
      assert !Touches(ops[j - 1], token);
      StepKeepsUntouched(scope, After(scope, m, ops[..j - 1]), ops[j - 1], token);
      AfterExtend(scope, m, ops, j - 1);
    }
  }
}
