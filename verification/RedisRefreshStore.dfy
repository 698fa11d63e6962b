// The Redis refresh-token store over a keyspace of hashes with expiry, and exactly when it answers a run
// of one shared clock as the in-memory store does.
module RedisRefreshStore {
  import opened Wrappers
  import opened Text
  import opened Clock
  import opened Decimal
  import opened RefreshStore
  import opened RedisExpiry

  // ----- the commands the store sends -----

  /** A stored hash. Redis never keeps an empty one, and a key without an EXPIRE lives on. */
  datatype RedisHash = RedisHash(fields: map<string, string>, expireAt: Option<nat>)

  type Keyspace = map<StoreKey, RedisHash>

  predicate Alive(hash: RedisHash, now: nat) {
    hash.expireAt.Some? ==> hash.expireAt.value > now
  }

  /** What the server still holds at `now`. */
  function Live(ks: Keyspace, now: nat): Keyspace {
    map k | k in ks && Alive(ks[k], now) :: ks[k]
  }

  predicate Exists(ks: Keyspace, key: StoreKey) {
    key in ks
  }

  function HGet(ks: Keyspace, key: StoreKey, field: string): Option<string> {
    if key in ks && field in ks[key].fields then Some(ks[key].fields[field]) else None
  }

  function HSet(ks: Keyspace, key: StoreKey, field: string, value: string): Keyspace {
    var hash := if key in ks then ks[key] else RedisHash(map[], None);
    ks[key := hash.(fields := hash.fields[field := value])]
  }

  predicate AcceptsSeconds(now: nat, seconds: nat) {
    ExpireAccepted(now / 1_000_000, seconds * 1000)
  }

  /** A refused EXPIRE leaves whatever expiry the key has. */
  function Expire(ks: Keyspace, key: StoreKey, now: nat, seconds: nat): Keyspace {
    if key in ks && AcceptsSeconds(now, seconds)
    then ks[key := ks[key].(expireAt := Some(now + seconds * NANOS_PER_SEC))]
    else ks
  }

  /** The script's `tonumber`: a 64-bit float, exact up to 2^53 and even from there to 2^54, with ties
      going to the multiples of four. Counts beyond that are refused rounded or not. */
  function ToNumber(n: nat): nat {
    if n <= 0x20_0000_0000_0000 || n > 0x40_0000_0000_0000 || n % 2 == 0 then n
    else if n % 4 == 1 then n - 1 else n + 1
  }

  // ----- the session schema -----

  datatype SessionFields = SessionFields(subjectId: string, sessionId: string, issuedAt: string, version: string)

  function FieldList(config: SessionFields): seq<string> {
    [config.subjectId, config.sessionId, config.issuedAt, config.version]
  }

  predicate Distinct(config: SessionFields) {
    forall i, j :: 0 <= i < j < 4 ==> FieldList(config)[i] != FieldList(config)[j]
  }

  /** The construction-time check that no field name repeats an earlier one. */
  method ValidateDistinctSessionFields(config: SessionFields) returns (r: Result<(), StoreError>)
    ensures r == if Distinct(config) then Ok(()) else Err(InvalidSchemaConfig)
  {
    var fields := FieldList(config);
    for index := 0 to |fields|
      invariant forall i, j :: 0 <= i < j < index ==> fields[i] != fields[j]
    {
      if fields[index] in fields[..index] {
        return Err(InvalidSchemaConfig);
      }
    }
    return Ok(());
  }

  /** The HSET of all four session fields, written in the order the command lists them. */
  function HSetSession(ks: Keyspace, key: StoreKey, config: SessionFields, s: Session): Keyspace {
    HSet(HSet(HSet(HSet(ks,
      key, config.subjectId, s.subjectId),
      key, config.sessionId, s.sessionId),
      key, config.issuedAt, IntToString(s.issuedAtUnixSecs)),
      key, config.version, NatToString(s.sessionVersion))
  }

  function EncodeSession(config: SessionFields, s: Session): map<string, string> {
    map[][config.subjectId := s.subjectId]
         [config.sessionId := s.sessionId]
         [config.issuedAt := IntToString(s.issuedAtUnixSecs)]
         [config.version := NatToString(s.sessionVersion)]
  }

  function ParseSessionHash(fields: map<string, string>, config: SessionFields): Result<Session, StoreError> {
    if config.subjectId !in fields || config.sessionId !in fields || config.issuedAt !in fields then
      Err(InvalidStoredSession)
    else
      match ParseI64(fields[config.issuedAt])
      case None => Err(InvalidStoredSession)
      case Some(issuedAt) =>
        if config.version !in fields then Err(InvalidStoredSession)
        else
          match ParseU64(fields[config.version])
          case None => Err(InvalidStoredSession)
          case Some(version) => NewSession(fields[config.subjectId], fields[config.sessionId], issuedAt, version)
  }

  /** A hash is read as a session exactly when it has all four fields, the two numbers parse and the two
      names are valid; then as what the fields say. */
  lemma ParseSessionIff(fields: map<string, string>, config: SessionFields, s: Session)
    ensures ParseSessionHash(fields, config) == Ok(s) <==>
            && config.subjectId in fields && config.sessionId in fields
            && config.issuedAt in fields && config.version in fields
            && fields[config.subjectId] == s.subjectId && fields[config.sessionId] == s.sessionId
            && ParseI64(fields[config.issuedAt]) == Some(s.issuedAtUnixSecs)
            && ParseU64(fields[config.version]) == Some(s.sessionVersion)
            && ValidSession(s)
  {
  }

  /** A stored session reads back as itself when the four field names are distinct. */
  lemma SessionRoundTrip(config: SessionFields, s: Session)
    requires Distinct(config) && ValidSession(s)
    ensures ParseSessionHash(EncodeSession(config, s), config) == Ok(s)
  {
    DistinctNames(config);
    ParsePrintedI64(s.issuedAtUnixSecs);
    ParsePrintedU64(s.sessionVersion);
  }

  lemma DistinctNames(config: SessionFields)
    ensures Distinct(config) <==>
              && config.subjectId != config.sessionId && config.subjectId != config.issuedAt
              && config.subjectId != config.version && config.sessionId != config.issuedAt
              && config.sessionId != config.version && config.issuedAt != config.version
  {
    var f := FieldList(config);
    assert f[0] == config.subjectId && f[1] == config.sessionId && f[2] == config.issuedAt && f[3] == config.version;
  }

  /** Exactly the distinct schemas store every valid session faithfully: this witness has four
      different printed fields, so two names that coincide lose one of them. */
  lemma RoundTripNeedsDistinctFields(config: SessionFields)
    ensures Distinct(config) <==>
              forall s :: ValidSession(s) ==> ParseSessionHash(EncodeSession(config, s), config) == Ok(s)
  {
    if Distinct(config) {
      forall s | ValidSession(s)
        ensures ParseSessionHash(EncodeSession(config, s), config) == Ok(s)
      {
        SessionRoundTrip(config, s);
      }
    } else {
      DistinctNames(config);
      var s := Session("a", "b", 1, 2);
      assert IntToString(1) == "1" && NatToString(2) == "2";
      assert ValidSession(s);
      var parsed := ParseSessionHash(EncodeSession(config, s), config);
      if parsed == Ok(s) {
        ParsedTwo();
      }
    }
  }

  lemma ParsedTwo()
    ensures ParseI64("2") == Some(2)
  {
    assert ParseDigits("2") == Some(2);
  }

  // ----- one command round trip -----

  /** The rotation script, line by line. An EXPIRE that is refused comes after the DEL and the HSET. */
  function RotateScript(ks: Keyspace, oldKey: StoreKey, newKey: StoreKey, config: SessionFields,
                        current: Session, next: Session, ttl: Duration, now: nat): (Keyspace, Answer)
  {
    if !Exists(ks, oldKey) then (ks, Rotated(false))
    else if Exists(ks, newKey) then (ks, Rotated(false))
    else if HGet(ks, oldKey, config.subjectId) != Some(current.subjectId) then (ks, Rotated(false))
    else if HGet(ks, oldKey, config.sessionId) != Some(current.sessionId) then (ks, Rotated(false))
    else if HGet(ks, oldKey, config.issuedAt) != Some(IntToString(current.issuedAtUnixSecs)) then (ks, Rotated(false))
    else if HGet(ks, oldKey, config.version) != Some(NatToString(current.sessionVersion)) then (ks, Rotated(false))
    else
      var seconds := ToNumber(TtlSecsCeil(ttl));
      (Expire(HSetSession(ks - {oldKey}, newKey, config, next), newKey, now, seconds),
       if AcceptsSeconds(now, seconds) then Rotated(true) else Rejected(Backend))
  }

  /** One operation. The transaction of a set keeps its HSET even when its EXPIRE is refused. */
  function RedisStep(scope: string, config: SessionFields, ks: Keyspace, op: Op): (Keyspace, Answer) {
    match op
    case Set(token, session, ttl, now) =>
      (match KeyFor(scope, token)
       case Err(error) => (ks, Rejected(error))
       case Ok(key) =>
         (Expire(HSetSession(Live(ks, now), key, config, session), key, now, TtlSecsCeil(ttl)),
          if AcceptsSeconds(now, TtlSecsCeil(ttl)) then Stored else Rejected(Backend)))
    case Get(token, now) =>
      (match KeyFor(scope, token)
       case Err(error) => (ks, Rejected(error))
       case Ok(key) =>
         var live := Live(ks, now);
         if key !in live || live[key].fields == map[] then (live, Loaded(None))
         else
           (match ParseSessionHash(live[key].fields, config)
            case Ok(session) => (live, Loaded(Some(session)))
            case Err(error) => (live, Rejected(error))))
    case Rotate(oldToken, newToken, current, next, ttl, now) =>
      (match (KeyFor(scope, oldToken), KeyFor(scope, newToken))
       case (Ok(oldKey), Ok(newKey)) =>
         if oldKey == newKey then (ks, Rotated(false))
         else RotateScript(Live(ks, now), oldKey, newKey, config, current, next, ttl, now)
       case _ => (ks, Rejected(InvalidToken)))
    case Delete(token) =>
      (match KeyFor(scope, token)
       case Err(error) => (ks, Rejected(error))
       case Ok(key) => (ks - {key}, Deleted))
  }

  function RedisAfter(scope: string, config: SessionFields, ks: Keyspace, ops: seq<Op>): Keyspace {
    if ops == [] then ks
    else RedisStep(scope, config, RedisAfter(scope, config, ks, ops[..|ops| - 1]), ops[|ops| - 1]).0
  }

  function RedisAnswerAt(scope: string, config: SessionFields, ks: Keyspace, ops: seq<Op>, j: nat): Answer
    requires j < |ops|
  {
    RedisStep(scope, config, RedisAfter(scope, config, ks, ops[..j]), ops[j]).1
  }

  /** A set whose EXPIRE is refused is answered with an error and leaves the session behind: for good, or
      until the expiry that an earlier set of the token still has. */
  lemma RefusedSetLeavesHash(scope: string, config: SessionFields, ks: Keyspace, op: Op)
    requires op.Set? && ValidToken(op.token) && !AcceptsSeconds(op.now, TtlSecsCeil(op.ttl))
    ensures var (key, live) := (StoreKey(scope, Sha256(op.token)), Live(ks, op.now));
      var (after, answer) := RedisStep(scope, config, ks, op);
      && answer == Rejected(Backend) && key in after
      && (key !in live ==> after[key] == RedisHash(EncodeSession(config, op.session), None))
      && (key in live ==> after[key].expireAt == live[key].expireAt
                          && after[key].fields == live[key].fields + EncodeSession(config, op.session))
  {
    hide ValidToken, TtlSecsCeil;
    WrittenHash(Live(ks, op.now), StoreKey(scope, Sha256(op.token)), config, op.session);
  }

  /** A winning rotation whose EXPIRE is refused is answered with an error; the old token is gone all the
      same, and the new session stays for good. */
  lemma RefusedRotationLeavesHash(config: SessionFields, ks: Keyspace, oldKey: StoreKey, newKey: StoreKey,
                                  current: Session, next: Session, ttl: Duration, now: nat)
    requires RotateScript(ks, oldKey, newKey, config, current, next, ttl, now).1 == Rejected(Backend)
    ensures RotateScript(ks, oldKey, newKey, config, current, next, ttl, now).0
         == (ks - {oldKey})[newKey := RedisHash(EncodeSession(config, next), None)]
  {
    hide ToNumber, TtlSecsCeil;
    WrittenHash(ks - {oldKey}, newKey, config, next);
  }

  function HashAt(ks: Keyspace, key: StoreKey): RedisHash {
    if key in ks then ks[key] else RedisHash(map[], None)
  }

  lemma WrittenField(ks: Keyspace, key: StoreKey, hash: RedisHash, field: string, value: string)
    ensures HSet(ks, key, field, value) == ks[key := HashAt(ks, key).(fields := HashAt(ks, key).fields[field := value])]
    ensures HSet(ks[key := hash], key, field, value) == ks[key := hash.(fields := hash.fields[field := value])]
  {
  }

  lemma FieldsAdded(fields: map<string, string>, config: SessionFields, s: Session)
    ensures fields + EncodeSession(config, s)
         == fields[config.subjectId := s.subjectId]
                  [config.sessionId := s.sessionId]
                  [config.issuedAt := IntToString(s.issuedAtUnixSecs)]
                  [config.version := NatToString(s.sessionVersion)]
    ensures map[] + EncodeSession(config, s) == EncodeSession(config, s)
  {
    hide IntToString, NatToString;
  }

  /** HSET adds the four fields to what is there and leaves the expiry alone. */
  lemma WrittenHash(ks: Keyspace, key: StoreKey, config: SessionFields, s: Session)
    ensures HSetSession(ks, key, config, s)
         == ks[key := HashAt(ks, key).(fields := HashAt(ks, key).fields + EncodeSession(config, s))]
    ensures map[] + EncodeSession(config, s) == EncodeSession(config, s)
  {
    hide HSet, HashAt, EncodeSession, IntToString, NatToString;
    var (issuedAt, version) := (IntToString(s.issuedAtUnixSecs), NatToString(s.sessionVersion));
    var h0 := HashAt(ks, key);
    var h1 := h0.(fields := h0.fields[config.subjectId := s.subjectId]);
    var h2 := h1.(fields := h1.fields[config.sessionId := s.sessionId]);
    var h3 := h2.(fields := h2.fields[config.issuedAt := issuedAt]);
    WrittenField(ks, key, h0, config.subjectId, s.subjectId);
    WrittenField(ks, key, h1, config.sessionId, s.sessionId);
    WrittenField(ks, key, h2, config.issuedAt, issuedAt);
    WrittenField(ks, key, h3, config.version, version);
    FieldsAdded(h0.fields, config, s);
  }

  // ----- one reference for both stores -----

  /** What is held for a key: the in-memory expiry, and the one Redis was told. */
  datatype Record = Record(session: Session, here: Instant, there: nat)

  type Records = map<StoreKey, Record>

  datatype Side = Here | There

  function ExpiryOn(record: Record, side: Side): nat {
    if side.Here? then record.here else record.there
  }

  predicate LiveOn(r: Records, key: StoreKey, side: Side, now: nat) {
    key in r && ExpiryOn(r[key], side) > now
  }

  predicate WinsOn(r: Records, oldKey: StoreKey, newKey: StoreKey, current: Session, side: Side, now: nat) {
    && oldKey != newKey
    && LiveOn(r, oldKey, side, now) && r[oldKey].session == current
    && !LiveOn(r, newKey, side, now)
  }

  function NewRecord(session: Session, now: Instant, ttl: Duration, seconds: nat): Record {
    Record(session, Expiry(now, ttl), now + seconds * NANOS_PER_SEC)
  }

  function RecordStep(scope: string, r: Records, op: Op): Records {
    match op
    case Set(token, session, ttl, now) =>
      (match KeyFor(scope, token)
       case Err(_) => r
       case Ok(key) => r[key := NewRecord(session, now, ttl, TtlSecsCeil(ttl))])
    case Get(_, _) => r
    case Rotate(oldToken, newToken, current, next, ttl, now) =>
      (match (KeyFor(scope, oldToken), KeyFor(scope, newToken))
       case (Ok(oldKey), Ok(newKey)) =>
         if WinsOn(r, oldKey, newKey, current, Here, now)
         then (r - {oldKey})[newKey := NewRecord(next, now, ttl, ToNumber(TtlSecsCeil(ttl)))]
         else r
       case _ => r)
    case Delete(token) =>
      (match KeyFor(scope, token)
       case Err(_) => r
       case Ok(key) => r - {key})
  }

  function RecordsAfter(scope: string, ops: seq<Op>): Records {
    if ops == [] then map[] else RecordStep(scope, RecordsAfter(scope, ops[..|ops| - 1]), ops[|ops| - 1])
  }

  lemma RecordsExtend(scope: string, ops: seq<Op>, n: nat)
    requires n < |ops|
    ensures RecordsAfter(scope, ops[..n + 1]) == RecordStep(scope, RecordsAfter(scope, ops[..n]), ops[n])
  {
    assert ops[..n + 1][..n] == ops[..n];
  }

  lemma RedisAfterExtend(scope: string, config: SessionFields, ks: Keyspace, ops: seq<Op>, n: nat)
    requires n < |ops|
    ensures RedisAfter(scope, config, ks, ops[..n + 1])
         == RedisStep(scope, config, RedisAfter(scope, config, ks, ops[..n]), ops[n]).0
  {
    assert ops[..n + 1][..n] == ops[..n];
  }

  /** The steps that tell the stores apart: a set whose EXPIRE is refused, a get between the two expiries,
      and a rotation that wins under one expiry only or wins and has its EXPIRE refused. */
  predicate Separates(scope: string, r: Records, op: Op) {
    match op
    case Set(token, _, ttl, now) => ValidToken(token) && !AcceptsSeconds(now, TtlSecsCeil(ttl))
    case Get(token, now) =>
      var key := StoreKey(scope, Sha256(token));
      ValidToken(token) && LiveOn(r, key, Here, now) != LiveOn(r, key, There, now)
    case Rotate(oldToken, newToken, current, _, ttl, now) =>
      var (oldKey, newKey) := (StoreKey(scope, Sha256(oldToken)), StoreKey(scope, Sha256(newToken)));
      var (here, there) := (WinsOn(r, oldKey, newKey, current, Here, now),
                            WinsOn(r, oldKey, newKey, current, There, now));
      && ValidToken(oldToken) && ValidToken(newToken)
      && (here != there || (here && !AcceptsSeconds(now, ToNumber(TtlSecsCeil(ttl)))))
    case Delete(_) => false
  }

  /** What the records make each store answer. */
  function AnswerOn(scope: string, r: Records, op: Op, side: Side): Answer {
    match op
    case Set(token, _, ttl, now) =>
      if !ValidToken(token) then Rejected(InvalidToken)
      else if side.There? && !AcceptsSeconds(now, TtlSecsCeil(ttl)) then Rejected(Backend)
      else Stored
    case Get(token, now) =>
      var key := StoreKey(scope, Sha256(token));
      if !ValidToken(token) then Rejected(InvalidToken)
      else Loaded(if LiveOn(r, key, side, now) then Some(r[key].session) else None)
    case Rotate(oldToken, newToken, current, _, ttl, now) =>
      var (oldKey, newKey) := (StoreKey(scope, Sha256(oldToken)), StoreKey(scope, Sha256(newToken)));
      if !ValidToken(oldToken) || !ValidToken(newToken) then Rejected(InvalidToken)
      else if !WinsOn(r, oldKey, newKey, current, side, now) then Rotated(false)
      else if side.There? && !AcceptsSeconds(now, ToNumber(TtlSecsCeil(ttl))) then Rejected(Backend)
      else Rotated(true)
    case Delete(token) => if ValidToken(token) then Deleted else Rejected(InvalidToken)
  }

  lemma SidesAgreeIff(scope: string, r: Records, op: Op)
    ensures AnswerOn(scope, r, op, Here) == AnswerOn(scope, r, op, There) <==> !Separates(scope, r, op)
  {
    hide LiveOn, WinsOn, AcceptsSeconds, ValidToken, ToNumber, TtlSecsCeil;
    if op.Get? {
      LiveIsHeld(r, StoreKey(scope, Sha256(op.token)), op.now);
    }
  }

  lemma LiveIsHeld(r: Records, key: StoreKey, now: nat)
    ensures LiveOn(r, key, Here, now) || LiveOn(r, key, There, now) ==> key in r
  {
  }

  // ----- each store mirrors the records -----

  /** From `t` on the in-memory store holds what the records hold under its own expiry. */
  ghost predicate MirrorsHere(m: Entries, r: Records, t: nat) {
    forall k ::
      && (k in m && m[k].expiresAt > t <==> LiveOn(r, k, Here, t))
      && (LiveOn(r, k, Here, t) ==> m[k] == Entry(r[k].session, r[k].here))
  }

  /** From `t` on Redis holds what the records hold under the expiry it was told. */
  ghost predicate MirrorsThere(config: SessionFields, ks: Keyspace, r: Records, t: nat) {
    forall k ::
      && (k in ks && Alive(ks[k], t) <==> LiveOn(r, k, There, t))
      && (LiveOn(r, k, There, t) ==>
            ValidSession(r[k].session) && ks[k] == RedisHash(EncodeSession(config, r[k].session), Some(r[k].there)))
  }

  predicate ValidOp(op: Op) {
    (op.Set? ==> ValidSession(op.session)) && (op.Rotate? ==> ValidSession(op.next))
  }

  /** Time alone changes nothing, and neither does the server's removal of what has expired. */
  lemma LaterHere(m: Entries, r: Records, t: nat, u: nat)
    requires MirrorsHere(m, r, t) && t <= u
    ensures MirrorsHere(m, r, u)
  {
  }

  lemma LaterThere(config: SessionFields, ks: Keyspace, r: Records, t: nat, u: nat)
    requires MirrorsThere(config, ks, r, t) && t <= u
    ensures MirrorsThere(config, ks, r, u) && MirrorsThere(config, Live(ks, u), r, u)
  {
    hide EncodeSession, ValidSession;
  }

  lemma RotateHere(m: Entries, r: Records, oldKey: StoreKey, newKey: StoreKey, op: Op)
    requires op.Rotate? && MirrorsHere(m, r, op.now)
    ensures var wins := WinsOn(r, oldKey, newKey, op.current, Here, op.now);
      var (after, answer) := RotateStep(m, oldKey, newKey, op.current, op.next, op.ttl, op.now);
      var record := NewRecord(op.next, op.now, op.ttl, ToNumber(TtlSecsCeil(op.ttl)));
      && answer == Rotated(wins)
      && MirrorsHere(after, if wins then (r - {oldKey})[newKey := record] else r, op.now)
  {
    hide TtlSecsCeil, ToNumber, Expiry;
  }

  lemma SetHere(m: Entries, r: Records, key: StoreKey, session: Session, ttl: Duration, now: Instant, seconds: nat)
    requires MirrorsHere(m, r, now)
    ensures MirrorsHere(m[key := Entry(session, Expiry(now, ttl))],
                        r[key := NewRecord(session, now, ttl, seconds)], now)
  {
    hide Expiry;
  }

  lemma RemoveHere(m: Entries, r: Records, key: StoreKey, t: nat)
    requires MirrorsHere(m, r, t)
    ensures MirrorsHere(m - {key}, r - {key}, t)
    ensures !LiveOn(r, key, Here, t) ==> MirrorsHere(m - {key}, r, t)
  {
  }

  lemma GetHere(m: Entries, r: Records, key: StoreKey, now: Instant)
    requires MirrorsHere(m, r, now)
    ensures GetStep(m, key, now).1 == Loaded(if LiveOn(r, key, Here, now) then Some(r[key].session) else None)
    ensures MirrorsHere(GetStep(m, key, now).0, r, now)
  {
    RemoveHere(m, r, key, now);
  }

  /** The in-memory store answers as the records say and goes on mirroring them. */
  lemma StepHere(scope: string, m: Entries, r: Records, op: Op, t: Instant)
    requires MirrorsHere(m, r, t) && (!op.Delete? ==> t <= op.now)
    ensures Step(scope, m, op).1 == AnswerOn(scope, r, op, Here)
    ensures MirrorsHere(Step(scope, m, op).0, RecordStep(scope, r, op), if op.Delete? then t else op.now)
  {
    hide ValidToken, TtlSecsCeil, ToNumber, AcceptsSeconds, Expiry, RotateStep, GetStep;
    hide MirrorsHere, LiveOn, WinsOn, NewRecord;
    if !op.Delete? {
      LaterHere(m, r, t, op.now);
    }
    match op
    case Set(token, session, ttl, now) =>
      SetHere(m, r, StoreKey(scope, Sha256(token)), session, ttl, now, TtlSecsCeil(ttl));
    case Get(token, now) => GetHere(m, r, StoreKey(scope, Sha256(token)), now);
    case Rotate(oldToken, newToken, _, _, _, _) =>
      RotateHere(m, r, StoreKey(scope, Sha256(oldToken)), StoreKey(scope, Sha256(newToken)), op);
    case Delete(token) => RemoveHere(m, r, StoreKey(scope, Sha256(token)), t);
  }

  /** Writing all four fields over a hash that has at most those fields leaves exactly the session. */
  lemma StoredHash(ks: Keyspace, key: StoreKey, config: SessionFields, s: Session, now: nat, seconds: nat)
    requires AcceptsSeconds(now, seconds)
    requires key in ks ==> ks[key].fields.Keys <= EncodeSession(config, s).Keys
    ensures Expire(HSetSession(ks, key, config, s), key, now, seconds)
         == ks[key := RedisHash(EncodeSession(config, s), Some(now + seconds * NANOS_PER_SEC))]
  {
    hide EncodeSession, HSetSession, AcceptsSeconds;
    WrittenHash(ks, key, config, s);
    assert HashAt(ks, key).fields + EncodeSession(config, s) == EncodeSession(config, s);
  }

  lemma EncodedFields(config: SessionFields, s: Session)
    ensures EncodeSession(config, s).Keys == {config.subjectId, config.sessionId, config.issuedAt, config.version}
  {
  }

  /** The script's four HGET comparisons together decide equality with the expected session. */
  lemma ComparedSessions(config: SessionFields, stored: Session, current: Session)
    requires Distinct(config)
    ensures var e := EncodeSession(config, stored);
      && config.subjectId in e && config.sessionId in e && config.issuedAt in e && config.version in e
      && (stored == current <==>
            && e[config.subjectId] == current.subjectId && e[config.sessionId] == current.sessionId
            && e[config.issuedAt] == IntToString(current.issuedAtUnixSecs)
            && e[config.version] == NatToString(current.sessionVersion))
  {
    DistinctNames(config);
    if NatToString(stored.sessionVersion) == NatToString(current.sessionVersion) {
      NatToStringInjective(stored.sessionVersion, current.sessionVersion);
    }
    if IntToString(stored.issuedAtUnixSecs) == IntToString(current.issuedAtUnixSecs) {
      IntToStringInjective(stored.issuedAtUnixSecs, current.issuedAtUnixSecs);
    }
  }

  lemma LoadAgrees(config: SessionFields, s: Session)
    requires Distinct(config) && ValidSession(s)
    ensures EncodeSession(config, s) != map[] && ParseSessionHash(EncodeSession(config, s), config) == Ok(s)
  {
    SessionRoundTrip(config, s);
    ComparedSessions(config, s, s);
  }

  lemma StoreThere(config: SessionFields, live: Keyspace, r: Records, key: StoreKey, session: Session, ttl: Duration,
                   now: Instant, seconds: nat)
    requires MirrorsThere(config, live, r, now) && (forall k :: k in live ==> Alive(live[k], now))
    requires ValidSession(session) && AcceptsSeconds(now, seconds) && seconds > 0
    ensures MirrorsThere(config, Expire(HSetSession(live, key, config, session), key, now, seconds),
                         r[key := NewRecord(session, now, ttl, seconds)], now)
  {
    hide EncodeSession, HSetSession, Expire, Expiry, ValidSession, AcceptsSeconds;
    if key in live {
      EncodedFields(config, r[key].session);
      EncodedFields(config, session);
    }
    StoredHash(live, key, config, session, now, seconds);
  }

  lemma RemoveThere(config: SessionFields, ks: Keyspace, r: Records, key: StoreKey, now: nat)
    requires MirrorsThere(config, ks, r, now)
    ensures MirrorsThere(config, ks - {key}, r - {key}, now)
  {
    hide EncodeSession, ValidSession;
  }

  /** The script passes its guards exactly when the records let the rotation win. */
  lemma ScriptWins(config: SessionFields, live: Keyspace, r: Records, oldKey: StoreKey, newKey: StoreKey, op: Op)
    requires op.Rotate? && Distinct(config) && oldKey != newKey
    requires MirrorsThere(config, live, r, op.now) && (forall k :: k in live ==> Alive(live[k], op.now))
    ensures var seconds := ToNumber(TtlSecsCeil(op.ttl));
      RotateScript(live, oldKey, newKey, config, op.current, op.next, op.ttl, op.now)
        == if !WinsOn(r, oldKey, newKey, op.current, There, op.now) then (live, Rotated(false))
           else (Expire(HSetSession(live - {oldKey}, newKey, config, op.next), newKey, op.now, seconds),
                 if AcceptsSeconds(op.now, seconds) then Rotated(true) else Rejected(Backend))
  {
    hide EncodeSession, HSetSession, Expire, TtlSecsCeil, ToNumber, AcceptsSeconds, ValidSession, Distinct;
    hide IntToString, NatToString;
    if oldKey in live {
      ComparedSessions(config, r[oldKey].session, op.current);
    }
  }

  lemma GetThere(scope: string, config: SessionFields, ks: Keyspace, r: Records, op: Op)
    requires op.Get? && ValidToken(op.token) && Distinct(config) && MirrorsThere(config, Live(ks, op.now), r, op.now)
    ensures RedisStep(scope, config, ks, op) == (Live(ks, op.now), AnswerOn(scope, r, op, There))
  {
    hide EncodeSession, ParseSessionHash, ValidSession, Distinct, ValidToken;
    var key := StoreKey(scope, Sha256(op.token));
    if LiveOn(r, key, There, op.now) {
      LoadAgrees(config, r[key].session);
    }
  }

  lemma SetThere(scope: string, config: SessionFields, ks: Keyspace, r: Records, op: Op)
    requires op.Set? && ValidToken(op.token) && ValidOp(op) && MirrorsThere(config, Live(ks, op.now), r, op.now)
    ensures RedisStep(scope, config, ks, op).1 == AnswerOn(scope, r, op, There)
    ensures !Separates(scope, r, op) ==>
              MirrorsThere(config, RedisStep(scope, config, ks, op).0, RecordStep(scope, r, op), op.now)
  {
    hide MirrorsThere, HSetSession, Expire, TtlSecsCeil, AcceptsSeconds, ValidToken, ValidSession, NewRecord;
    if !Separates(scope, r, op) {
      var key := StoreKey(scope, Sha256(op.token));
      StoreThere(config, Live(ks, op.now), r, key, op.session, op.ttl, op.now, TtlSecsCeil(op.ttl));
    }
  }

  lemma RotateThere(scope: string, config: SessionFields, ks: Keyspace, r: Records, op: Op)
    requires op.Rotate? && ValidOp(op) && Distinct(config) && MirrorsThere(config, Live(ks, op.now), r, op.now)
    requires ValidToken(op.oldToken) && ValidToken(op.newToken) && op.oldToken != op.newToken
    ensures RedisStep(scope, config, ks, op).1 == AnswerOn(scope, r, op, There)
    ensures !Separates(scope, r, op) ==>
              MirrorsThere(config, RedisStep(scope, config, ks, op).0, RecordStep(scope, r, op), op.now)
  {
    hide MirrorsThere, RotateScript, HSetSession, Expire, TtlSecsCeil, ToNumber, AcceptsSeconds, ValidToken, Distinct;
    hide LiveOn, NewRecord;
    var (oldKey, newKey) := (StoreKey(scope, Sha256(op.oldToken)), StoreKey(scope, Sha256(op.newToken)));
    var (live, seconds) := (Live(ks, op.now), ToNumber(TtlSecsCeil(op.ttl)));
    ScriptWins(config, live, r, oldKey, newKey, op);
    if WinsOn(r, oldKey, newKey, op.current, Here, op.now) && !Separates(scope, r, op) {
      RemoveThere(config, live, r, oldKey, op.now);
      ToNumberPositive(TtlSecsCeil(op.ttl));
      StoreThere(config, live - {oldKey}, r - {oldKey}, newKey, op.next, op.ttl, op.now, seconds);
    }
  }

  lemma ToNumberPositive(n: nat)
    requires n > 0
    ensures ToNumber(n) > 0
  {
  }

  /** Redis answers as the records say, and a step that does not separate keeps it mirroring them. */
  lemma StepThere(scope: string, config: SessionFields, ks: Keyspace, r: Records, op: Op, t: Instant)
    requires Distinct(config) && ValidOp(op) && MirrorsThere(config, ks, r, t) && (!op.Delete? ==> t <= op.now)
    ensures RedisStep(scope, config, ks, op).1 == AnswerOn(scope, r, op, There)
    ensures !Separates(scope, r, op) ==>
              MirrorsThere(config, RedisStep(scope, config, ks, op).0, RecordStep(scope, r, op),
                           if op.Delete? then t else op.now)
  {
    hide MirrorsThere, Live, RotateScript, HSetSession, Expire, TtlSecsCeil, ToNumber, AcceptsSeconds, Distinct,
      ValidSession;
    hide ValidToken, LiveOn, NewRecord, ParseSessionHash;
    if !op.Delete? {
      LaterThere(config, ks, r, t, op.now);
    }
    match op
    case Set(token, _, _, _) =>
      if ValidToken(token) { SetThere(scope, config, ks, r, op); }
    case Get(token, _) =>
      if ValidToken(token) { GetThere(scope, config, ks, r, op); }
    case Rotate(oldToken, newToken, _, _, _, _) =>
      if ValidToken(oldToken) && ValidToken(newToken) && oldToken != newToken { RotateThere(scope, config, ks, r, op); }
    case Delete(token) => RemoveThere(config, ks, r, StoreKey(scope, Sha256(token)), t);
  }

  // ----- runs -----

  /** One shared clock that never runs backwards. */
  predicate Orderly(ops: seq<Op>) {
    forall i, j :: 0 <= i < j < |ops| && !ops[i].Delete? && !ops[j].Delete? ==> ops[i].now <= ops[j].now
  }

  /** The latest clock value among the first `n` operations. */
  function LastClock(ops: seq<Op>, n: nat): (t: Instant)
    requires n <= |ops|
    ensures t == 0 || exists i :: 0 <= i < n && !ops[i].Delete? && ops[i].now == t
  {
    if n == 0 then 0 else if ops[n - 1].Delete? then LastClock(ops, n - 1) else ops[n - 1].now
  }

  predicate ValidRun(config: SessionFields, ops: seq<Op>) {
    Distinct(config) && Orderly(ops) && forall i :: 0 <= i < |ops| ==> ValidOp(ops[i])
  }

  predicate SeparatesAt(scope: string, ops: seq<Op>, j: nat)
    requires j < |ops|
  {
    Separates(scope, RecordsAfter(scope, ops[..j]), ops[j])
  }

  predicate SameAnswer(scope: string, config: SessionFields, ops: seq<Op>, j: nat)
    requires j < |ops|
  {
    AnswerAt(scope, map[], ops, j) == RedisAnswerAt(scope, config, map[], ops, j)
  }

  /** Until a step separates them, both stores mirror the records. */
  lemma {:induction false} RunsMirror(scope: string, config: SessionFields, ops: seq<Op>, n: nat)
    requires ValidRun(config, ops) && n <= |ops| && forall j: nat :: j < n ==> !SeparatesAt(scope, ops, j)
    ensures MirrorsHere(After(scope, map[], ops[..n]), RecordsAfter(scope, ops[..n]), LastClock(ops, n))
    ensures MirrorsThere(config, RedisAfter(scope, config, map[], ops[..n]), RecordsAfter(scope, ops[..n]),
                         LastClock(ops, n))
  {
    hide Step, RedisStep, RecordStep, Separates, ValidOp, Distinct;
    if n == 0 {
      assert ops[..0] == [];
    } else {
      hide MirrorsHere, MirrorsThere;
      var r := RecordsAfter(scope, ops[..n - 1]);
      RunsMirror(scope, config, ops, n - 1);
      assert !SeparatesAt(scope, ops, n - 1);
      StepHere(scope, After(scope, map[], ops[..n - 1]), r, ops[n - 1], LastClock(ops, n - 1));
      StepThere(scope, config, RedisAfter(scope, config, map[], ops[..n - 1]), r, ops[n - 1], LastClock(ops, n - 1));
      RecordsExtend(scope, ops, n - 1);
      AfterExtend(scope, map[], ops, n - 1);
      RedisAfterExtend(scope, config, map[], ops, n - 1);
    }
  }

  /** Up to the first step that separates, the records give the answers of both. */
  lemma AnswersOnSides(scope: string, config: SessionFields, ops: seq<Op>, n: nat)
    requires ValidRun(config, ops) && n < |ops| && forall j: nat :: j < n ==> !SeparatesAt(scope, ops, j)
    ensures AnswerAt(scope, map[], ops, n) == AnswerOn(scope, RecordsAfter(scope, ops[..n]), ops[n], Here)
    ensures RedisAnswerAt(scope, config, map[], ops, n) == AnswerOn(scope, RecordsAfter(scope, ops[..n]), ops[n], There)
    ensures SameAnswer(scope, config, ops, n) <==> !SeparatesAt(scope, ops, n)
  {
    hide Step, RedisStep, Separates, ValidOp, Distinct, MirrorsHere, MirrorsThere, AnswerOn;
    var r := RecordsAfter(scope, ops[..n]);
    RunsMirror(scope, config, ops, n);
    StepHere(scope, After(scope, map[], ops[..n]), r, ops[n], LastClock(ops, n));
    StepThere(scope, config, RedisAfter(scope, config, map[], ops[..n]), r, ops[n], LastClock(ops, n));
    SidesAgreeIff(scope, r, ops[n]);
  }

  lemma {:induction false} SameAnswersIff(scope: string, config: SessionFields, ops: seq<Op>, n: nat)
    requires ValidRun(config, ops) && n <= |ops|
    ensures (forall j: nat :: j < n ==> SameAnswer(scope, config, ops, j))
              <==> forall j: nat :: j < n ==> !SeparatesAt(scope, ops, j)
  {
    hide SameAnswer, SeparatesAt, ValidRun;
    if n > 0 {
      SameAnswersIff(scope, config, ops, n - 1);
      if forall j: nat :: j < n - 1 ==> !SeparatesAt(scope, ops, j) {
        AnswersOnSides(scope, config, ops, n - 1);
      }
    }
  }

  ghost predicate AnsweredAlike(scope: string, config: SessionFields, ops: seq<Op>) {
    forall j: nat :: j < |ops| ==> SameAnswer(scope, config, ops, j)
  }

  /** Whatever the TTLs, the two stores answer a whole run of set, get, rotate and delete alike exactly
      when no step separates them. */
  lemma BackendsAnswerAlikeIff(scope: string, config: SessionFields, ops: seq<Op>)
    requires ValidRun(config, ops)
    ensures AnsweredAlike(scope, config, ops) <==> forall j: nat :: j < |ops| ==> !SeparatesAt(scope, ops, j)
  {
    SameAnswersIff(scope, config, ops, |ops|);
  }

  // ----- which TTLs are safe -----

  /** A TTL of whole seconds that Redis accepts. It expires at the same instant in both. */
  predicate SharedTtl(ttl: Duration, now: Instant) {
    ttl % NANOS_PER_SEC == 0 && AcceptsSeconds(now, TtlSecsCeil(ttl))
  }

  /** In numbers: whole seconds, and an expiry within 2^63 - 1 milliseconds of the epoch. */
  lemma SharedTtlIff(ttl: Duration, now: Instant)
    ensures SharedTtl(ttl, now) <==>
            && ttl % 1_000_000_000 == 0
            && now / 1_000_000 + (if ttl == 0 then 1000 else ttl / 1_000_000) <= 0x7FFF_FFFF_FFFF_FFFF
  {
    if ttl % 1_000_000_000 == 0 && ttl > 0 {
      var s := ttl / 1_000_000_000;
      assert ttl == s * 1_000_000_000 && ttl / 1_000_000 == s * 1000;
      assert TtlSecsCeil(ttl) == s;
    }
  }

  predicate SharedOp(op: Op) {
    match op
    case Set(_, _, ttl, now) => SharedTtl(ttl, now)
    case Rotate(_, _, _, _, ttl, now) => SharedTtl(ttl, now) && ToNumber(TtlSecsCeil(ttl)) == TtlSecsCeil(ttl)
    case _ => true
  }

  /** An accepted count of seconds, rounded or not, gives the in-memory expiry exactly for shared TTLs
      that were not rounded. */
  lemma SameExpiryIffShared(ttl: Duration, now: Instant, seconds: nat)
    requires AcceptsSeconds(now, seconds) && (seconds == TtlSecsCeil(ttl) || seconds == ToNumber(TtlSecsCeil(ttl)))
    ensures Expiry(now, ttl) == now + seconds * NANOS_PER_SEC <==> SharedTtl(ttl, now) && seconds == TtlSecsCeil(ttl)
  {
    assert TtlSecsCeil(ttl) <= seconds + 1;
    assert now + TtlDuration(ttl) <= MAX_INSTANT;
  }

  predicate SameExpiries(r: Records) {
    forall k :: k in r ==> r[k].here == r[k].there
  }

  lemma SharedStep(scope: string, r: Records, op: Op)
    requires SharedOp(op) && SameExpiries(r)
    ensures !Separates(scope, r, op) && SameExpiries(RecordStep(scope, r, op))
  {
    hide TtlSecsCeil, ToNumber, AcceptsSeconds, ValidToken, Expiry;
    if op.Set? || op.Rotate? {
      SameExpiryIffShared(op.ttl, op.now, TtlSecsCeil(op.ttl));
    }
  }

  lemma {:induction false} SharedRunNeverSeparates(scope: string, ops: seq<Op>, n: nat)
    requires n <= |ops| && forall i :: 0 <= i < |ops| ==> SharedOp(ops[i])
    ensures SameExpiries(RecordsAfter(scope, ops[..n]))
    ensures forall j: nat :: j < n ==> !SeparatesAt(scope, ops, j)
  {
    hide SharedOp, RecordStep, Separates;
    if n == 0 {
      assert ops[..0] == [];
    } else {
      SharedRunNeverSeparates(scope, ops, n - 1);
      SharedStep(scope, RecordsAfter(scope, ops[..n - 1]), ops[n - 1]);
      RecordsExtend(scope, ops, n - 1);
    }
  }

  /** Runs that use shared TTLs only are answered alike. */
  lemma BackendsAnswerAlike(scope: string, config: SessionFields, ops: seq<Op>)
    requires ValidRun(config, ops) && forall i :: 0 <= i < |ops| ==> SharedOp(ops[i])
    ensures AnsweredAlike(scope, config, ops)
  {
    hide AnsweredAlike, SeparatesAt, SharedOp;
    SharedRunNeverSeparates(scope, ops, |ops|);
    BackendsAnswerAlikeIff(scope, config, ops);
  }

  /** After the first `n` of a few operations. */
  lemma FirstRecords(scope: string, ops: seq<Op>)
    ensures |ops| > 0 ==> RecordsAfter(scope, ops[..0]) == map[]
    ensures |ops| > 1 ==> RecordsAfter(scope, ops[..1]) == RecordStep(scope, map[], ops[0])
    ensures |ops| > 2 ==> RecordsAfter(scope, ops[..2]) == RecordStep(scope, RecordStep(scope, map[], ops[0]), ops[1])
  {
    hide RecordStep;
    assert ops[..0] == [];
    if |ops| > 1 { RecordsExtend(scope, ops, 0); }
    if |ops| > 2 { RecordsExtend(scope, ops, 1); }
  }

  predicate SameSide(here: nat, there: nat, t: nat) {
    here > t <==> there > t
  }

  /** Two expiries that differ have a clock between them. */
  function ClockBetween(here: Instant, there: nat): (t: Instant)
    ensures SameSide(here, there, t) <==> here == there
    ensures t == here || t == there
  {
    if here < there then here else there
  }

  lemma SetThenGet(scope: string, config: SessionFields, token: string, session: Session, ttl: Duration,
                   now: Instant, t: Instant)
    requires Distinct(config) && ValidSession(session) && ValidToken(token) && now <= t
    ensures var seconds := TtlSecsCeil(ttl);
      AnsweredAlike(scope, config, [Set(token, session, ttl, now), Get(token, t)]) <==>
        AcceptsSeconds(now, seconds) && SameSide(Expiry(now, ttl), now + seconds * NANOS_PER_SEC, t)
  {
    hide AnsweredAlike, AcceptsSeconds, TtlSecsCeil, Expiry, ValidToken, ValidSession, RecordsAfter, Distinct;
    var ops := [Set(token, session, ttl, now), Get(token, t)];
    FirstRecords(scope, ops);
    BackendsAnswerAlikeIff(scope, config, ops);
    assert (forall j: nat :: j < 2 ==> !SeparatesAt(scope, ops, j)) <==>
           !SeparatesAt(scope, ops, 0) && !SeparatesAt(scope, ops, 1);
  }

  /** A set and a later get are answered alike at every clock exactly for a TTL of whole seconds, since
      Redis is told the rounded-up count, that Redis accepts. */
  lemma AgreementNeedsSharedTtl(scope: string, config: SessionFields, token: string, session: Session, ttl: Duration,
                                now: Instant)
    requires Distinct(config) && ValidSession(session) && ValidToken(token)
    ensures SharedTtl(ttl, now) <==>
            forall t: Instant :: now <= t ==>
              AnsweredAlike(scope, config, [Set(token, session, ttl, now), Get(token, t)])
  {
    hide AnsweredAlike, TtlSecsCeil, Expiry, ValidToken, ValidSession, Distinct, SharedTtl, AcceptsSeconds;
    var seconds := TtlSecsCeil(ttl);
    var (here, there) := (Expiry(now, ttl), now + seconds * NANOS_PER_SEC);
    var between := ClockBetween(here, there);
    SharedIsAccepted(ttl, now);
    SetThenGet(scope, config, token, session, ttl, now, between);
    if AcceptsSeconds(now, seconds) {
      SameExpiryIffShared(ttl, now, seconds);
    }
    forall t: Instant | now <= t
      ensures SharedTtl(ttl, now) ==> AnsweredAlike(scope, config, [Set(token, session, ttl, now), Get(token, t)])
    {
      SetThenGet(scope, config, token, session, ttl, now, t);
    }
  }

  lemma SharedIsAccepted(ttl: Duration, now: Instant)
    ensures SharedTtl(ttl, now) ==> AcceptsSeconds(now, TtlSecsCeil(ttl))
    ensures now <= Expiry(now, ttl)
  {
  }

  /** A session to be rotated, stored with a shared TTL and still there when the rotation comes. */
  predicate Rotatable(stored: Op, rotation: Op) {
    && stored.Set? && rotation.Rotate?
    && ValidOp(stored) && ValidOp(rotation) && SharedOp(stored)
    && ValidToken(rotation.oldToken) && ValidToken(rotation.newToken) && rotation.oldToken != rotation.newToken
    && stored.token == rotation.oldToken && stored.session == rotation.current
    && stored.now <= rotation.now < Expiry(stored.now, stored.ttl)
  }

  lemma RotatedRecords(scope: string, stored: Op, rotation: Op)
    requires Rotatable(stored, rotation)
    ensures var r := RecordStep(scope, map[], stored);
      var seconds := ToNumber(TtlSecsCeil(rotation.ttl));
      && !Separates(scope, map[], stored)
      && (Separates(scope, r, rotation) <==> !AcceptsSeconds(rotation.now, seconds))
      && RecordStep(scope, r, rotation)
           == map[StoreKey(scope, Sha256(rotation.newToken)) :=
                  NewRecord(rotation.next, rotation.now, rotation.ttl, seconds)]
  {
    hide AcceptsSeconds, TtlSecsCeil, ToNumber, Expiry, ValidToken, ValidSession;
    SameExpiryIffShared(stored.ttl, stored.now, TtlSecsCeil(stored.ttl));
  }

  lemma RotateThenGet(scope: string, config: SessionFields, stored: Op, rotation: Op, t: Instant)
    requires Distinct(config) && Rotatable(stored, rotation) && rotation.now <= t
    ensures var seconds := ToNumber(TtlSecsCeil(rotation.ttl));
      AnsweredAlike(scope, config, [stored, rotation, Get(rotation.newToken, t)]) <==>
        && AcceptsSeconds(rotation.now, seconds)
        && SameSide(Expiry(rotation.now, rotation.ttl), rotation.now + seconds * NANOS_PER_SEC, t)
  {
    hide AnsweredAlike, AcceptsSeconds, TtlSecsCeil, ToNumber, Expiry, ValidToken, ValidSession, RecordsAfter, Distinct;
    var ops := [stored, rotation, Get(rotation.newToken, t)];
    FirstRecords(scope, ops);
    RotatedRecords(scope, stored, rotation);
    BackendsAnswerAlikeIff(scope, config, ops);
    assert (forall j: nat :: j < 3 ==> !SeparatesAt(scope, ops, j)) <==>
           !SeparatesAt(scope, ops, 0) && !SeparatesAt(scope, ops, 1) && !SeparatesAt(scope, ops, 2);
  }

  /** A rotation and every later get of the new token are answered alike exactly for a shared TTL that the
      script's `tonumber` does not round. */
  lemma RotationNeedsSharedOp(scope: string, config: SessionFields, stored: Op, rotation: Op)
    requires Distinct(config) && Rotatable(stored, rotation)
    ensures SharedOp(rotation) <==>
            forall t: Instant :: rotation.now <= t ==>
              AnsweredAlike(scope, config, [stored, rotation, Get(rotation.newToken, t)])
  {
    hide AnsweredAlike, TtlSecsCeil, ToNumber, Expiry, Distinct, SharedTtl, AcceptsSeconds, ValidToken, ValidSession;
    var (now, ttl, seconds) := (rotation.now, rotation.ttl, ToNumber(TtlSecsCeil(rotation.ttl)));
    var (here, there) := (Expiry(now, ttl), now + seconds * NANOS_PER_SEC);
    var between := ClockBetween(here, there);
    SharedIsAccepted(ttl, now);
    RotateThenGet(scope, config, stored, rotation, between);
    if AcceptsSeconds(now, seconds) {
      SameExpiryIffShared(ttl, now, seconds);
    }
    forall t: Instant | now <= t
      ensures SharedOp(rotation) ==> AnsweredAlike(scope, config, [stored, rotation, Get(rotation.newToken, t)])
    {
      RotateThenGet(scope, config, stored, rotation, t);
    }
  }

  /** Whole seconds that Redis accepts are not enough for a rotation: 2^53 + 1 seconds reach Redis as 2^53,
      and at that clock only the in-memory store still has the session. */
  lemma RoundedRotationSeparates(scope: string, config: SessionFields, oldToken: string, newToken: string,
                                 current: Session, next: Session)
    requires Distinct(config) && ValidSession(current) && ValidSession(next)
    requires ValidToken(oldToken) && ValidToken(newToken) && oldToken != newToken
    ensures var n := 0x20_0000_0000_0000;
      var ops := [Set(oldToken, current, NANOS_PER_SEC, 0),
                  Rotate(oldToken, newToken, current, next, (n + 1) * NANOS_PER_SEC, 0),
                  Get(newToken, n * NANOS_PER_SEC)];
      && SharedTtl((n + 1) * NANOS_PER_SEC, 0)
      && AnswerAt(scope, map[], ops, 2) == Loaded(Some(next))
      && RedisAnswerAt(scope, config, map[], ops, 2) == Loaded(None)
  {
    var n := 0x20_0000_0000_0000;
    var ttl: Duration := (n + 1) * NANOS_PER_SEC;
    var (stored, rotation) := (Set(oldToken, current, NANOS_PER_SEC, 0),
                               Rotate(oldToken, newToken, current, next, ttl, 0));
    var ops := [stored, rotation, Get(newToken, n * NANOS_PER_SEC)];
    assert TtlSecsCeil(NANOS_PER_SEC) == 1 && TtlSecsCeil(ttl) == n + 1 && ToNumber(n + 1) == n;
    SameExpiryIffShared(NANOS_PER_SEC, 0, 1);
    assert Rotatable(stored, rotation);
    hide AcceptsSeconds, TtlSecsCeil, ToNumber, ValidToken, ValidSession, RecordsAfter, Distinct, Rotatable;
    FirstRecords(scope, ops);
    RotatedRecords(scope, stored, rotation);
    AnswersOnSides(scope, config, ops, 2);
  }
}
