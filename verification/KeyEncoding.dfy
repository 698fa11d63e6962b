// The length-prefixed text keys of the volatile stores. One fact carries them all: a decimal byte
// length, a colon and that many bytes can be read back from the front of any longer text.
module KeyEncoding {
  import opened Basics
  import opened Wrappers
  import opened Text
  import opened Decimal

  datatype KeyError = InvalidKey

  // ----- self-delimiting pieces -----

  /** `{len}:{s}` with the length in bytes. */
  function LengthPrefixed(s: string): string {
    NatToString(Utf8Length(s)) + ":" + s
  }

  lemma {:induction false} Utf8LengthAppend(a: string, b: string)
    ensures Utf8Length(a + b) == Utf8Length(a) + Utf8Length(b)
  {
    if a == "" {
      assert a + b == b;
    } else {
      Utf8LengthAppend(a[1..], b);
      assert (a + b)[1..] == a[1..] + b;
    }
  }

  /** Two prefixes of one text that take the same number of bytes are the same. */
  lemma SameBytesSamePrefix(a: string, x: string, b: string, y: string)
    requires a + x == b + y && Utf8Length(a) == Utf8Length(b)
    ensures a == b && x == y
    decreases |b| < |a|
  {
    if |a| <= |b| {
      assert b[..|a|] == (b + y)[..|a|] == a;
      Utf8LengthAppend(a, b[|a|..]);
      assert b == a + b[|a|..];
      assert b[|a|..] == "";
    } else {
      SameBytesSamePrefix(b, y, a, x);
    }
    assert x == (a + x)[|a|..] && y == (b + y)[|b|..];
  }

  /** A colon ends a colon-free piece. */
  lemma {:induction false} ColonDelimits(a: string, x: string, b: string, y: string)
    requires ':' !in a && ':' !in b && a + ":" + x == b + ":" + y
    ensures a == b && x == y
  {
    var s := a + ":" + x;
    assert s[|a|] == ':' && s[|b|] == ':';
    assert a == s[..|a|] && b == s[..|b|];
    assert x == s[|a| + 1..] && y == s[|b| + 1..];
  }

  lemma SelfDelimiting(a: string, x: string, b: string, y: string)
    requires LengthPrefixed(a) + x == LengthPrefixed(b) + y
    ensures a == b && x == y
  {
    var m, n := NatToString(Utf8Length(a)), NatToString(Utf8Length(b));
    assert m + ":" + (a + x) == LengthPrefixed(a) + x;
    assert n + ":" + (b + y) == LengthPrefixed(b) + y;
    assert ':' !in m && ':' !in n;
    ColonDelimits(m, a + x, n, b + y);
    NatToStringInjective(Utf8Length(a), Utf8Length(b));
    SameBytesSamePrefix(a, x, b, y);
  }

  // ----- idempotency keys -----

  datatype KeyFormat = LengthPrefix | NamespacePrefix

  function ValidatePart(value: string): (r: Result<string, KeyError>)
    ensures r.Ok? ==> r.value == Trim(value) != ""
  {
    if exists c :: c in value && IsControl(c) then Err(InvalidKey)
    else
      var v := Trim(value);
      if v == "" || Utf8Length(v) > 512 || exists c :: c in v && (IsControl(c) || IsWhitespace(c)) then Err(InvalidKey)
      else Ok(v)
  }

  /** A namespace value that passed its constructor: trimmed and not empty. */
  predicate ValidNamespace(namespace: Option<string>) {
    namespace.Some? ==> ValidatePart(namespace.value) == Ok(namespace.value)
  }

  function NamespacedKey(namespace: Option<string>, key: string, format: KeyFormat): Result<string, KeyError> {
    match ValidatePart(key)
    case Err(error) => Err(error)
    case Ok(key) => Ok(
      match (format, namespace)
      case (LengthPrefix, Some(ns)) =>
        "idem:" + NatToString(Utf8Length(ns)) + ":" + ns + ":" + NatToString(Utf8Length(key)) + ":" + key
      case (LengthPrefix, None) => "idem:0::" + NatToString(Utf8Length(key)) + ":" + key
      case (NamespacePrefix, Some(ns)) => ns + ":" + key
      case (NamespacePrefix, None) => key)
  }

  /** A missing namespace prints as an empty one. */
  function NamespaceText(namespace: Option<string>): string {
    if namespace.Some? then namespace.value else ""
  }

  lemma NamespacedKeyShape(namespace: Option<string>, key: string)
    requires ValidatePart(key).Ok?
    ensures NamespacedKey(namespace, key, LengthPrefix)
         == Ok("idem:" + (LengthPrefixed(NamespaceText(namespace)) + (":" + (LengthPrefixed(Trim(key)) + ""))))
  {
    var k := Trim(key);
    var ns := NamespaceText(namespace);
    assert NatToString(0) == "0";
    assert "idem:0::" + NatToString(Utf8Length(k)) + ":" + k
        == "idem:" + "0" + ":" + "" + ":" + NatToString(Utf8Length(k)) + ":" + k;
    assert NamespacedKey(namespace, key, LengthPrefix).value
        == "idem:" + NatToString(Utf8Length(ns)) + ":" + ns + ":" + NatToString(Utf8Length(k)) + ":" + k;
    Regroup(NatToString(Utf8Length(ns)), ns, NatToString(Utf8Length(k)), k);
  }

  lemma Regroup(m: string, a: string, n: string, b: string)
    ensures "idem:" + m + ":" + a + ":" + n + ":" + b == "idem:" + ((m + ":" + a) + (":" + ((n + ":" + b) + "")))
  {
  }

  /** Length-prefixed keys of different namespaces or different trimmed keys never collide. */
  lemma NamespacedKeyInjective(ns1: Option<string>, key1: string, ns2: Option<string>, key2: string)
    requires ValidNamespace(ns1) && ValidNamespace(ns2)
    requires NamespacedKey(ns1, key1, LengthPrefix).Ok?
    requires NamespacedKey(ns1, key1, LengthPrefix) == NamespacedKey(ns2, key2, LengthPrefix)
    ensures ns1 == ns2 && Trim(key1) == Trim(key2)
  {
    hide LengthPrefixed, Trim, ValidatePart;
    NamespacedKeyShape(ns1, key1);
    NamespacedKeyShape(ns2, key2);
    var (t1, t2) := (LengthPrefixed(Trim(key1)) + "", LengthPrefixed(Trim(key2)) + "");
    var (u1, u2) := (LengthPrefixed(NamespaceText(ns1)) + (":" + t1), LengthPrefixed(NamespaceText(ns2)) + (":" + t2));
    DropPrefix("idem:", u1, u2);
    SelfDelimiting(NamespaceText(ns1), ":" + t1, NamespaceText(ns2), ":" + t2);
    DropPrefix(":", t1, t2);
    SelfDelimiting(Trim(key1), "", Trim(key2), "");
  }

  /** The legacy format does collide: namespace `a` with key `b:c` and namespace `a:b` with key `c`. */
  lemma NamespacePrefixCollides(a: string, b: string, c: string)
    requires ValidatePart(c) == Ok(c) && ValidatePart(b + ":" + c) == Ok(b + ":" + c)
    ensures NamespacedKey(Some(a), b + ":" + c, NamespacePrefix) == NamespacedKey(Some(a + ":" + b), c, NamespacePrefix)
  {
    hide ValidatePart;
    assert a + ":" + (b + ":" + c) == (a + ":" + b) + ":" + c;
  }

  /** Keys are refused exactly for a control character anywhere, and, once trimmed, for being empty, for
      more than 512 bytes, and for white space inside; the trimmed key is what is used. */
  lemma ValidatePartIff(value: string)
    ensures var v := Trim(value);
      ValidatePart(value)
        == if NoControls(value) && 1 <= |EncodeUtf8(v)| <= 512 && (forall i :: 0 <= i < |v| ==> PlainChar(v[i]))
           then Ok(v)
           else Err(InvalidKey)
  {
    hide Trim, IsControl, IsWhitespace, NoControls, PlainChar;
    var v := Trim(value);
    NoControlsIff(value);
    Utf8LengthCountsBytes(v);
    forall i | 0 <= i < |v|
      ensures PlainChar(v[i]) <==> !IsControl(v[i]) && !IsWhitespace(v[i])
    {
      PlainCharIff(v[i]);
    }
    assert (exists c :: c in v && (IsControl(c) || IsWhitespace(c))) <==>
           exists i :: 0 <= i < |v| && (IsControl(v[i]) || IsWhitespace(v[i]));
  }

  /** The text of an accepted key: `idem`, then namespace and trimmed key each behind its byte length, a
      missing namespace being an empty one; or, in the legacy format, the namespace and a colon in front. */
  lemma StoredKeyText(namespace: Option<string>, key: string, format: KeyFormat)
    requires ValidatePart(key).Ok?
    ensures var (ns, k) := (NamespaceText(namespace), Trim(key));
      NamespacedKey(namespace, key, format) == Ok(
        if format.LengthPrefix? then
          "idem:" + NatToString(|EncodeUtf8(ns)|) + ":" + ns + ":" + NatToString(|EncodeUtf8(k)|) + ":" + k
        else if namespace.Some? then ns + ":" + k
        else k)
  {
    hide ValidatePart, Trim, EncodeUtf8;
    var (ns, k) := (NamespaceText(namespace), Trim(key));
    Utf8LengthCountsBytes(ns);
    Utf8LengthCountsBytes(k);
    assert NatToString(0) == "0";
    assert "idem:" + "0" + ":" + "" + ":" == "idem:0::";
  }

  lemma {:induction false} AsciiLength(s: string)
    requires forall i :: 0 <= i < |s| ==> (s[i] as int) < 0x80
    ensures Utf8Length(s) == |s|
  {
    if s != "" { AsciiLength(s[1..]); }
  }

  // ----- when legacy keys collide -----

  /** What key validation lets through. */
  predicate IsPart(v: string) {
    v != "" && Utf8Length(v) <= 512 && forall i :: 0 <= i < |v| ==> !IsControl(v[i]) && !IsWhitespace(v[i])
  }

  lemma PartIsValid(v: string)
    ensures ValidatePart(v) == Ok(v) <==> IsPart(v)
  {
    hide Utf8Length;
    if IsPart(v) {
      TrimKeeps(v);
    }
  }

  lemma ValidatedIsPart(key: string)
    ensures ValidatePart(key).Ok? ==> IsPart(ValidatePart(key).value)
  {
    hide Utf8Length, Trim;
  }

  lemma LegacyKeyShape(namespace: Option<string>, key: string)
    requires NamespacedKey(namespace, key, NamespacePrefix).Ok?
    ensures IsPart(Trim(key))
    ensures NamespacedKey(namespace, key, NamespacePrefix)
         == Ok(if namespace.Some? then namespace.value + ":" + Trim(key) else Trim(key))
  {
    ValidatedIsPart(key);
  }

  /** Within one namespace legacy keys are safe. */
  lemma LegacyKeyInjective(namespace: Option<string>, key1: string, key2: string)
    requires NamespacedKey(namespace, key1, NamespacePrefix).Ok?
    requires NamespacedKey(namespace, key1, NamespacePrefix) == NamespacedKey(namespace, key2, NamespacePrefix)
    ensures Trim(key1) == Trim(key2)
  {
    LegacyKeyShape(namespace, key1);
    LegacyKeyShape(namespace, key2);
    if namespace.Some? {
      DropPrefix(namespace.value + ":", Trim(key1), Trim(key2));
    }
  }

  /** `longer` is `shorter`, a colon and any text. */
  predicate Continues(longer: string, shorter: string) {
    |shorter| < |longer| && longer[..|shorter|] == shorter && longer[|shorter|] == ':'
  }

  /** What a configuration can be checked for: two stores whose legacy keys may collide. */
  predicate Overlap(ns1: Option<string>, ns2: Option<string>) {
    match (ns1, ns2)
    case (Some(a), Some(b)) => Continues(a, b) || Continues(b, a)
    case (Some(a), None) => Utf8Length(a) <= 510
    case (None, Some(b)) => Utf8Length(b) <= 510
    case (None, None) => false
  }

  ghost predicate Collide(ns1: Option<string>, ns2: Option<string>) {
    exists key1: string, key2: string ::
      && NamespacedKey(ns1, key1, NamespacePrefix).Ok?
      && NamespacedKey(ns1, key1, NamespacePrefix) == NamespacedKey(ns2, key2, NamespacePrefix)
  }

  lemma CommonKeyContinues(a: string, x: string, b: string, y: string)
    requires a + ":" + x == b + ":" + y && |a| < |b|
    ensures Continues(b, a)
  {
    var s := a + ":" + x;
    assert s[..|a|] == a && s[|a|] == ':';
    assert (b + ":" + y)[..|a|] == b[..|a|] && (b + ":" + y)[|a|] == b[|a|];
  }

  lemma SameLengthSame(a: string, x: string, b: string, y: string)
    requires a + ":" + x == b + ":" + y && |a| == |b|
    ensures a == b
  {
    assert (a + ":" + x)[..|a|] == a && (b + ":" + y)[..|a|] == b;
  }

  lemma TooLongForPlainKey(b: string, y: string)
    requires IsPart(b + ":" + y) && y != ""
    ensures Utf8Length(b) <= 510
  {
    Utf8LengthAppend(b + ":", y);
    Utf8LengthAppend(b, ":");
  }

  lemma CollisionsOverlap(ns1: Option<string>, key1: string, ns2: Option<string>, key2: string)
    requires ns1 != ns2 && NamespacedKey(ns1, key1, NamespacePrefix).Ok?
    requires NamespacedKey(ns1, key1, NamespacePrefix) == NamespacedKey(ns2, key2, NamespacePrefix)
    ensures Overlap(ns1, ns2)
  {
    hide NamespacedKey, Utf8Length, Continues, IsPart, Trim;
    LegacyKeyShape(ns1, key1);
    LegacyKeyShape(ns2, key2);
    var (x, y) := (Trim(key1), Trim(key2));
    assert x != "" && y != "" by { PartNotEmpty(x); PartNotEmpty(y); }
    match (ns1, ns2)
    case (Some(a), Some(b)) =>
      if |a| < |b| { CommonKeyContinues(a, x, b, y); }
      if |b| < |a| { CommonKeyContinues(b, y, a, x); }
      if |a| == |b| { SameLengthSame(a, x, b, y); }
    case (Some(a), None) => TooLongForPlainKey(a, x);
    case (None, Some(b)) => TooLongForPlainKey(b, y);
    case (None, None) =>
  }

  lemma PartNotEmpty(v: string)
    ensures IsPart(v) ==> v != ""
  {
  }

  /** Text short enough to take a colon and one more character is the start of a key. */
  lemma RoomForX(t: string)
    requires Utf8Length(t) <= 510 && forall i :: 0 <= i < |t| ==> !IsControl(t[i]) && !IsWhitespace(t[i])
    ensures IsPart(t + ":x")
  {
    Utf8LengthAppend(t, ":x");
    assert Utf8Length(":x") == 2;
  }

  /** What is left of a namespace behind its first `n` characters and the colon is that short. */
  lemma RestIsShort(longer: string, n: nat)
    requires 0 < n < |longer| && IsPart(longer)
    ensures Utf8Length(longer[n + 1..]) <= 510
  {
    Utf8LengthAppend(longer[..1], longer[1..]);
    Utf8LengthAppend(longer[1..n + 1], longer[n + 1..]);
    Utf8LengthAppend(longer[1..n], longer[n..n + 1]);
    assert longer == longer[..1] + longer[1..];
    assert longer[1..] == longer[1..n + 1] + longer[n + 1..];
    assert longer[1..n + 1] == longer[1..n] + longer[n..n + 1];
  }

  lemma XIsPart()
    ensures ValidatePart("x") == Ok("x")
  {
    assert IsPart("x");
    PartIsValid("x");
  }

  lemma ContinuedCollides(longer: string, shorter: string)
    requires IsPart(longer) && shorter != "" && Continues(longer, shorter)
    ensures Collide(Some(shorter), Some(longer))
  {
    var t := longer[|shorter| + 1..];
    RestIsShort(longer, |shorter|);
    RoomForX(t);
    hide IsPart, ValidatePart, Utf8Length;
    PartIsValid(t + ":x");
    XIsPart();
    assert longer == shorter + ":" + t;
    assert t + ":x" == t + ":" + "x";
    hide Continues;
    NamespacePrefixCollides(shorter, t, "x");
  }

  lemma PlainCollides(namespace: string)
    requires IsPart(namespace) && Utf8Length(namespace) <= 510
    ensures Collide(None, Some(namespace))
  {
    RoomForX(namespace);
    hide IsPart, ValidatePart, Utf8Length;
    PartIsValid(namespace + ":x");
    XIsPart();
    assert namespace + ":x" == namespace + ":" + "x";
    assert NamespacedKey(None, namespace + ":x", NamespacePrefix)
        == NamespacedKey(Some(namespace), "x", NamespacePrefix);
  }

  /** Two different stores have some legacy key in common exactly when one namespace is the other
      followed by a colon and any text, or when one store has no namespace and that of the other still
      leaves room for a key. */
  lemma LegacyKeysCollideIff(ns1: Option<string>, ns2: Option<string>)
    requires ValidNamespace(ns1) && ValidNamespace(ns2) && ns1 != ns2
    ensures Collide(ns1, ns2) <==> Overlap(ns1, ns2)
  {
    hide NamespacedKey, ValidatePart, Utf8Length, Continues, IsPart;
    if Collide(ns1, ns2) {
      var key1: string, key2: string :|
        && NamespacedKey(ns1, key1, NamespacePrefix).Ok?
        && NamespacedKey(ns1, key1, NamespacePrefix) == NamespacedKey(ns2, key2, NamespacePrefix);
      CollisionsOverlap(ns1, key1, ns2, key2);
    }
    if Overlap(ns1, ns2) {
      match (ns1, ns2) {
        case (Some(a), Some(b)) =>
          PartIsValid(a);
          PartIsValid(b);
          if Continues(a, b) { ContinuedCollides(a, b); } else { ContinuedCollides(b, a); }
        case (Some(a), None) =>
          PartIsValid(a);
          PlainCollides(a);
        case (None, Some(b)) =>
          PartIsValid(b);
          PlainCollides(b);
      }
    }
  }

  // ----- rate-limit bucket keys -----

  function RedisBucketKey(namespace: string, key: string, bucket: nat): string {
    "rl:" + (LengthPrefixed(namespace) + (":" + (LengthPrefixed(key) + (":" + NatToString(bucket)))))
  }

  lemma RedisBucketKeyInjective(ns1: string, key1: string, bucket1: nat, ns2: string, key2: string, bucket2: nat)
    requires RedisBucketKey(ns1, key1, bucket1) == RedisBucketKey(ns2, key2, bucket2)
    ensures ns1 == ns2 && key1 == key2 && bucket1 == bucket2
  {
    hide LengthPrefixed, NatToString;
    var (b1, b2) := (":" + NatToString(bucket1), ":" + NatToString(bucket2));
    var (t1, t2) := (LengthPrefixed(key1) + b1, LengthPrefixed(key2) + b2);
    var (u1, u2) := (LengthPrefixed(ns1) + (":" + t1), LengthPrefixed(ns2) + (":" + t2));
    DropPrefix("rl:", u1, u2);
    SelfDelimiting(ns1, ":" + t1, ns2, ":" + t2);
    DropPrefix(":", t1, t2);
    SelfDelimiting(key1, b1, key2, b2);
    DropPrefix(":", NatToString(bucket1), NatToString(bucket2));
    NatToStringInjective(bucket1, bucket2);
  }

  /** The text of a bucket key: `rl`, then namespace and key each behind its byte length, then the start. */
  lemma BucketKeyText(namespace: string, key: string, bucket: nat)
    ensures RedisBucketKey(namespace, key, bucket)
         == "rl:" + NatToString(|EncodeUtf8(namespace)|) + ":" + namespace + ":"
            + NatToString(|EncodeUtf8(key)|) + ":" + key + ":" + NatToString(bucket)
  {
    Utf8LengthCountsBytes(namespace);
    Utf8LengthCountsBytes(key);
    hide NatToString, Utf8Length, EncodeUtf8;
    BucketRegroup(NatToString(Utf8Length(namespace)), namespace, NatToString(Utf8Length(key)), key,
                  NatToString(bucket));
  }

  lemma BucketRegroup(m: string, a: string, n: string, b: string, c: string)
    ensures "rl:" + m + ":" + a + ":" + n + ":" + b + ":" + c
         == "rl:" + ((m + ":" + a) + (":" + ((n + ":" + b) + (":" + c))))
  {
  }

  // ----- subject keys -----

  /** `validate_key_part` of the rate limiter. */
  function ValidateKeyPart(value: string): (r: Result<string, KeyError>)
    ensures r.Ok? ==> r.value == Trim(value) != ""
  {
    if exists c :: c in value && IsControl(c) then Err(InvalidKey)
    else
      var v := Trim(value);
      if v == "" || Utf8Length(v) > 256 ||
         exists c :: c in v && !(IsAsciiAlphanumeric(c) || c in "-_.:/") then Err(InvalidKey)
      else Ok(v)
  }

  function LengthPrefixedSubjectKey(prefix: string, scope: string, kind: string, subject: string): string {
    "subject:v2:p" + (LengthPrefixed(prefix) + (":l" + (LengthPrefixed(scope) + (":" +
      (kind + ":" + ("s" + (LengthPrefixed(subject) + "")))))))
  }

  lemma LengthPrefixedSubjectKeyInjective(p1: string, l1: string, k1: string, s1: string,
                                          p2: string, l2: string, k2: string, s2: string)
    requires ':' !in k1 && ':' !in k2
    requires LengthPrefixedSubjectKey(p1, l1, k1, s1) == LengthPrefixedSubjectKey(p2, l2, k2, s2)
    ensures p1 == p2 && l1 == l2 && k1 == k2 && s1 == s2
  {
    hide LengthPrefixed;
    var (a1, a2) := (LengthPrefixed(s1) + "", LengthPrefixed(s2) + "");
    var (b1, b2) := (k1 + ":" + ("s" + a1), k2 + ":" + ("s" + a2));
    var (c1, c2) := (LengthPrefixed(l1) + (":" + b1), LengthPrefixed(l2) + (":" + b2));
    var (d1, d2) := (LengthPrefixed(p1) + (":l" + c1), LengthPrefixed(p2) + (":l" + c2));
    DropPrefix("subject:v2:p", d1, d2);
    SelfDelimiting(p1, ":l" + c1, p2, ":l" + c2);
    DropPrefix(":l", c1, c2);
    SelfDelimiting(l1, ":" + b1, l2, ":" + b2);
    DropPrefix(":", b1, b2);
    ColonDelimits(k1, "s" + a1, k2, "s" + a2);
    DropPrefix("s", a1, a2);
    SelfDelimiting(s1, "", s2, "");
  }

  /** The key for a subject: printed as it is when that gives a safe key, digested otherwise. */
  function SubjectKey(prefix: string, scope: string, subject: string, sha256Hex: string -> string):
    Result<string, KeyError>
  {
    match (ValidateKeyPart(prefix), ValidateKeyPart(scope))
    case (Ok(prefix), Ok(scope)) =>
      var subject := Trim(subject);
      if subject == "" then Err(InvalidKey)
      else
        var raw := LengthPrefixedSubjectKey(prefix, scope, "raw", subject);
        if ValidateKeyPart(subject).Ok? && ValidateKeyPart(raw).Ok? then ValidateKeyPart(raw)
        else ValidateKeyPart(LengthPrefixedSubjectKey(prefix, scope, "sha256", sha256Hex(subject)))
    case _ => Err(InvalidKey)
  }

  /** SHA-256 in hexadecimal, taken to be injective. */
  ghost predicate ModelsDigest(sha256Hex: string -> string) {
    && (forall a, b :: sha256Hex(a) == sha256Hex(b) ==> a == b)
    && (forall a :: sha256Hex(a) != "" && forall c :: c in sha256Hex(a) ==> IsAsciiAlphanumeric(c))
  }

  /** Different prefixes, labels or trimmed subjects never share a key, digested or not. */
  lemma SubjectKeyInjective(p1: string, l1: string, s1: string, p2: string, l2: string, s2: string,
                            sha256Hex: string -> string)
    requires ModelsDigest(sha256Hex)
    ensures var (key1, key2) := (SubjectKey(p1, l1, s1, sha256Hex), SubjectKey(p2, l2, s2, sha256Hex));
      key1.Ok? && key1 == key2 ==> Trim(p1) == Trim(p2) && Trim(l1) == Trim(l2) && Trim(s1) == Trim(s2)
  {
    hide LengthPrefixedSubjectKey, ValidateKeyPart, Trim;
    var (key1, key2) := (SubjectKey(p1, l1, s1, sha256Hex), SubjectKey(p2, l2, s2, sha256Hex));
    if key1.Ok? && key1 == key2 {
      var kind1, body1 := SubjectShape(p1, l1, s1, sha256Hex);
      var kind2, body2 := SubjectShape(p2, l2, s2, sha256Hex);
      LengthPrefixedSubjectKeyInjective(Trim(p1), Trim(l1), kind1, body1, Trim(p2), Trim(l2), kind2, body2);
    }
  }

  lemma SubjectShape(prefix: string, scope: string, subject: string, sha256Hex: string -> string)
    returns (kind: string, body: string)
    requires ModelsDigest(sha256Hex) && SubjectKey(prefix, scope, subject, sha256Hex).Ok?
    ensures SubjectKey(prefix, scope, subject, sha256Hex)
         == Ok(LengthPrefixedSubjectKey(Trim(prefix), Trim(scope), kind, body))
    ensures ':' !in kind
    ensures (kind, body) == ("raw", Trim(subject)) || (kind, body) == ("sha256", sha256Hex(Trim(subject)))
  {
    hide LengthPrefixedSubjectKey;
    var raw := LengthPrefixedSubjectKey(Trim(prefix), Trim(scope), "raw", Trim(subject));
    if ValidateKeyPart(Trim(subject)).Ok? && ValidateKeyPart(raw).Ok? {
      kind, body := "raw", Trim(subject);
    } else {
      kind, body := "sha256", sha256Hex(Trim(subject));
    }
    TrimmedEnds(subject);
    assert !IsWhitespace(body[|body| - 1]) by {
      if kind == "sha256" { assert body[|body| - 1] in body; }
    }
    SubjectKeyEnds(Trim(prefix), Trim(scope), kind, body);
    TrimKeeps(LengthPrefixedSubjectKey(Trim(prefix), Trim(scope), kind, body));
  }

  lemma SubjectKeyEnds(prefix: string, scope: string, kind: string, subject: string)
    requires subject != ""
    ensures var key := LengthPrefixedSubjectKey(prefix, scope, kind, subject);
      key != "" && key[0] == 's' && key[|key| - 1] == subject[|subject| - 1]
  {
  }

  // ----- which subject keys there are -----

  predicate SafeChar(c: char) {
    'a' <= c <= 'z' || 'A' <= c <= 'Z' || '0' <= c <= '9' || c in "-_.:/"
  }

  predicate SafeChars(s: string) {
    forall i :: 0 <= i < |s| ==> SafeChar(s[i])
  }

  /** 1 to 256 letters, digits and characters of `-_.:/`. */
  predicate SafeKey(s: string) {
    1 <= |s| <= 256 && SafeChars(s)
  }

  lemma SafeIsAscii(s: string)
    requires SafeChars(s)
    ensures Utf8Length(s) == |s|
  {
    forall i | 0 <= i < |s|
      ensures (s[i] as int) < 0x80
    {
      SafeCharIsAscii(s[i]);
    }
    hide SafeChar;
    AsciiLength(s);
  }

  lemma SafeCharIsAscii(c: char)
    requires SafeChar(c)
    ensures (c as int) < 0x80
  {
  }

  /** Exactly the texts without control characters that trim to a safe key are accepted. */
  lemma ValidateKeyPartIff(value: string)
    ensures ValidateKeyPart(value)
         == if NoControls(value) && SafeKey(Trim(value)) then Ok(Trim(value)) else Err(InvalidKey)
  {
    hide Trim, IsControl, NoControls, Utf8Length;
    var v := Trim(value);
    NoControlsIff(value);
    assert (exists c :: c in v && !(IsAsciiAlphanumeric(c) || c in "-_.:/")) <==>
           exists i :: 0 <= i < |v| && !(IsAsciiAlphanumeric(v[i]) || v[i] in "-_.:/");
    if SafeChars(v) { SafeIsAscii(v); }
  }

  /** The text of a subject key whose parts are safe. */
  function SubjectText(prefix: string, scope: string, kind: string, subject: string): string {
    "subject:v2:p" + NatToString(|prefix|) + ":" + prefix + ":l" + NatToString(|scope|) + ":" + scope + ":" + kind +
    ":s" + NatToString(|subject|) + ":" + subject
  }

  lemma SubjectTextIs(prefix: string, scope: string, kind: string, subject: string)
    requires SafeChars(prefix) && SafeChars(scope) && SafeChars(subject)
    ensures LengthPrefixedSubjectKey(prefix, scope, kind, subject) == SubjectText(prefix, scope, kind, subject)
  {
    SafeIsAscii(prefix);
    SafeIsAscii(scope);
    SafeIsAscii(subject);
    hide Utf8Length, NatToString;
    SubjectRegroup(NatToString(|prefix|), prefix, NatToString(|scope|), scope, kind, NatToString(|subject|), subject);
  }

  lemma SubjectRegroup(m: string, p: string, n: string, l: string, kind: string, k: string, s: string)
    ensures "subject:v2:p" + m + ":" + p + ":l" + n + ":" + l + ":" + kind + ":s" + k + ":" + s
         == "subject:v2:p" + ((m + ":" + p) + (":l" + ((n + ":" + l) + (":" +
           (kind + ":" + ("s" + ((k + ":" + s) + "")))))))
  {
  }

  lemma SafeAppend(a: string, b: string)
    ensures SafeChars(a + b) <==> SafeChars(a) && SafeChars(b)
  {
    if SafeChars(a + b) {
      assert forall i :: 0 <= i < |a| ==> (a + b)[i] == a[i];
      assert forall i :: 0 <= i < |b| ==> (a + b)[|a| + i] == b[i];
    }
  }

  lemma DigitsAreSafe(n: nat)
    ensures SafeChars(NatToString(n))
  {
    PrintedDigits(n);
  }

  lemma SubjectTextIsSafe(prefix: string, scope: string, kind: string, subject: string)
    requires SafeChars(prefix) && SafeChars(scope) && SafeChars(kind) && SafeChars(subject)
    ensures SafeChars(SubjectText(prefix, scope, kind, subject)) && SubjectText(prefix, scope, kind, subject) != ""
  {
    DigitsAreSafe(|prefix|);
    DigitsAreSafe(|scope|);
    DigitsAreSafe(|subject|);
    assert SafeChars("subject:v2:p") && SafeChars(":") && SafeChars(":l") && SafeChars(":s");
    hide SafeChars, NatToString;
    var t1 := "subject:v2:p" + NatToString(|prefix|) + ":" + prefix;
    SafeAppend("subject:v2:p", NatToString(|prefix|));
    SafeAppend("subject:v2:p" + NatToString(|prefix|), ":");
    SafeAppend("subject:v2:p" + NatToString(|prefix|) + ":", prefix);
    var t2 := t1 + ":l" + NatToString(|scope|) + ":" + scope;
    SafeAppend(t1, ":l");
    SafeAppend(t1 + ":l", NatToString(|scope|));
    SafeAppend(t1 + ":l" + NatToString(|scope|), ":");
    SafeAppend(t1 + ":l" + NatToString(|scope|) + ":", scope);
    SafeAppend(t2, ":");
    SafeAppend(t2 + ":", kind);
    var t3 := t2 + ":" + kind;
    SafeAppend(t3, ":s");
    SafeAppend(t3 + ":s", NatToString(|subject|));
    SafeAppend(t3 + ":s" + NatToString(|subject|), ":");
    SafeAppend(t3 + ":s" + NatToString(|subject|) + ":", subject);
  }

  lemma SafeTextValidates(text: string)
    requires SafeChars(text) && text != ""
    ensures ValidateKeyPart(text) == if |text| <= 256 then Ok(text) else Err(InvalidKey)
  {
    hide Trim;
    ValidateKeyPartIff(text);
    assert !IsWhitespace(text[0]) && !IsWhitespace(text[|text| - 1]);
    TrimKeeps(text);
    assert NoControls(text);
  }

  /** Prefix and label must be safe once trimmed, and the trimmed subject not empty. A safe subject whose
      key stays within 256 characters is printed as it is; any other is digested, and refused only if even
      that is too long. */
  lemma SubjectKeyAnswers(prefix: string, scope: string, subject: string, sha256Hex: string -> string)
    requires ModelsDigest(sha256Hex)
    ensures var (p, l, s) := (Trim(prefix), Trim(scope), Trim(subject));
      var (raw, hashed) := (SubjectText(p, l, "raw", s), SubjectText(p, l, "sha256", sha256Hex(s)));
      SubjectKey(prefix, scope, subject, sha256Hex)
        == if !NoControls(prefix) || !SafeKey(p) || !NoControls(scope) || !SafeKey(l) || s == "" then Err(InvalidKey)
           else if SafeKey(s) && |raw| <= 256 then Ok(raw)
           else if |hashed| <= 256 then Ok(hashed)
           else Err(InvalidKey)
  {
    hide Trim, ValidateKeyPart, LengthPrefixedSubjectKey, SubjectText, NoControls, SafeChars;
    ValidateKeyPartIff(prefix);
    ValidateKeyPartIff(scope);
    var (p, l, s) := (Trim(prefix), Trim(scope), Trim(subject));
    if NoControls(prefix) && SafeKey(p) && NoControls(scope) && SafeKey(l) && s != "" {
      ValidateTrimmed(subject);
      KindsAreSafe();
      if SafeChars(s) {
        SubjectTextIs(p, l, "raw", s);
        SubjectTextIsSafe(p, l, "raw", s);
        SafeTextValidates(SubjectText(p, l, "raw", s));
      }
      DigestIsSafe(s, sha256Hex);
      SubjectTextIs(p, l, "sha256", sha256Hex(s));
      SubjectTextIsSafe(p, l, "sha256", sha256Hex(s));
      SafeTextValidates(SubjectText(p, l, "sha256", sha256Hex(s)));
    }
  }

  lemma KindsAreSafe()
    ensures SafeChars("raw") && SafeChars("sha256")
  {
  }

  lemma DigestIsSafe(s: string, sha256Hex: string -> string)
    requires ModelsDigest(sha256Hex)
    ensures SafeChars(sha256Hex(s))
  {
    var h := sha256Hex(s);
    assert forall i :: 0 <= i < |h| ==> h[i] in h;
  }

  lemma ValidateTrimmed(subject: string)
    requires Trim(subject) != ""
    ensures ValidateKeyPart(Trim(subject)).Ok? <==> SafeKey(Trim(subject))
  {
    hide Trim;
    ValidateKeyPartIff(Trim(subject));
    TrimmedEnds(subject);
  }
}
