// The byte stream fed to the device hash: tagged, length-prefixed fields behind a domain separator.
module DeviceHash {
  import opened Basics
  import opened Wrappers
  import opened Text

  const U32_RANGE: nat := 0x1_0000_0000

  /** The big-endian bytes of the low 32 bits. */
  function BigEndian32(n: nat): (r: seq<Byte>)
    ensures |r| == 4
  {
    var m := n % U32_RANGE;
    [m / 0x100 / 0x100 / 0x100, m / 0x100 / 0x100 % 0x100, m / 0x100 % 0x100, m % 0x100]
  }

  /** Four digits in base 256, the most significant first. */
  function Value(b0: int, b1: int, b2: int, b3: int): int {
    b0 * 0x100_0000 + b1 * 0x1_0000 + b2 * 0x100 + b3
  }

  lemma BigEndianInjective(m: nat, n: nat)
    requires m < U32_RANGE && n < U32_RANGE && BigEndian32(m) == BigEndian32(n)
    ensures m == n
  {
    var (a, b) := (BigEndian32(m), BigEndian32(n));
    BigEndianValue(m);
    BigEndianValue(n);
    assert a[0] == b[0] && a[1] == b[1] && a[2] == b[2] && a[3] == b[3];
  }

  lemma BigEndianValue(n: nat)
    requires n < 0x1_0000_0000
    ensures var b := BigEndian32(n); n == Value(b[0], b[1], b[2], b[3])
  {
  }

  /** `(len as u32).to_be_bytes()` and the bytes; the cast truncates. */
  function LengthPrefixed(value: seq<Byte>): seq<Byte> {
    BigEndian32(|value|) + value
  }

  datatype Material =
    | DeviceId(id: seq<Byte>)
    | IpUserAgent(ip: Option<seq<Byte>>, userAgent: Option<seq<Byte>>)

  const DEVICE_TAG: seq<Byte> := AsciiBytes("device-id:")
  const IP_UA_TAG: seq<Byte> := AsciiBytes("ip-ua:")
  const IP_TAG: seq<Byte> := AsciiBytes("ip:")
  const UA_TAG: seq<Byte> := AsciiBytes("ua:")
  const COLON: seq<Byte> := AsciiBytes(":")

  function Tagged(tag: seq<Byte>, field: Option<seq<Byte>>): seq<Byte> {
    if field.Some? then tag + LengthPrefixed(field.value) else []
  }

  function MaterialBytes(material: Material): seq<Byte> {
    match material
    case DeviceId(id) => DEVICE_TAG + LengthPrefixed(id)
    case IpUserAgent(ip, userAgent) => IP_UA_TAG + (Tagged(IP_TAG, ip) + Tagged(UA_TAG, userAgent))
  }

  /** `bytes` are four bytes that spell the length of `value` in base 256, and the value. */
  predicate SpellsLength(bytes: seq<Byte>, value: seq<Byte>) {
    && |bytes| == 4 + |value| && bytes[4..] == value
    && Value(bytes[0], bytes[1], bytes[2], bytes[3]) == |value|
  }

  lemma LengthSpelled(value: seq<Byte>)
    requires |value| < 0x1_0000_0000
    ensures SpellsLength(LengthPrefixed(value), value)
  {
    BigEndianValue(|value|);
  }

  /** The tags are these texts. */
  lemma TagTexts()
    ensures DecodeUtf8(DEVICE_TAG) == Some("device-id:") && DecodeUtf8(IP_UA_TAG) == Some("ip-ua:")
    ensures DecodeUtf8(IP_TAG) == Some("ip:") && DecodeUtf8(UA_TAG) == Some("ua:") && DecodeUtf8(COLON) == Some(":")
  {
    hide DecodeUtf8, AsciiBytes;
    DecodeAscii("device-id:");
    DecodeAscii("ip-ua:");
    DecodeAscii("ip:");
    DecodeAscii("ua:");
    DecodeAscii(":");
  }

  /** A hash in progress; `fed` is everything it has absorbed. */
  class Digest {
    var fed: seq<Byte>

    constructor ()
      ensures fed == []
    {
      fed := [];
    }

    method UpdateBytes(bytes: seq<Byte>)
      modifies this
      ensures fed == old(fed) + bytes
    {
      fed := fed + bytes;
    }
  }

  method UpdateLenPrefixed(digest: Digest, value: seq<Byte>)
    modifies digest
    ensures digest.fed == old(digest.fed) + LengthPrefixed(value)
  {
    digest.UpdateBytes(BigEndian32(|value|));
    digest.UpdateBytes(value);
    assert old(digest.fed) + BigEndian32(|value|) + value == old(digest.fed) + LengthPrefixed(value);
  }

  /** The `if let Some(field)` steps. */
  method UpdateTagged(digest: Digest, tag: seq<Byte>, field: Option<seq<Byte>>)
    modifies digest
    ensures digest.fed == old(digest.fed) + Tagged(tag, field)
  {
    if field.Some? {
      digest.UpdateBytes(tag);
      UpdateLenPrefixed(digest, field.value);
      assert old(digest.fed) + tag + LengthPrefixed(field.value) == old(digest.fed) + Tagged(tag, field);
    } else {
      assert old(digest.fed) + [] == old(digest.fed);
    }
  }

  method UpdateHashMaterial(digest: Digest, material: Material, domainSeparator: seq<Byte>)
    modifies digest
    ensures digest.fed == old(digest.fed) + (domainSeparator + COLON + MaterialBytes(material))
  {
    hide LengthPrefixed, Tagged, DEVICE_TAG, IP_UA_TAG, IP_TAG, UA_TAG, COLON;
    digest.UpdateBytes(domainSeparator);
    digest.UpdateBytes(COLON);
    match material {
      case DeviceId(id) =>
        digest.UpdateBytes(DEVICE_TAG);
        UpdateLenPrefixed(digest, id);
        Regroup(old(digest.fed), domainSeparator, COLON, DEVICE_TAG, LengthPrefixed(id), []);
        assert LengthPrefixed(id) + [] == LengthPrefixed(id);
      case IpUserAgent(ip, userAgent) =>
        digest.UpdateBytes(IP_UA_TAG);
        UpdateTagged(digest, IP_TAG, ip);
        UpdateTagged(digest, UA_TAG, userAgent);
        Regroup(old(digest.fed), domainSeparator, COLON, IP_UA_TAG, Tagged(IP_TAG, ip), Tagged(UA_TAG, userAgent));
    }
  }

  lemma Regroup(a: seq<Byte>, b: seq<Byte>, c: seq<Byte>, d: seq<Byte>, e: seq<Byte>, f: seq<Byte>)
    ensures a + b + c + d + e + f == a + (b + c + (d + (e + f)))
    ensures a + b + c + d + e + [] == a + b + c + d + e
  {
  }

  // ----- unambiguity -----

  predicate FieldFits(field: Option<seq<Byte>>) {
    field.Some? ==> |field.value| < 0x1_0000_0000
  }

  /** Every field is shorter than 2^32 bytes, so that no length is truncated. */
  predicate Fits(material: Material) {
    match material
    case DeviceId(id) => |id| < 0x1_0000_0000
    case IpUserAgent(ip, userAgent) => FieldFits(ip) && FieldFits(userAgent)
  }

  lemma SelfDelimiting(a: seq<Byte>, x: seq<Byte>, b: seq<Byte>, y: seq<Byte>)
    requires |a| < U32_RANGE && |b| < U32_RANGE && LengthPrefixed(a) + x == LengthPrefixed(b) + y
    ensures a == b && x == y
  {
    hide BigEndian32;
    var (s, t) := (LengthPrefixed(a) + x, LengthPrefixed(b) + y);
    assert s[..4] == BigEndian32(|a|) && t[..4] == BigEndian32(|b|);
    BigEndianInjective(|a|, |b|);
    assert a == s[4..4 + |a|] && b == t[4..4 + |b|];
    assert x == s[4 + |a|..] && y == t[4 + |b|..];
  }

  lemma TaggedInjective(tag: seq<Byte>, a: Option<seq<Byte>>, b: Option<seq<Byte>>)
    requires tag != [] && FieldFits(a) && FieldFits(b) && Tagged(tag, a) == Tagged(tag, b)
    ensures a == b
  {
    hide LengthPrefixed;
    if a.Some? && b.Some? {
      DropPrefix(tag, LengthPrefixed(a.value), LengthPrefixed(b.value));
      assert LengthPrefixed(a.value) + [] == LengthPrefixed(b.value) + [];
      SelfDelimiting(a.value, [], b.value, []);
    }
  }

  lemma TagsDiffer()
    ensures IP_TAG != [] && UA_TAG != [] && DEVICE_TAG != [] && IP_UA_TAG != []
    ensures IP_TAG[0] != UA_TAG[0] && DEVICE_TAG[0] != IP_UA_TAG[0]
  {
  }

  lemma PairInjective(ip1: Option<seq<Byte>>, ua1: Option<seq<Byte>>, ip2: Option<seq<Byte>>, ua2: Option<seq<Byte>>)
    requires FieldFits(ip1) && FieldFits(ua1) && FieldFits(ip2) && FieldFits(ua2)
    requires Tagged(IP_TAG, ip1) + Tagged(UA_TAG, ua1) == Tagged(IP_TAG, ip2) + Tagged(UA_TAG, ua2)
    ensures ip1 == ip2 && ua1 == ua2
  {
    TagsDiffer();
    hide LengthPrefixed, IP_TAG, UA_TAG, Tagged;
    var (u1, u2) := (Tagged(UA_TAG, ua1), Tagged(UA_TAG, ua2));
    TaggedHead(IP_TAG, ip1, u1);
    TaggedHead(IP_TAG, ip2, u2);
    TaggedHead(UA_TAG, ua1, []);
    TaggedHead(UA_TAG, ua2, []);
    if ip1.Some? && ip2.Some? {
      DropPrefix(IP_TAG, LengthPrefixed(ip1.value) + u1, LengthPrefixed(ip2.value) + u2);
      SelfDelimiting(ip1.value, u1, ip2.value, u2);
    }
    TaggedInjective(UA_TAG, ua1, ua2);
  }

  lemma TaggedHead(tag: seq<Byte>, field: Option<seq<Byte>>, rest: seq<Byte>)
    requires tag != []
    ensures Tagged(tag, field) + rest == if field.Some? then tag + (LengthPrefixed(field.value) + rest) else rest
    ensures field.Some? ==>
              (Tagged(tag, field) + rest)[0] == tag[0] && Tagged(tag, field) != [] && Tagged(tag, field)[0] == tag[0]
    ensures field.None? ==> Tagged(tag, field) == []
  {
    hide LengthPrefixed;
  }

  /** Behind one domain separator, different materials feed different bytes. */
  lemma MaterialInjective(domain: seq<Byte>, m1: Material, m2: Material)
    requires Fits(m1) && Fits(m2)
    requires domain + COLON + MaterialBytes(m1) == domain + COLON + MaterialBytes(m2)
    ensures m1 == m2
  {
    DropPrefix(domain + COLON, MaterialBytes(m1), MaterialBytes(m2));
    TagsDiffer();
    hide LengthPrefixed, DEVICE_TAG, IP_UA_TAG, Tagged;
    assert MaterialBytes(m1)[0] == MaterialBytes(m2)[0];
    match (m1, m2) {
      case (DeviceId(a), DeviceId(b)) =>
        DropPrefix(DEVICE_TAG, LengthPrefixed(a), LengthPrefixed(b));
        assert LengthPrefixed(a) + [] == LengthPrefixed(b) + [];
        SelfDelimiting(a, [], b, []);
      case (IpUserAgent(ip1, ua1), IpUserAgent(ip2, ua2)) =>
        DropPrefix(IP_UA_TAG, Tagged(IP_TAG, ip1) + Tagged(UA_TAG, ua1), Tagged(IP_TAG, ip2) + Tagged(UA_TAG, ua2));
        PairInjective(ip1, ua1, ip2, ua2);
      case (DeviceId(_), IpUserAgent(_, _)) =>
      case (IpUserAgent(_, _), DeviceId(_)) =>
    }
  }

  // ----- choosing the material -----

  /** The fields of a request after the policy's normalization; absent ones did not survive it. */
  datatype Input = Input(deviceId: Option<seq<Byte>>, ip: Option<seq<Byte>>, userAgent: Option<seq<Byte>>)

  /** The device id when there is one, else whatever of address and user agent there is. */
  function DeviceHashMaterial(input: Input): (r: Option<Material>)
    ensures r.None? <==> input.deviceId.None? && input.ip.None? && input.userAgent.None?
    ensures r.Some? && r.value.DeviceId? ==> input.deviceId == Some(r.value.id)
    ensures r.Some? && r.value.IpUserAgent? ==>
              input.deviceId.None? && input.ip == r.value.ip && input.userAgent == r.value.userAgent
  {
    if input.deviceId.Some? then Some(DeviceId(input.deviceId.value))
    else if input.ip.None? && input.userAgent.None? then None
    else Some(IpUserAgent(input.ip, input.userAgent))
  }

  predicate InputFits(input: Input) {
    FieldFits(input.deviceId) && FieldFits(input.ip) && FieldFits(input.userAgent)
  }

  /** Two requests feed the hash the same bytes exactly when they carry the same device id, or neither
      carries one and they agree on address and user agent. */
  lemma SameBytesIff(domain: seq<Byte>, a: Input, b: Input)
    requires InputFits(a) && InputFits(b) && DeviceHashMaterial(a).Some? && DeviceHashMaterial(b).Some?
    ensures domain + COLON + MaterialBytes(DeviceHashMaterial(a).value)
         == domain + COLON + MaterialBytes(DeviceHashMaterial(b).value)
       <==> a.deviceId == b.deviceId && (a.deviceId.None? ==> a.ip == b.ip && a.userAgent == b.userAgent)
  {
    hide MaterialBytes;
    var (m, n) := (DeviceHashMaterial(a).value, DeviceHashMaterial(b).value);
    if domain + COLON + MaterialBytes(m) == domain + COLON + MaterialBytes(n) {
      MaterialInjective(domain, m, n);
    }
  }

  /** What a request feeds the hash behind the separator and a colon: `device-id:` and the device id if it
      carries one, otherwise `ip-ua:` and then `ip:` and `ua:` with whichever of the two there is, each
      behind four length bytes. A request with none of the three has no hash. */
  lemma RequestBytes(input: Input)
    requires InputFits(input)
    ensures DeviceHashMaterial(input).None? <==> input == Input(None, None, None)
    ensures input.deviceId.Some? ==>
              exists bytes :: SpellsLength(bytes, input.deviceId.value) &&
                MaterialBytes(DeviceHashMaterial(input).value) == EncodeUtf8("device-id:") + bytes
    ensures input.deviceId.None? && (input.ip.Some? || input.userAgent.Some?) ==>
              exists ip, ua :: SpelledField("ip:", input.ip, ip) && SpelledField("ua:", input.userAgent, ua) &&
                MaterialBytes(DeviceHashMaterial(input).value) == EncodeUtf8("ip-ua:") + (ip + ua)
  {
    hide DEVICE_TAG, IP_UA_TAG, IP_TAG, UA_TAG, COLON, LengthPrefixed, EncodeUtf8, DecodeUtf8, SpellsLength;
    TagTexts();
    DecodesIffEncoded(DEVICE_TAG, "device-id:");
    DecodesIffEncoded(IP_UA_TAG, "ip-ua:");
    DecodesIffEncoded(IP_TAG, "ip:");
    DecodesIffEncoded(UA_TAG, "ua:");
    if input.deviceId.Some? {
      LengthSpelled(input.deviceId.value);
    } else {
      FieldSpelled("ip:", IP_TAG, input.ip);
      FieldSpelled("ua:", UA_TAG, input.userAgent);
    }
  }

  /** A field that is there is its tag, the length of its value and the value; one that is not is nothing. */
  predicate SpelledField(tag: string, field: Option<seq<Byte>>, bytes: seq<Byte>) {
    if field.None? then bytes == []
    else
      var t := EncodeUtf8(tag);
      t <= bytes && SpellsLength(bytes[|t|..], field.value)
  }

  lemma FieldSpelled(text: string, tag: seq<Byte>, field: Option<seq<Byte>>)
    requires tag == EncodeUtf8(text) && FieldFits(field)
    ensures SpelledField(text, field, Tagged(tag, field))
  {
    hide EncodeUtf8, LengthPrefixed, SpellsLength;
    if field.Some? {
      LengthSpelled(field.value);
      assert (tag + LengthPrefixed(field.value))[|tag|..] == LengthPrefixed(field.value);
    }
  }
}
