// Bytes, UTF-8 (RFC 3629) and the whitespace rules of `str::trim`.
module Text {
  import opened Wrappers

  type Byte = b: int | 0 <= b < 256

  const NEWLINE: Byte := 10

  predicate IsContinuation(b: Byte) {
    0x80 <= b < 0xC0
  }

  /** The second byte allowed after a three- or four-byte lead: no overlong forms,
      no surrogates, nothing above U+10FFFF. */
  predicate IsSecond(lead: Byte, b: Byte) {
    match lead
    case 0xE0 => 0xA0 <= b < 0xC0
    case 0xED => 0x80 <= b < 0xA0
    case 0xF0 => 0x90 <= b < 0xC0
    case 0xF4 => 0x80 <= b < 0x90
    case _ => IsContinuation(b)
  }

  /** The payload bits of a byte whose tag bits are `tag`. */
  function Bits(b: int, tag: int): int {
    b - tag
  }

  /** The first character of a byte sequence and the number of bytes it takes, if they are well formed. */
  function FirstChar(b: seq<Byte>): (r: Option<(char, nat)>)
    requires b != []
    ensures r.Some? ==> 1 <= r.value.1 <= |b|
  {
    if b[0] < 0x80 then
      Some((b[0] as char, 1))
    else if 0xC2 <= b[0] < 0xE0 && |b| >= 2 && IsContinuation(b[1]) then
      Some(((Bits(b[0], 0xC0) * 0x40 + Bits(b[1], 0x80)) as char, 2))
    else if 0xE0 <= b[0] < 0xF0 && |b| >= 3 && IsSecond(b[0], b[1]) && IsContinuation(b[2]) then
      Some((((Bits(b[0], 0xE0) * 0x40 + Bits(b[1], 0x80)) * 0x40 + Bits(b[2], 0x80)) as char, 3))
    else if 0xF0 <= b[0] < 0xF5 && |b| >= 4 && IsSecond(b[0], b[1]) && IsContinuation(b[2]) && IsContinuation(b[3]) then
      Some(((((Bits(b[0], 0xF0) * 0x40 + Bits(b[1], 0x80)) * 0x40 + Bits(b[2], 0x80)) * 0x40 +
            Bits(b[3], 0x80)) as char, 4))
    else
      None
  }

  /** Strict UTF-8 decoding; None is the reader's "stream did not contain valid UTF-8". */
  function DecodeUtf8(b: seq<Byte>): (r: Option<string>)
    ensures r.Some? ==> |r.value| <= |b|
  {
    if b == [] then Some("")
    else
      match FirstChar(b)
      case None => None
      case Some((c, width)) => Prepend(c, DecodeUtf8(b[width..]))
  }

  function Prepend(c: char, rest: Option<string>): Option<string> {
    if rest.Some? then Some([c] + rest.value) else None
  }

  /** The UTF-8 form of one character. */
  function EncodeChar(c: char): (r: seq<Byte>)
    ensures 1 <= |r| <= 4
  {
    var n := c as int;
    if n < 0x80 then [n]
    else if n < 0x800 then [0xC0 + n / 0x40, 0x80 + n % 0x40]
    else if n < 0x10000 then [0xE0 + n / 0x40 / 0x40, 0x80 + n / 0x40 % 0x40, 0x80 + n % 0x40]
    else [0xF0 + n / 0x40 / 0x40 / 0x40, 0x80 + n / 0x40 / 0x40 % 0x40, 0x80 + n / 0x40 % 0x40, 0x80 + n % 0x40]
  }

  function EncodeUtf8(s: string): seq<Byte> {
    if s == "" then [] else EncodeChar(s[0]) + EncodeUtf8(s[1..])
  }

  lemma FirstCharOfEncoded(c: char, rest: seq<Byte>)
    ensures FirstChar(EncodeChar(c) + rest) == Some((c, |EncodeChar(c)|))
  {
  }

  lemma EncodedFirstChar(b: seq<Byte>)
    requires b != [] && FirstChar(b).Some?
    ensures EncodeChar(FirstChar(b).value.0) == b[..FirstChar(b).value.1]
  {
    var n := FirstChar(b).value.0 as int;
    match FirstChar(b).value.1 {
      case 1 =>
      case 2 => Shifted(Bits(b[0], 0xC0), Bits(b[1], 0x80));
      case 3 =>
        Shifted(Bits(b[0], 0xE0), Bits(b[1], 0x80));
        Shifted(Bits(b[0], 0xE0) * 0x40 + Bits(b[1], 0x80), Bits(b[2], 0x80));
      case _ =>
        Shifted(Bits(b[0], 0xF0), Bits(b[1], 0x80));
        Shifted(Bits(b[0], 0xF0) * 0x40 + Bits(b[1], 0x80), Bits(b[2], 0x80));
        Shifted((Bits(b[0], 0xF0) * 0x40 + Bits(b[1], 0x80)) * 0x40 + Bits(b[2], 0x80), Bits(b[3], 0x80));
    }
  }

  /** Appending six bits and splitting them off again. */
  lemma Shifted(high: int, low: int)
    requires 0 <= high && 0 <= low < 0x40
    ensures (high * 0x40 + low) / 0x40 == high && (high * 0x40 + low) % 0x40 == low
  {
  }

  lemma {:induction false} DecodeEncoded(s: string)
    ensures DecodeUtf8(EncodeUtf8(s)) == Some(s)
  {
    hide FirstChar, EncodeChar;
    if s != "" {
      var rest := EncodeUtf8(s[1..]);
      DecodeEncoded(s[1..]);
      FirstCharOfEncoded(s[0], rest);
      assert (EncodeChar(s[0]) + rest)[|EncodeChar(s[0])|..] == rest;
      assert s == [s[0]] + s[1..];
    }
  }

  lemma {:induction false} EncodeDecoded(b: seq<Byte>)
    requires DecodeUtf8(b).Some?
    ensures EncodeUtf8(DecodeUtf8(b).value) == b
    decreases |b|
  {
    hide FirstChar, EncodeChar;
    if b != [] {
      var (c, width) := FirstChar(b).value;
      EncodedFirstChar(b);
      EncodeDecoded(b[width..]);
      assert DecodeUtf8(b).value[1..] == DecodeUtf8(b[width..]).value;
      assert b == b[..width] + b[width..];
    }
  }

  /** Decoding accepts exactly the UTF-8 forms of texts, and gives the text back. */
  lemma DecodesIffEncoded(b: seq<Byte>, s: string)
    ensures DecodeUtf8(b) == Some(s) <==> b == EncodeUtf8(s)
  {
    DecodeEncoded(s);
    if DecodeUtf8(b) == Some(s) { EncodeDecoded(b); }
  }

  /** `str::len`: the number of bytes of the UTF-8 form. */
  function Utf8Length(s: string): nat {
    if s == "" then 0
    else
      var n := s[0] as int;
      (if n < 0x80 then 1 else if n < 0x800 then 2 else if n < 0x10000 then 3 else 4) + Utf8Length(s[1..])
  }

  lemma {:induction false} Utf8LengthCountsBytes(s: string)
    ensures Utf8Length(s) == |EncodeUtf8(s)|
  {
    if s != "" { Utf8LengthCountsBytes(s[1..]); }
  }

  predicate IsAsciiAlphanumeric(c: char) {
    '0' <= c <= '9' || 'A' <= c <= 'Z' || 'a' <= c <= 'z'
  }

  function ToUpper(c: char): char {
    if 'a' <= c <= 'z' then (c as int - 32) as char else c
  }

  function ToLower(c: char): char {
    if 'A' <= c <= 'Z' then (c as int + 32) as char else c
  }

  /** `to_ascii_uppercase` */
  function Uppercase(s: string): (r: string)
    ensures |r| == |s|
  {
    if s == "" then "" else [ToUpper(s[0])] + Uppercase(s[1..])
  }

  /** `to_ascii_lowercase` */
  function Lowercase(s: string): (r: string)
    ensures |r| == |s|
  {
    if s == "" then "" else [ToLower(s[0])] + Lowercase(s[1..])
  }

  /** Letter by letter: only `a` to `z` change, each to its capital. */
  lemma {:induction false} UppercaseAt(s: string, i: nat)
    requires i < |s|
    ensures Uppercase(s)[i] == if 'a' <= s[i] <= 'z' then 'A' + (s[i] - 'a') else s[i]
  {
    if i > 0 { UppercaseAt(s[1..], i - 1); }
  }

  lemma {:induction false} LowercaseAt(s: string, i: nat)
    requires i < |s|
    ensures Lowercase(s)[i] == if 'A' <= s[i] <= 'Z' then 'a' + (s[i] - 'A') else s[i]
  {
    if i > 0 { LowercaseAt(s[1..], i - 1); }
  }

  predicate IsAscii(s: string) {
    forall c :: c in s ==> (c as int) < 0x80
  }

  function AsciiBytes(s: string): (r: seq<Byte>)
    requires IsAscii(s)
    ensures |r| == |s|
  {
    if s == "" then [] else
      assert s[0] in s && forall c :: c in s[1..] ==> c in s;
      [s[0] as int] + AsciiBytes(s[1..])
  }

  /** ASCII text survives encoding and decoding. */
  lemma {:induction false} DecodeAscii(s: string)
    requires IsAscii(s)
    ensures DecodeUtf8(AsciiBytes(s)) == Some(s)
  {
    if s != "" {
      assert s[0] in s && forall c :: c in s[1..] ==> c in s;
      DecodeAscii(s[1..]);
      FirstCharOfEncoded(s[0], AsciiBytes(s[1..]));
      hide FirstChar;
      assert AsciiBytes(s)[1..] == AsciiBytes(s[1..]);
      assert s == [s[0]] + s[1..];
    }
  }

  /** The Unicode White_Space property. */
  predicate IsWhitespace(c: char) {
    var n := c as int;
    0x09 <= n <= 0x0D || n == 0x20 || n == 0x85 || n == 0xA0 || n == 0x1680 || 0x2000 <= n <= 0x200A ||
    n == 0x2028 || n == 0x2029 || n == 0x202F || n == 0x205F || n == 0x3000
  }

  /** All white space, spelled out. */
  const WHITE_SPACE := "\t\n\U{000B}\U{000C}\r \U{0085}\U{00A0}\U{1680}\U{2000}\U{2001}\U{2002}\U{2003}\U{2004}" +
                       "\U{2005}\U{2006}\U{2007}\U{2008}\U{2009}\U{200A}\U{2028}\U{2029}\U{202F}\U{205F}\U{3000}"

  lemma WhitespaceIff(c: char)
    ensures IsWhitespace(c) <==> c in WHITE_SPACE
  {
  }

  /** The Unicode category Cc. */
  predicate IsControl(c: char) {
    var n := c as int;
    n < 0x20 || 0x7F <= n < 0xA0
  }

  /** The control characters are those before the space, delete, and those before the no-break space. */
  lemma ControlIff(c: char)
    ensures IsControl(c) <==> c < ' ' || ('~' < c && c < '\U{00A0}')
  {
  }

  predicate NoControls(s: string) {
    forall i :: 0 <= i < |s| ==> !(s[i] < ' ' || '~' < s[i] < '\U{00A0}')
  }

  lemma NoControlsIff(s: string)
    ensures NoControls(s) <==> !exists c :: c in s && IsControl(c)
  {
    forall i | 0 <= i < |s|
      ensures IsControl(s[i]) <==> s[i] < ' ' || '~' < s[i] < '\U{00A0}'
    {
      ControlIff(s[i]);
    }
    assert forall c :: c in s ==> exists i :: 0 <= i < |s| && s[i] == c;
  }

  /** Neither a control character nor white space. */
  predicate PlainChar(c: char) {
    ' ' < c && !('~' < c <= '\U{00A0}') && c !in WHITE_SPACE
  }

  lemma PlainCharIff(c: char)
    ensures PlainChar(c) <==> !IsControl(c) && !IsWhitespace(c)
  {
    WhitespaceIff(c);
    ControlIff(c);
    hide IsControl, IsWhitespace;
    assert ' ' in WHITE_SPACE && '\U{00A0}' in WHITE_SPACE;
  }

  function TrimEnd(s: string): (r: string)
    ensures r <= s
  {
    if s != "" && IsWhitespace(s[|s| - 1]) then TrimEnd(s[..|s| - 1]) else s
  }

  function TrimStart(s: string): (r: string)
    ensures |r| <= |s|
  {
    if s != "" && IsWhitespace(s[0]) then TrimStart(s[1..]) else s
  }

  function Trim(s: string): (r: string)
    ensures |r| <= |s|
  {
    TrimStart(TrimEnd(s))
  }

  /** Text that neither starts nor ends with whitespace is left alone. */
  lemma TrimKeeps(s: string)
    requires s != "" && !IsWhitespace(s[0]) && !IsWhitespace(s[|s| - 1])
    ensures Trim(s) == s
  {
  }

  /** Trimmed text neither starts nor ends with whitespace, so trimming again changes nothing. */
  lemma TrimmedEnds(s: string)
    requires Trim(s) != ""
    ensures !IsWhitespace(Trim(s)[0]) && !IsWhitespace(Trim(s)[|Trim(s)| - 1])
    ensures Trim(Trim(s)) == Trim(s)
  {
    TrimEndStops(s);
    TrimStartStops(TrimEnd(s));
  }

  lemma {:induction false} TrimEndStops(s: string)
    ensures TrimEnd(s) != "" ==> !IsWhitespace(TrimEnd(s)[|TrimEnd(s)| - 1])
  {
    if s != "" && IsWhitespace(s[|s| - 1]) { TrimEndStops(s[..|s| - 1]); }
  }

  lemma {:induction false} TrimStartStops(s: string)
    ensures TrimStart(s) != "" ==> !IsWhitespace(TrimStart(s)[0]) && TrimStart(s)[|TrimStart(s)| - 1] == s[|s| - 1]
  {
    if s != "" && IsWhitespace(s[0]) { TrimStartStops(s[1..]); }
  }

  /** `t` is what is left of `s` without the white space at its ends: it stands from `a` to `b`. */
  predicate StandsIn(t: string, s: string, a: nat, b: nat) {
    && a <= b <= |s| && t == s[a..b]
    && (forall i :: 0 <= i < a ==> s[i] in WHITE_SPACE)
    && (forall i :: b <= i < |s| ==> s[i] in WHITE_SPACE)
    && (a < b ==> s[a] !in WHITE_SPACE && s[b - 1] !in WHITE_SPACE)
  }

  /** Trimming takes the white space off both ends and nothing else. */
  lemma TrimIff(s: string, t: string)
    ensures Trim(s) == t <==> exists a: nat, b: nat :: StandsIn(t, s, a, b)
  {
    hide WHITE_SPACE, IsWhitespace, Trim, StandsIn;
    var a, b := TrimStands(s);
    if exists a: nat, b: nat :: StandsIn(t, s, a, b) {
      var c: nat, d: nat :| StandsIn(t, s, c, d);
      StandsOnce(Trim(s), t, s, a, b, c, d);
    }
  }

  lemma StandsOnce(t: string, u: string, s: string, a: nat, b: nat, c: nat, d: nat)
    requires StandsIn(t, s, a, b) && StandsIn(u, s, c, d)
    ensures t == u
  {
    hide WHITE_SPACE;
    assert a < c && a < |s| ==> s[a] in WHITE_SPACE;
    assert c < a && c < |s| ==> s[c] in WHITE_SPACE;
    assert d < b ==> s[b - 1] in WHITE_SPACE;
    assert b < d ==> s[d - 1] in WHITE_SPACE;
  }

  lemma TrimSlice(s: string) returns (a: nat, b: nat)
    ensures a <= b <= |s| && Trim(s) == s[a..b]
    ensures forall i :: 0 <= i < a || b <= i < |s| ==> IsWhitespace(s[i])
    ensures a < b ==> !IsWhitespace(s[a]) && !IsWhitespace(s[b - 1])
  {
    hide IsWhitespace, TrimEnd, TrimStart;
    var t := TrimEnd(s);
    TrimEndStops(s);
    TrimStartStops(t);
    TrimEndDrops(s);
    TrimStartDrops(t);
    a, b := |t| - |Trim(s)|, |t|;
    assert t == s[..b] && Trim(s) == t[a..];
  }

  lemma TrimStands(s: string) returns (a: nat, b: nat)
    ensures StandsIn(Trim(s), s, a, b)
  {
    hide WHITE_SPACE, IsWhitespace, Trim;
    a, b := TrimSlice(s);
    forall i | 0 <= i < |s|
      ensures IsWhitespace(s[i]) <==> s[i] in WHITE_SPACE
    {
      WhitespaceIff(s[i]);
    }
  }

  lemma {:induction false} TrimEndDrops(s: string)
    ensures forall i :: |TrimEnd(s)| <= i < |s| ==> IsWhitespace(s[i])
  {
    if s != "" && IsWhitespace(s[|s| - 1]) { TrimEndDrops(s[..|s| - 1]); }
  }

  lemma {:induction false} TrimStartDrops(s: string)
    ensures TrimStart(s) == s[|s| - |TrimStart(s)|..]
    ensures forall i :: 0 <= i < |s| - |TrimStart(s)| ==> IsWhitespace(s[i])
  {
    if s != "" && IsWhitespace(s[0]) {
      TrimStartDrops(s[1..]);
      assert forall i :: 1 <= i < |s| ==> s[i] == s[1..][i - 1];
    }
  }
}
