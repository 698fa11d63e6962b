// Extracting the client address behind trusted proxies: CIDR masks, the right-to-left walk over a list
// header, and the order in which headers are consulted.
module ClientIp {
  import opened Wrappers
  import opened Text
  import opened Decimal

  // ----- networks -----

  /** A machine word as its bits, most significant first. */
  type Bits = seq<bool>

  datatype IpAddr = V4(bits: Bits) | V6(bits: Bits)

  predicate ValidAddr(a: IpAddr) {
    |a.bits| == if a.V4? then 32 else 128
  }

  datatype Cidr = Cidr(addr: IpAddr, prefix: nat)

  predicate ValidCidr(c: Cidr) {
    ValidAddr(c.addr) && c.prefix <= |c.addr.bits|
  }

  function SingleIp(addr: IpAddr): Cidr {
    Cidr(addr, if addr.V4? then 32 else 128)
  }

  function And(a: Bits, b: Bits): (r: Bits)
    requires |a| == |b|
  {
    seq(|a|, i requires 0 <= i < |a| => a[i] && b[i])
  }

  /** Shifting left drops the top bits and fills up with zeros. */
  function ShiftLeft(a: Bits, n: nat): (r: Bits)
    requires n <= |a|
    ensures |r| == |a|
  {
    a[n..] + seq(n, _ => false)
  }

  /** The network mask of a word of `width` bits. */
  function Mask(width: nat, prefix: nat): (r: Bits)
    requires prefix <= width
    ensures |r| == width
  {
    if prefix == 0 then seq(width, _ => false) else ShiftLeft(seq(width, _ => true), width - prefix)
  }

  predicate Contains(c: Cidr, addr: IpAddr)
    requires ValidCidr(c) && ValidAddr(addr)
  {
    match (c.addr, addr)
    case (V4(network), V4(a)) => And(network, Mask(32, c.prefix)) == And(a, Mask(32, c.prefix))
    case (V6(network), V6(a)) => And(network, Mask(128, c.prefix)) == And(a, Mask(128, c.prefix))
    case _ => false
  }

  lemma MaskedEqualIff(a: Bits, b: Bits, prefix: nat)
    requires prefix <= |a| == |b|
    ensures And(a, Mask(|a|, prefix)) == And(b, Mask(|a|, prefix)) <==> a[..prefix] == b[..prefix]
  {
    var mask := Mask(|a|, prefix);
    assert forall i :: 0 <= i < |a| ==> (mask[i] <==> i < prefix);
    var (x, y) := (And(a, mask), And(b, mask));
    if x == y {
      forall i | 0 <= i < prefix
        ensures a[i] == b[i]
      {
        assert x[i] == y[i];
      }
    } else if a[..prefix] == b[..prefix] {
      forall i | 0 <= i < |a|
        ensures x[i] == y[i]
      {
        if i < prefix { assert a[i] == a[..prefix][i] == b[..prefix][i] == b[i]; }
      }
    }
  }

  /** A network contains exactly the addresses of its family that agree with it on the top prefix bits. */
  lemma ContainsIffTopBitsAgree(c: Cidr, addr: IpAddr)
    requires ValidCidr(c) && ValidAddr(addr)
    ensures Contains(c, addr) <==> (c.addr.V4? <==> addr.V4?) && c.addr.bits[..c.prefix] == addr.bits[..c.prefix]
  {
    if c.addr.V4? == addr.V4? { MaskedEqualIff(c.addr.bits, addr.bits, c.prefix); }
  }

  lemma SingleIpContainsItself(a: IpAddr, b: IpAddr)
    requires ValidAddr(a) && ValidAddr(b)
    ensures Contains(SingleIp(a), b) <==> a == b
  {
    ContainsIffTopBitsAgree(SingleIp(a), b);
    if a.V4? == b.V4? {
      assert a.bits[..|a.bits|] == a.bits && b.bits[..|b.bits|] == b.bits;
    }
  }

  predicate ValidProxies(proxies: seq<Cidr>) {
    forall i :: 0 <= i < |proxies| ==> ValidCidr(proxies[i])
  }

  predicate IsTrusted(addr: IpAddr, proxies: seq<Cidr>)
    requires ValidAddr(addr) && ValidProxies(proxies)
  {
    exists i :: 0 <= i < |proxies| && Contains(proxies[i], addr)
  }

  /** One of the networks is of the family of `addr` and agrees with it on its top prefix bits. */
  predicate InNetworks(addr: IpAddr, networks: seq<Cidr>)
    requires ValidAddr(addr) && ValidProxies(networks)
  {
    exists n :: n in networks && SharesPrefix(n, addr)
  }

  predicate SharesPrefix(network: Cidr, addr: IpAddr) {
    && (network.addr.V4? <==> addr.V4?)
    && network.prefix <= |network.addr.bits| == |addr.bits|
    && network.addr.bits[..network.prefix] == addr.bits[..network.prefix]
  }

  /** Trusted are exactly the addresses in some trusted network. */
  lemma TrustedIff(addr: IpAddr, proxies: seq<Cidr>)
    requires ValidAddr(addr) && ValidProxies(proxies)
    ensures IsTrusted(addr, proxies) <==> InNetworks(addr, proxies)
  {
    hide Contains;
    forall i | 0 <= i < |proxies|
      ensures Contains(proxies[i], addr) <==> SharesPrefix(proxies[i], addr)
    {
      ContainsIffTopBitsAgree(proxies[i], addr);
    }
    assert forall n :: n in proxies ==> exists i :: 0 <= i < |proxies| && proxies[i] == n;
  }

  // ----- tokens -----

  /** The standard library's parsers for an address and for an address with a port. */
  datatype Std = Std(parseIp: string -> Option<IpAddr>, parseSocket: string -> Option<IpAddr>)

  ghost predicate ValidStd(std: Std) {
    forall s :: (std.parseIp(s).Some? ==> ValidAddr(std.parseIp(s).value)) &&
                (std.parseSocket(s).Some? ==> ValidAddr(std.parseSocket(s).value))
  }

  /** The index of the first `c`, if there is one. */
  function Find(s: string, c: char): (n: Option<nat>)
    ensures n.Some? ==> n.value < |s| && s[n.value] == c && c !in s[..n.value]
    ensures n.None? ==> c !in s
  {
    if s == "" then None
    else if s[0] == c then Some(0)
    else
      match Find(s[1..], c)
      case None => None
      case Some(n) => assert s[..n + 1] == [s[0]] + s[1..][..n]; Some(n + 1)
  }

  /** `parse::<u16>` succeeds. */
  predicate IsPort(s: string) {
    ParseU64(s).Some? && ParseU64(s).value <= 0xFFFF
  }

  function ParseIpToken(std: Std, raw: string): Option<IpAddr> {
    var value := Trim(raw);
    if value != "" && (value[0] == '"' || value[|value| - 1] == '"') then None
    else if value != "" && value[0] == '[' then
      match Find(value, ']')
      case None => None
      case Some(close) =>
        var (host, tail) := (value[1..close], value[close + 1..]);
        if host == "" || host[0] == '[' then None
        else if tail != "" && (tail[0] != ':' || !IsPort(tail[1..])) then None
        else std.parseIp(host)
    else if std.parseIp(value).Some? then std.parseIp(value)
    else std.parseSocket(value)
  }

  /** `str::split` on one character. */
  function Split(s: string, c: char): (parts: seq<string>)
    ensures parts != []
  {
    match Find(s, c)
    case None => [s]
    case Some(n) => [s[..n]] + Split(s[n + 1..], c)
  }

  function UnquoteForwardedValue(value: string): Option<string> {
    if value != "" && value[0] == '"' then
      if |value| > 1 && value[|value| - 1] == '"' then Some(value[1..|value| - 1]) else None
    else if value != "" && value[|value| - 1] == '"' then None
    else Some(value)
  }

  /** The first `for` parameter decides; the result is None when there is none or it is malformed. */
  function ParseForwardedParts(std: Std, parts: seq<string>): Option<IpAddr> {
    if parts == [] then None
    else
      var part := Trim(parts[0]);
      match Find(part, '=')
      case None => ParseForwardedParts(std, parts[1..])
      case Some(n) =>
        if Lowercase(part[..n]) != "for" then ParseForwardedParts(std, parts[1..])
        else
          match UnquoteForwardedValue(Trim(part[n + 1..]))
          case None => None
          case Some(raw) => ParseIpToken(std, raw)
  }

  function ParseForwardedEntry(std: Std, entry: string): Option<IpAddr> {
    ParseForwardedParts(std, Split(entry, ';'))
  }

  datatype HeaderKind = Forwarded | XForwardedFor

  function ParseEntry(std: Std, kind: HeaderKind, entry: string): (r: Option<IpAddr>)
    requires ValidStd(std)
    ensures r.Some? ==> ValidAddr(r.value)
  {
    ParsedIsValid(std, Split(entry, ';'));
    match kind
    case Forwarded => ParseForwardedEntry(std, entry)
    case XForwardedFor => ParseIpToken(std, entry)
  }

  lemma ParsedIsValid(std: Std, parts: seq<string>)
    requires ValidStd(std)
    ensures ParseForwardedParts(std, parts).Some? ==> ValidAddr(ParseForwardedParts(std, parts).value)
  {
  }

  // ----- what entries say -----

  /** Digits behind at most a plus sign, for a number of 16 bits. */
  predicate PortText(s: string) {
    var digits := if s != "" && s[0] == '+' then s[1..] else s;
    Digits(digits) && Places(digits) <= 65535
  }

  lemma IsPortIff(s: string)
    ensures IsPort(s) <==> PortText(s)
  {
    var digits := if s != "" && s[0] == '+' then s[1..] else s;
    if IsPort(s) { ParseU64Iff(s, ParseU64(s).value); }
    if PortText(s) {
      PlacesOfDigits(digits);
      ParseU64Iff(s, Places(digits));
    }
  }

  predicate Quoteless(v: string) {
    v != "" ==> v[0] != '"' && v[|v| - 1] != '"'
  }

  /** `v` is a host in brackets, perhaps with a port behind them. */
  predicate Bracketed(v: string, host: string, tail: string) {
    && v == "[" + host + "]" + tail
    && host != "" && host[0] != '[' && ']' !in host
    && (tail == "" || (tail[0] == ':' && PortText(tail[1..])))
  }

  /** A trimmed token names `addr`: an address in brackets, perhaps with a port; or without brackets an
      address, or else an address with a port, as the standard library reads them. */
  ghost predicate Names(std: Std, v: string, addr: IpAddr) {
    || (exists host, tail :: Bracketed(v, host, tail) && std.parseIp(host) == Some(addr))
    || (Quoteless(v) && (v == "" || v[0] != '[') &&
        (std.parseIp(v) == Some(addr) || (std.parseIp(v) == None && std.parseSocket(v) == Some(addr))))
  }

  lemma PortEndsInDigit(s: string)
    requires PortText(s)
    ensures s != "" && s[|s| - 1] != '"'
  {
  }

  lemma {:induction false} FindAt(s: string, c: char, n: nat)
    requires n < |s| && s[n] == c && c !in s[..n]
    ensures Find(s, c) == Some(n)
  {
    if n > 0 {
      assert s[..n][0] == s[0] && s[1..][..n - 1] == s[..n][1..];
      FindAt(s[1..], c, n - 1);
    }
  }

  lemma BracketsRead(std: Std, raw: string, host: string, tail: string)
    requires Bracketed(Trim(raw), host, tail)
    ensures ParseIpToken(std, raw) == std.parseIp(host)
  {
    hide Trim, PortText, IsPort;
    var v := Trim(raw);
    if tail != "" {
      IsPortIff(tail[1..]);
      PortEndsInDigit(tail[1..]);
    }
    assert v[0] == '[' && v[|v| - 1] == if tail == "" then ']' else tail[|tail| - 1];
    assert v[..|host| + 1] == "[" + host && v[|host| + 1] == ']';
    FindAt(v, ']', |host| + 1);
    assert v[1..|host| + 1] == host && v[|host| + 2..] == tail;
  }

  /** Exactly the tokens that name an address once trimmed are read, as that address. */
  lemma TokenIff(std: Std, raw: string, addr: IpAddr)
    ensures ParseIpToken(std, raw) == Some(addr) <==> Names(std, Trim(raw), addr)
  {
    hide Trim, PortText, IsPort;
    var v := Trim(raw);
    if host, tail :| Bracketed(v, host, tail) && std.parseIp(host) == Some(addr) {
      BracketsRead(std, raw, host, tail);
    }
    if ParseIpToken(std, raw) == Some(addr) && v != "" && v[0] == '[' {
      var close := Find(v, ']').value;
      var (host, tail) := (v[1..close], v[close + 1..]);
      assert v[..close] == "[" + host;
      if tail != "" { IsPortIff(tail[1..]); }
      assert v == "[" + host + "]" + tail;
      assert Bracketed(v, host, tail);
    }
  }

  /** A trimmed parameter value names `addr`: a token in double quotes, or one without any at its ends. */
  ghost predicate ValueNames(std: Std, v: string, addr: IpAddr) {
    || (|v| >= 2 && v[0] == '"' && v[|v| - 1] == '"' && Names(std, Trim(v[1..|v| - 1]), addr))
    || (Quoteless(v) && Names(std, v, addr))
  }

  /** One parameter of an entry: a name and a value, with white space in front; or text without `=`. */
  datatype Param = Pair(space: string, name: string, value: string) | Other(text: string)

  function ParamText(p: Param): string {
    match p
    case Pair(space, name, value) => space + (name + ("=" + value))
    case Other(text) => text
  }

  predicate WellFormed(p: Param) {
    match p
    case Pair(space, name, value) =>
      && (forall i :: 0 <= i < |space| ==> space[i] in WHITE_SPACE)
      && '=' !in name && (name != "" ==> name[0] !in WHITE_SPACE)
      && ';' !in ParamText(p)
    case Other(text) => '=' !in text && ';' !in text
  }

  function ParamTexts(params: seq<Param>): seq<string> {
    seq(|params|, i requires 0 <= i < |params| => ParamText(params[i]))
  }

  /** The parameters with semicolons between them. */
  function EntryText(params: seq<Param>): string
    requires params != []
  {
    if |params| == 1 then ParamText(params[0]) else ParamText(params[0]) + (";" + EntryText(params[1..]))
  }

  /** `for` in any case. */
  predicate IsFor(name: string) {
    |name| == 3 && name[0] in "fF" && name[1] in "oO" && name[2] in "rR"
  }

  /** The value of the first parameter named `for`. */
  function FirstFor(params: seq<Param>): Option<string> {
    if params == [] then None
    else if params[0].Pair? && IsFor(params[0].name) then Some(params[0].value)
    else FirstFor(params[1..])
  }

  ghost predicate EntryNames(std: Std, params: seq<Param>, addr: IpAddr) {
    FirstFor(params).Some? && ValueNames(std, Trim(FirstFor(params).value), addr)
  }

  lemma IsForIff(name: string)
    ensures Lowercase(name) == "for" <==> IsFor(name)
  {
    if |name| == 3 {
      LowercaseAt(name, 0);
      LowercaseAt(name, 1);
      LowercaseAt(name, 2);
      hide Lowercase;
      assert Lowercase(name) == "for" <==>
             Lowercase(name)[0] == 'f' && Lowercase(name)[1] == 'o' && Lowercase(name)[2] == 'r';
    }
  }

  lemma ValueIff(std: Std, value: string, addr: IpAddr)
    ensures var unquoted := UnquoteForwardedValue(Trim(value));
      (unquoted.Some? && ParseIpToken(std, unquoted.value) == Some(addr)) <==> ValueNames(std, Trim(value), addr)
  {
    hide Trim, ParseIpToken, Names;
    var v := Trim(value);
    var unquoted := UnquoteForwardedValue(v);
    if unquoted.Some? { TokenIff(std, unquoted.value, addr); }
    TrimTwice(value);
  }

  lemma TrimTwice(s: string)
    ensures Trim(Trim(s)) == Trim(s)
  {
    if Trim(s) != "" { TrimmedEnds(s); }
  }

  lemma {:induction false} TrimEndBehind(front: string, c: char, tail: string)
    requires !IsWhitespace(c)
    ensures TrimEnd(front + [c] + tail) == front + [c] + TrimEnd(tail)
  {
    hide IsWhitespace;
    var s := front + [c] + tail;
    if tail == "" {
      assert s == front + [c] && s[|s| - 1] == c;
    } else {
      assert s[..|s| - 1] == front + [c] + tail[..|tail| - 1];
      TrimEndBehind(front, c, tail[..|tail| - 1]);
    }
  }

  lemma {:induction false} TrimStartBehind(space: string, rest: string)
    requires forall i :: 0 <= i < |space| ==> IsWhitespace(space[i])
    requires rest != "" && !IsWhitespace(rest[0])
    ensures TrimStart(space + rest) == rest
  {
    hide IsWhitespace;
    if space == "" {
      assert space + rest == rest;
    } else {
      assert (space + rest)[1..] == space[1..] + rest;
      TrimStartBehind(space[1..], rest);
    }
  }

  lemma {:induction false} TrimEndTwice(s: string)
    ensures TrimEnd(TrimEnd(s)) == TrimEnd(s)
  {
    if s != "" && IsWhitespace(s[|s| - 1]) { TrimEndTwice(s[..|s| - 1]); }
  }

  lemma SpaceIff(s: string)
    ensures forall i :: 0 <= i < |s| ==> (IsWhitespace(s[i]) <==> s[i] in WHITE_SPACE)
    ensures '=' !in WHITE_SPACE && !IsWhitespace('=')
  {
    forall i | 0 <= i < |s|
      ensures IsWhitespace(s[i]) <==> s[i] in WHITE_SPACE
    {
      WhitespaceIff(s[i]);
    }
  }

  /** What trimming leaves of a pair: the name, the equals sign and the value, trimmed at its end. */
  lemma PairTrims(p: Param)
    requires p.Pair? && WellFormed(p)
    ensures Trim(ParamText(p)) == p.name + ("=" + TrimEnd(p.value))
  {
    hide WHITE_SPACE, IsWhitespace, TrimEnd, TrimStart;
    SpaceIff(p.space);
    SpaceIff(p.name);
    var rest := p.name + ("=" + TrimEnd(p.value));
    TrimEndBehind(p.space + p.name, '=', p.value);
    assert ParamText(p) == p.space + p.name + ['='] + p.value;
    assert p.space + p.name + ['='] + TrimEnd(p.value) == p.space + rest;
    assert rest[0] == if p.name == "" then '=' else p.name[0];
    TrimStartBehind(p.space, rest);
  }

  lemma PairRead(p: Param)
    requires p.Pair? && WellFormed(p)
    ensures var part := Trim(ParamText(p));
      && Find(part, '=') == Some(|p.name|) && part[..|p.name|] == p.name
      && Trim(part[|p.name| + 1..]) == Trim(p.value)
  {
    hide WHITE_SPACE, TrimEnd;
    PairTrims(p);
    TrimEndTwice(p.value);
    var part := Trim(ParamText(p));
    assert part[..|p.name|] == p.name && part[|p.name| + 1..] == TrimEnd(p.value);
    FindAt(part, '=', |p.name|);
  }

  lemma OtherRead(text: string)
    requires '=' !in text
    ensures Find(Trim(text), '=') == None
  {
    hide Trim, StandsIn;
    var a, b := TrimStands(text);
    TrimIsSlice(text, a, b);
  }

  lemma TrimIsSlice(text: string, a: nat, b: nat)
    requires StandsIn(Trim(text), text, a, b)
    ensures forall c :: c in Trim(text) ==> c in text
  {
  }

  lemma {:induction false} PartsRead(std: Std, params: seq<Param>, addr: IpAddr)
    requires forall i :: 0 <= i < |params| ==> WellFormed(params[i])
    ensures ParseForwardedParts(std, ParamTexts(params)) == Some(addr) <==> EntryNames(std, params, addr)
  {
    hide Trim, ParseIpToken, UnquoteForwardedValue, ValueNames, Lowercase, IsFor, WellFormed, ParamText;
    if params != [] {
      var (parts, rest) := (ParamTexts(params), params[1..]);
      PartsRead(std, rest, addr);
      assert parts[1..] == ParamTexts(rest);
      var p := params[0];
      match p {
        case Pair(_, name, value) =>
          PairRead(p);
          IsForIff(name);
          ValueIff(std, value, addr);
        case Other(text) =>
          OtherText(p);
          OtherRead(text);
      }
    }
  }

  lemma OtherText(p: Param)
    requires p.Other? && WellFormed(p)
    ensures ParamText(p) == p.text && '=' !in p.text
  {
  }

  lemma SplitOfFree(s: string, c: char)
    requires c !in s
    ensures Split(s, c) == [s]
  {
  }

  lemma {:induction false} EntrySplits(params: seq<Param>)
    requires params != [] && forall i :: 0 <= i < |params| ==> WellFormed(params[i])
    ensures Split(EntryText(params), ';') == ParamTexts(params)
  {
    hide Split, ParamText, WellFormed;
    var p := params[0];
    NoSemicolon(p);
    SplitOfFree(ParamText(p), ';');
    if |params| > 1 {
      var rest := params[1..];
      EntrySplits(rest);
      SplitJoined(ParamText(p), EntryText(rest), ';');
      assert [';'] + EntryText(rest) == ";" + EntryText(rest);
    }
  }

  lemma NoSemicolon(p: Param)
    requires WellFormed(p)
    ensures ';' !in ParamText(p)
  {
  }

  /** An entry of parameters `name=value`, with semicolons between them, names exactly the address that the
      value of its first parameter called `for`, in any case, names; and none when there is none. */
  lemma ForwardedEntryIff(std: Std, params: seq<Param>, addr: IpAddr)
    requires params != [] && forall i :: 0 <= i < |params| ==> WellFormed(params[i])
    ensures ParseForwardedEntry(std, EntryText(params)) == Some(addr) <==> EntryNames(std, params, addr)
  {
    hide ParseForwardedParts, EntryNames, WellFormed, EntryText, Split;
    EntrySplits(params);
    PartsRead(std, params, addr);
  }

  /** The parameters of any text between semicolons. */
  function ParamOf(part: string): Param {
    var space := |part| - |TrimStart(part)|;
    var rest := TrimStart(part);
    match Find(rest, '=')
    case None => Other(part)
    case Some(n) => Pair(part[..space], rest[..n], rest[n + 1..])
  }

  lemma LeadingSpace(part: string)
    ensures var (n, rest) := (|part| - |TrimStart(part)|, TrimStart(part));
      && part == part[..n] + rest
      && (forall i :: 0 <= i < n ==> part[i] in WHITE_SPACE)
      && (rest != "" ==> rest[0] !in WHITE_SPACE)
  {
    hide WHITE_SPACE, IsWhitespace, TrimStart;
    TrimStartDrops(part);
    TrimStartStops(part);
    SpaceIff(part);
    SpaceIff(TrimStart(part));
  }

  lemma ParamOfRenders(part: string)
    requires ';' !in part
    ensures ParamText(ParamOf(part)) == part && WellFormed(ParamOf(part))
  {
    hide WHITE_SPACE, TrimStart, IsWhitespace;
    LeadingSpace(part);
    SpaceIff(part);
    var (n, rest) := (|part| - |TrimStart(part)|, TrimStart(part));
    match Find(rest, '=') {
      case None => NoEqualsIn(part[..n], rest);
      case Some(m) =>
        assert rest == rest[..m] + ("=" + rest[m + 1..]);
        assert m > 0 ==> rest[..m][0] == rest[0];
    }
  }

  lemma NoEqualsIn(space: string, rest: string)
    requires '=' !in rest && forall i :: 0 <= i < |space| ==> space[i] in WHITE_SPACE
    ensures '=' !in space + rest
  {
    SpaceIff("");
    hide WHITE_SPACE;
  }

  /** The parts with `c` between them. */
  function Joined(parts: seq<string>, c: char): string
    requires parts != []
  {
    if |parts| == 1 then parts[0] else parts[0] + ([c] + Joined(parts[1..], c))
  }

  /** Splitting cuts at every `c` and loses nothing. */
  lemma {:induction false} SplitRejoins(s: string, c: char)
    ensures Joined(Split(s, c), c) == s && AllFree(Split(s, c), c)
    decreases |s|
  {
    hide Find, AllFree;
    match Find(s, c) {
      case None => FreeCons(s, [], c);
      case Some(n) =>
        var rest := Split(s[n + 1..], c);
        SplitRejoins(s[n + 1..], c);
        FreeCons(s[..n], rest, c);
        assert ([s[..n]] + rest)[1..] == rest;
        CutAt(s, n, c);
    }
  }

  predicate AllFree(parts: seq<string>, c: char) {
    forall i :: 0 <= i < |parts| ==> c !in parts[i]
  }

  lemma FreeCons(part: string, rest: seq<string>, c: char)
    requires c !in part
    ensures AllFree(rest, c) || rest == [] ==> AllFree([part] + rest, c)
    ensures [part] + [] == [part]
  {
  }

  lemma CutAt(s: string, n: nat, c: char)
    requires n < |s| && s[n] == c
    ensures s == s[..n] + ([c] + s[n + 1..])
  {
  }

  function ParamsOf(parts: seq<string>): seq<Param> {
    seq(|parts|, i requires 0 <= i < |parts| => ParamOf(parts[i]))
  }

  lemma {:induction false} PartsRender(parts: seq<string>)
    requires parts != [] && forall i :: 0 <= i < |parts| ==> ';' !in parts[i]
    ensures EntryText(ParamsOf(parts)) == Joined(parts, ';')
    ensures forall i :: 0 <= i < |parts| ==> WellFormed(ParamsOf(parts)[i])
  {
    hide ParamOf, WellFormed, ParamText;
    ParamOfRenders(parts[0]);
    if |parts| > 1 {
      PartsRender(parts[1..]);
      assert ParamsOf(parts)[1..] == ParamsOf(parts[1..]);
      assert forall i :: 1 <= i < |parts| ==> ParamsOf(parts)[i] == ParamsOf(parts[1..])[i - 1];
    }
  }

  /** What an entry of either header names; every entry consists of such parameters. */
  ghost predicate Says(std: Std, kind: HeaderKind, entry: string, addr: IpAddr) {
    match kind
    case XForwardedFor => Names(std, Trim(entry), addr)
    case Forwarded =>
      exists params :: params != [] && Renders(params, entry) && EntryNames(std, params, addr)
  }

  predicate Renders(params: seq<Param>, entry: string)
    requires params != []
  {
    EntryText(params) == entry && forall i :: 0 <= i < |params| ==> WellFormed(params[i])
  }

  /** Each entry is read as the address it names, or as none. */
  lemma EntryIff(std: Std, kind: HeaderKind, entry: string, addr: IpAddr)
    requires ValidStd(std)
    ensures ParseEntry(std, kind, entry) == Some(addr) <==> Says(std, kind, entry, addr)
  {
    hide ParseForwardedEntry, ParseIpToken, EntryNames, Names, EntryText, WellFormed, Trim;
    match kind
    case XForwardedFor => TokenIff(std, entry, addr);
    case Forwarded =>
      SplitRejoins(entry, ';');
      PartsRender(Split(entry, ';'));
      var params := ParamsOf(Split(entry, ';'));
      assert Renders(params, entry);
      ForwardedEntryIff(std, params, addr);
      forall other: seq<Param> | other != [] && Renders(other, entry)
        ensures EntryNames(std, other, addr) <==> ParseForwardedEntry(std, entry) == Some(addr)
      {
        ForwardedEntryIff(std, other, addr);
      }
  }

  // ----- list headers -----

  /** The trimmed, non-empty entries of a comma-separated header, in header order. */
  function Entries(parts: seq<string>): seq<string> {
    if parts == [] then []
    else (if Trim(parts[0]) == "" then [] else [Trim(parts[0])]) + Entries(parts[1..])
  }

  /** The entries of two headers with a comma between them are those of the first and then those of the
      second; a header without commas has one entry, its trimmed text, or none if it is all white space. */
  lemma EntriesOf(a: string, b: string)
    ensures HeaderEntries(Some(a + ("," + b))) == HeaderEntries(Some(a)) + HeaderEntries(Some(b))
    ensures ',' !in a ==> HeaderEntries(Some(a)) ==
                          if forall i :: 0 <= i < |a| ==> a[i] in WHITE_SPACE then [] else [Trim(a)]
    ensures HeaderEntries(None) == []
  {
    hide Trim, WHITE_SPACE;
    SplitJoined(a, b, ',');
    EntriesAppend(Split(a, ','), Split(b, ','));
    assert [','] + b == "," + b;
    if ',' !in a {
      SplitOfFree(a, ',');
      BlankIff(a);
      assert Entries([a]) == (if Trim(a) == "" then [] else [Trim(a)]) + Entries([a][1..]);
    }
  }

  lemma BlankIff(a: string)
    ensures Trim(a) == "" <==> forall i :: 0 <= i < |a| ==> a[i] in WHITE_SPACE
  {
    hide Trim, WHITE_SPACE;
    TrimIff(a, "");
    if forall i :: 0 <= i < |a| ==> a[i] in WHITE_SPACE {
      assert StandsIn("", a, 0, 0);
    }
  }

  function HeaderEntries(header: Option<string>): seq<string> {
    if header.Some? then Entries(Split(header.value, ',')) else []
  }

  datatype HeaderClientIp = Missing | Invalid | Found(addr: IpAddr)

  /** The walk over the entries from the right. */
  function WalkBack(std: Std, kind: HeaderKind, entries: seq<string>, proxies: seq<Cidr>, sawEntry: bool):
    (r: HeaderClientIp)
    requires ValidStd(std) && ValidProxies(proxies)
  {
    if entries == [] then if sawEntry then Invalid else Missing
    else
      match ParseEntry(std, kind, entries[|entries| - 1])
      case None => Invalid
      case Some(addr) =>
        if !IsTrusted(addr, proxies) then Found(addr) else WalkBack(std, kind, entries[..|entries| - 1], proxies, true)
  }

  function ClientIpOf(std: Std, kind: HeaderKind, header: Option<string>, proxies: seq<Cidr>): HeaderClientIp
    requires ValidStd(std) && ValidProxies(proxies)
  {
    match header
    case None => Missing
    case Some(value) => WalkBack(std, kind, Entries(Split(value, ',')), proxies, false)
  }

  /** The loop of both list-header parsers: entries from the right, blanks skipped, early returns. */
  method ParseListHeader(std: Std, kind: HeaderKind, header: Option<string>, proxies: seq<Cidr>)
    returns (r: HeaderClientIp)
    requires ValidStd(std) && ValidProxies(proxies)
    ensures r == ClientIpOf(std, kind, header, proxies)
  {
    hide ParseEntry, IsTrusted, Trim, Entries, WalkBack;
    if header.None? {
      return Missing;
    }
    var parts := Split(header.value, ',');
    var sawEntry := false;
    var i := |parts|;
    assert parts[..i] == parts;
    while i > 0
      invariant 0 <= i <= |parts|
      invariant WalkBack(std, kind, Entries(parts), proxies, false)
             == WalkBack(std, kind, Entries(parts[..i]), proxies, sawEntry)
    {
      i := i - 1;
      var entry := Trim(parts[i]);
      EntriesSnoc(parts, i);
      WalkStep(std, kind, Entries(parts[..i]), entry, proxies, sawEntry);
      if entry != "" {
        sawEntry := true;
        var addr := ParseEntry(std, kind, entry);
        match addr {
          case None => return Invalid;
          case Some(addr) =>
            if !IsTrusted(addr, proxies) {
              return Found(addr);
            }
        }
      }
    }
    NoEntries(std, kind, parts[..0], proxies, sawEntry);
    return if sawEntry then Invalid else Missing;
  }

  lemma WalkStep(std: Std, kind: HeaderKind, front: seq<string>, entry: string, proxies: seq<Cidr>, sawEntry: bool)
    requires ValidStd(std) && ValidProxies(proxies)
    ensures front + [] == front
    ensures WalkBack(std, kind, front + [entry], proxies, sawEntry)
         == match ParseEntry(std, kind, entry)
            case None => Invalid
            case Some(addr) => if !IsTrusted(addr, proxies) then Found(addr)
                               else WalkBack(std, kind, front, proxies, true)
  {
    hide ParseEntry, IsTrusted;
    assert (front + [entry])[..|front|] == front;
  }

  lemma NoEntries(std: Std, kind: HeaderKind, parts: seq<string>, proxies: seq<Cidr>, sawEntry: bool)
    requires ValidStd(std) && ValidProxies(proxies) && parts == []
    ensures WalkBack(std, kind, Entries(parts), proxies, sawEntry) == if sawEntry then Invalid else Missing
  {
  }

  lemma EntriesSnoc(parts: seq<string>, i: nat)
    requires i < |parts|
    ensures Entries(parts[..i + 1]) == Entries(parts[..i]) + if Trim(parts[i]) == "" then [] else [Trim(parts[i])]
  {
    EntriesAppend(parts[..i], [parts[i]]);
    assert parts[..i + 1] == parts[..i] + [parts[i]];
  }

  lemma {:induction false} EntriesAppend(a: seq<string>, b: seq<string>)
    ensures Entries(a + b) == Entries(a) + Entries(b)
  {
    if a == [] {
      assert a + b == b;
    } else {
      assert (a + b)[1..] == a[1..] + b;
      EntriesAppend(a[1..], b);
    }
  }

  /** Entry `i` parses to an address outside all trusted networks, with only valid trusted hops to its right. */
  ghost predicate IsClient(std: Std, kind: HeaderKind, entries: seq<string>, proxies: seq<Cidr>, i: nat, addr: IpAddr)
    requires ValidStd(std) && ValidProxies(proxies)
  {
    && i < |entries|
    && ParseEntry(std, kind, entries[i]) == Some(addr) && !IsTrusted(addr, proxies)
    && forall j :: i < j < |entries| ==>
         ParseEntry(std, kind, entries[j]).Some? && IsTrusted(ParseEntry(std, kind, entries[j]).value, proxies)
  }

  /** The walk yields an address exactly when that address is the rightmost one outside all trusted
      networks and everything to its right is a valid trusted hop. */
  lemma {:induction false} FoundIff(std: Std, kind: HeaderKind, entries: seq<string>, proxies: seq<Cidr>,
                                    sawEntry: bool, addr: IpAddr)
    requires ValidStd(std) && ValidProxies(proxies)
    ensures WalkBack(std, kind, entries, proxies, sawEntry) == Found(addr) <==>
              exists i: nat :: IsClient(std, kind, entries, proxies, i, addr)
  {
    hide ParseEntry, IsTrusted;
    if entries != [] {
      var (front, n) := (entries[..|entries| - 1], |entries| - 1);
      var last := ParseEntry(std, kind, entries[n]);
      FoundIff(std, kind, front, proxies, true, addr);
      if last.Some? && IsTrusted(last.value, proxies) {
        assert forall i: nat :: i < n ==> front[i] == entries[i];
        forall i: nat
          ensures IsClient(std, kind, front, proxies, i, addr) <==> IsClient(std, kind, entries, proxies, i, addr)
        {
          if IsClient(std, kind, entries, proxies, i, addr) { assert i != n; }
        }
      } else {
        assert IsClient(std, kind, entries, proxies, n, addr) <==> last == Some(addr) && !IsTrusted(addr, proxies);
        forall i: nat | IsClient(std, kind, entries, proxies, i, addr)
          ensures i == n
        {
        }
      }
    }
  }

  /** Only a header without a single non-blank entry counts as missing. */
  lemma MissingIff(std: Std, kind: HeaderKind, entries: seq<string>, proxies: seq<Cidr>)
    requires ValidStd(std) && ValidProxies(proxies)
    ensures WalkBack(std, kind, entries, proxies, false) == Missing <==> entries == []
  {
    if entries != [] { SawEntry(std, kind, entries[..|entries| - 1], proxies); }
  }

  lemma {:induction false} SawEntry(std: Std, kind: HeaderKind, entries: seq<string>, proxies: seq<Cidr>)
    requires ValidStd(std) && ValidProxies(proxies)
    ensures WalkBack(std, kind, entries, proxies, true) != Missing
  {
    if entries != [] { SawEntry(std, kind, entries[..|entries| - 1], proxies); }
  }

  // ----- what a client can prepend -----

  lemma {:induction false} FindBehind(a: string, b: string, c: char)
    ensures Find(a + ([c] + b), c) == if Find(a, c).Some? then Find(a, c) else Some(|a|)
  {
    var s := a + ([c] + b);
    if a == "" {
      assert s[0] == c;
    } else {
      assert s[1..] == a[1..] + ([c] + b);
      FindBehind(a[1..], b, c);
    }
  }

  lemma {:induction false} SplitJoined(a: string, b: string, c: char)
    ensures Split(a + ([c] + b), c) == Split(a, c) + Split(b, c)
    decreases |a|
  {
    hide Find;
    var s := a + ([c] + b);
    FindBehind(a, b, c);
    match Find(a, c) {
      case None =>
        assert s[..|a|] == a && s[|a| + 1..] == b;
      case Some(n) =>
        assert s[..n] == a[..n];
        assert s[n + 1..] == a[n + 1..] + ([c] + b);
        SplitJoined(a[n + 1..], b, c);
    }
  }

  lemma {:induction false} WalkIgnoresFront(std: Std, kind: HeaderKind, front: seq<string>, entries: seq<string>,
                                            proxies: seq<Cidr>, sawEntry: bool)
    requires ValidStd(std) && ValidProxies(proxies)
    requires WalkBack(std, kind, entries, proxies, sawEntry).Found?
    ensures WalkBack(std, kind, front + entries, proxies, sawEntry) == WalkBack(std, kind, entries, proxies, sawEntry)
    decreases |entries|
  {
    hide ParseEntry, IsTrusted;
    var n := |entries| - 1;
    var all := front + entries;
    assert all[|all| - 1] == entries[n] && all[..|all| - 1] == front + entries[..n];
    var last := ParseEntry(std, kind, entries[n]);
    if last.Some? && IsTrusted(last.value, proxies) { WalkIgnoresFront(std, kind, front, entries[..n], proxies, true); }
  }

  /** Once a list header yields an address, nothing put in front of it with a comma changes that. */
  lemma PrependingChangesNothing(std: Std, kind: HeaderKind, header: string, proxies: seq<Cidr>, text: string)
    requires ValidStd(std) && ValidProxies(proxies)
    requires ClientIpOf(std, kind, Some(header), proxies).Found?
    ensures ClientIpOf(std, kind, Some(text + ("," + header)), proxies) == ClientIpOf(std, kind, Some(header), proxies)
  {
    SplitJoined(text, header, ',');
    EntriesAppend(Split(text, ','), Split(header, ','));
    WalkIgnoresFront(std, kind, Entries(Split(text, ',')), Entries(Split(header, ',')), proxies, false);
  }

  // ----- the client address -----

  function SingleHeader(std: Std, header: Option<string>): HeaderClientIp {
    match header
    case None => Missing
    case Some(value) => (match ParseIpToken(std, value) case None => Invalid case Some(addr) => Found(addr))
  }

  /** The answer: the first list header that has an entry decides, then the single-address header. */
  function ClientAddress(std: Std, peer: IpAddr, proxies: seq<Cidr>, forwarded: Option<string>,
                         xForwardedFor: Option<string>,
                         xRealIp: Option<string>): IpAddr
    requires ValidStd(std) && ValidAddr(peer) && ValidProxies(proxies)
  {
    if !IsTrusted(peer, proxies) then peer
    else
      var first := ClientIpOf(std, Forwarded, forwarded, proxies);
      var deciding := if first.Missing? then ClientIpOf(std, XForwardedFor, xForwardedFor, proxies) else first;
      var last := if deciding.Missing? then SingleHeader(std, xRealIp) else deciding;
      if last.Found? then last.addr else peer
  }

  method ExtractClientIp(std: Std, peer: IpAddr, proxies: seq<Cidr>, forwarded: Option<string>,
                         xForwardedFor: Option<string>,
                         xRealIp: Option<string>) returns (r: IpAddr)
    requires ValidStd(std) && ValidAddr(peer) && ValidProxies(proxies)
    ensures r == ClientAddress(std, peer, proxies, forwarded, xForwardedFor, xRealIp)
    ensures !IsTrusted(peer, proxies) ==> r == peer
    ensures IsTrusted(peer, proxies) ==>
              var (first, second) := (ClientIpOf(std, Forwarded, forwarded, proxies),
                                      ClientIpOf(std, XForwardedFor, xForwardedFor, proxies));
              && (first.Found? ==> r == first.addr)
              && (first.Missing? && second.Found? ==> r == second.addr)
              && (first.Missing? && second.Missing? && SingleHeader(std, xRealIp).Found? ==>
                    r == SingleHeader(std, xRealIp).addr)
              && (first.Invalid? ==> r == peer)
              && (first.Missing? && second.Invalid? ==> r == peer)
              && (first.Missing? && second.Missing? && !SingleHeader(std, xRealIp).Found? ==> r == peer)
  {
    hide IsTrusted, ClientIpOf, SingleHeader;
    if !IsTrusted(peer, proxies) {
      return peer;
    }
    var first := ParseListHeader(std, Forwarded, forwarded, proxies);
    match first {
      case Found(addr) => return addr;
      case Invalid => return peer;
      case Missing =>
    }
    var second := ParseListHeader(std, XForwardedFor, xForwardedFor, proxies);
    match second {
      case Found(addr) => return addr;
      case Invalid => return peer;
      case Missing =>
    }
    match SingleHeader(std, xRealIp) {
      case Found(addr) => return addr;
      case _ => return peer;
    }
  }

  lemma WalkOfEntries(std: Std, kind: HeaderKind, header: Option<string>, proxies: seq<Cidr>)
    requires ValidStd(std) && ValidProxies(proxies)
    ensures ClientIpOf(std, kind, header, proxies) == WalkBack(std, kind, HeaderEntries(header), proxies, false)
    ensures ClientIpOf(std, kind, header, proxies) == Missing <==> HeaderEntries(header) == []
  {
    hide ParseEntry, IsTrusted, Entries;
    MissingIff(std, kind, HeaderEntries(header), proxies);
  }

  /** Behind a trusted peer the first list header with an entry decides alone. The answer is its rightmost
      address outside all trusted networks, with only valid trusted hops behind it, or the peer when it has
      none. Only without an entry in either does the single-address header count. */
  lemma AnswerIsRightmostClient(std: Std, peer: IpAddr, proxies: seq<Cidr>, forwarded: Option<string>,
                                xForwardedFor: Option<string>,
                                xRealIp: Option<string>)
    requires ValidStd(std) && ValidAddr(peer) && ValidProxies(proxies) && IsTrusted(peer, proxies)
    ensures var (kind, header) := if HeaderEntries(forwarded) != [] then (Forwarded, forwarded)
                                  else (XForwardedFor, xForwardedFor);
      var (entries, single) := (HeaderEntries(header), SingleHeader(std, xRealIp));
      var r := ClientAddress(std, peer, proxies, forwarded, xForwardedFor, xRealIp);
      if entries != [] then
        || (exists i: nat :: IsClient(std, kind, entries, proxies, i, r))
        || (r == peer && forall i: nat, addr :: !IsClient(std, kind, entries, proxies, i, addr))
      else r == if single.Found? then single.addr else peer
  {
    hide ClientIpOf, HeaderEntries, WalkBack, IsClient, IsTrusted;
    WalkOfEntries(std, Forwarded, forwarded, proxies);
    WalkOfEntries(std, XForwardedFor, xForwardedFor, proxies);
    var (kind, header) := if HeaderEntries(forwarded) != [] then (Forwarded, forwarded)
                          else (XForwardedFor, xForwardedFor);
    var (entries, found) := (HeaderEntries(header), ClientIpOf(std, kind, header, proxies));
    if found.Found? {
      FoundIff(std, kind, entries, proxies, false, found.addr);
    } else {
      forall i: nat, addr
        ensures !IsClient(std, kind, entries, proxies, i, addr)
      {
        FoundIff(std, kind, entries, proxies, false, addr);
      }
    }
  }

  /** Entry `i` names an address outside all trusted networks, and every entry behind it names one inside. */
  ghost predicate SaysClient(std: Std, kind: HeaderKind, entries: seq<string>, proxies: seq<Cidr>, i: nat, addr: IpAddr)
    requires ValidStd(std) && ValidProxies(proxies)
  {
    && i < |entries|
    && Says(std, kind, entries[i], addr) && ValidAddr(addr) && !InNetworks(addr, proxies)
    && forall j :: i < j < |entries| ==> SaysTrusted(std, kind, entries[j], proxies)
  }

  ghost predicate SaysTrusted(std: Std, kind: HeaderKind, entry: string, proxies: seq<Cidr>)
    requires ValidStd(std) && ValidProxies(proxies)
  {
    exists hop :: Says(std, kind, entry, hop) && ValidAddr(hop) && InNetworks(hop, proxies)
  }

  lemma TrustedHopIff(std: Std, kind: HeaderKind, entry: string, proxies: seq<Cidr>)
    requires ValidStd(std) && ValidProxies(proxies)
    ensures SaysTrusted(std, kind, entry, proxies) <==>
            ParseEntry(std, kind, entry).Some? && IsTrusted(ParseEntry(std, kind, entry).value, proxies)
  {
    hide ParseEntry, Says, IsTrusted, InNetworks;
    if ParseEntry(std, kind, entry).Some? {
      EntryIff(std, kind, entry, ParseEntry(std, kind, entry).value);
      TrustedIff(ParseEntry(std, kind, entry).value, proxies);
    }
    if SaysTrusted(std, kind, entry, proxies) {
      var hop :| Says(std, kind, entry, hop) && ValidAddr(hop) && InNetworks(hop, proxies);
      EntryIff(std, kind, entry, hop);
    }
  }

  lemma ClientIff(std: Std, kind: HeaderKind, entries: seq<string>, proxies: seq<Cidr>, i: nat, addr: IpAddr)
    requires ValidStd(std) && ValidProxies(proxies)
    ensures IsClient(std, kind, entries, proxies, i, addr) <==> SaysClient(std, kind, entries, proxies, i, addr)
  {
    hide ParseEntry, Says, IsTrusted, SaysTrusted, InNetworks;
    if i < |entries| {
      EntryIff(std, kind, entries[i], addr);
      if ValidAddr(addr) { TrustedIff(addr, proxies); }
      forall j | i < j < |entries|
        ensures SaysTrusted(std, kind, entries[j], proxies) <==>
                ParseEntry(std, kind, entries[j]).Some? && IsTrusted(ParseEntry(std, kind, entries[j]).value, proxies)
      {
        TrustedHopIff(std, kind, entries[j], proxies);
      }
    }
  }

  /** The same in terms of what the entries name, with no parser in between. */
  lemma AnswerIsNamed(std: Std, peer: IpAddr, proxies: seq<Cidr>, forwarded: Option<string>,
                      xForwardedFor: Option<string>, xRealIp: Option<string>)
    requires ValidStd(std) && ValidAddr(peer) && ValidProxies(proxies)
    ensures var (kind, header) := if HeaderEntries(forwarded) != [] then (Forwarded, forwarded)
                                  else (XForwardedFor, xForwardedFor);
      var entries := HeaderEntries(header);
      var r := ClientAddress(std, peer, proxies, forwarded, xForwardedFor, xRealIp);
      if !InNetworks(peer, proxies) then r == peer
      else if entries != [] then
        || (exists i: nat :: SaysClient(std, kind, entries, proxies, i, r))
        || (r == peer && forall i: nat, addr :: !SaysClient(std, kind, entries, proxies, i, addr))
      else
        || (xRealIp.Some? && Names(std, Trim(xRealIp.value), r))
        || (r == peer && (xRealIp.Some? ==> forall addr :: !Names(std, Trim(xRealIp.value), addr)))
  {
    hide HeaderEntries, IsClient, SaysClient, IsTrusted, InNetworks, ParseIpToken, Names, Trim, ClientIpOf;
    TrustedIff(peer, proxies);
    var (kind, header) := if HeaderEntries(forwarded) != [] then (Forwarded, forwarded)
                          else (XForwardedFor, xForwardedFor);
    var entries := HeaderEntries(header);
    if IsTrusted(peer, proxies) {
      AnswerIsRightmostClient(std, peer, proxies, forwarded, xForwardedFor, xRealIp);
      forall i: nat, addr
        ensures IsClient(std, kind, entries, proxies, i, addr) <==> SaysClient(std, kind, entries, proxies, i, addr)
      {
        ClientIff(std, kind, entries, proxies, i, addr);
      }
      if xRealIp.Some? {
        forall addr
          ensures ParseIpToken(std, xRealIp.value) == Some(addr) <==> Names(std, Trim(xRealIp.value), addr)
        {
          TokenIff(std, xRealIp.value, addr);
        }
      }
    }
  }

  /** Text put in front of the deciding header changes nothing in the answer, and neither does anything
      in the headers after it. */
  lemma PrependingKeepsAnswer(std: Std, peer: IpAddr, proxies: seq<Cidr>, forwarded: Option<string>,
                              xForwardedFor: Option<string>,
                              xRealIp: Option<string>, text: string, otherFor: Option<string>, otherIp: Option<string>)
    requires ValidStd(std) && ValidAddr(peer) && ValidProxies(proxies)
    ensures ClientIpOf(std, Forwarded, forwarded, proxies).Found? ==>
              ClientAddress(std, peer, proxies, Some(text + ("," + forwarded.value)), otherFor, otherIp)
                == ClientAddress(std, peer, proxies, forwarded, xForwardedFor, xRealIp)
    ensures ClientIpOf(std, Forwarded, forwarded, proxies).Missing? &&
            ClientIpOf(std, XForwardedFor, xForwardedFor, proxies).Found? ==>
              ClientAddress(std, peer, proxies, forwarded, Some(text + ("," + xForwardedFor.value)), otherIp)
                == ClientAddress(std, peer, proxies, forwarded, xForwardedFor, xRealIp)
  {
    hide WalkBack, Entries, Split, IsTrusted;
    if ClientIpOf(std, Forwarded, forwarded, proxies).Found? {
      PrependingChangesNothing(std, Forwarded, forwarded.value, proxies, text);
    }
    if ClientIpOf(std, XForwardedFor, xForwardedFor, proxies).Found? {
      PrependingChangesNothing(std, XForwardedFor, xForwardedFor.value, proxies, text);
    }
  }
}
