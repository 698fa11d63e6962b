// The text of a breached-password file: its lines, the hash a line carries, and what
// makes a file acceptable. Both lookups are specified by `Carries`, which mentions
// neither cursors nor probes.
module BreachFile {
  import opened Wrappers
  import opened Text

  datatype BreachError =
    | TooSmall
    | TooLargeForScan
    | InvalidQuery
    | NotUtf8
    | BlankEntry(line: nat)
    | InvalidEntry(line: nat)
    | UnsortedEntry(line: nat)
    | NoHashes
    | InvalidProbedEntry
    | UnexpectedEnd

  datatype Ordering = Less | Equal | Greater

  // ----- lines -----

  /** The offset just past the line that holds offset `p`, its newline included. */
  function LineEnd(c: seq<Byte>, p: nat): (e: nat)
    requires p <= |c|
    ensures p <= e <= |c|
    ensures p < |c| ==> p < e
    ensures forall k :: p <= k < e - 1 ==> c[k] != NEWLINE
    ensures p < e < |c| ==> c[e - 1] == NEWLINE
    decreases |c| - p
  {
    if p == |c| then p
    else if c[p] == NEWLINE then p + 1
    else LineEnd(c, p + 1)
  }

  predicate IsLineStart(c: seq<Byte>, p: int) {
    0 <= p < |c| && (p == 0 || c[p - 1] == NEWLINE)
  }

  /** A line start, or the end of the file. */
  predicate IsBoundary(c: seq<Byte>, p: int) {
    p == |c| || IsLineStart(c, p)
  }

  /** Nothing starts strictly inside a line. */
  lemma NextLineStart(c: seq<Byte>, p: nat)
    requires p < |c|
    ensures IsBoundary(c, LineEnd(c, p))
    ensures forall q :: p < q < LineEnd(c, p) ==> !IsLineStart(c, q)
  {
  }

  lemma LineEndIsBoundary(c: seq<Byte>, p: nat)
    requires p < |c|
    ensures IsBoundary(c, LineEnd(c, p))
  {
  }

  /** How many newlines the first `p` bytes hold. */
  ghost function Newlines(c: seq<Byte>, p: nat): nat
    requires p <= |c|
  {
    if p == 0 then 0 else Newlines(c, p - 1) + if c[p - 1] == NEWLINE then 1 else 0
  }

  lemma NewlinesWithin(c: seq<Byte>, p: nat, q: nat)
    requires p <= q <= |c|
    requires forall k :: p <= k < q ==> c[k] != NEWLINE
    ensures Newlines(c, q) == Newlines(c, p)
    decreases q
  {
    if p < q { NewlinesWithin(c, p, q - 1); }
  }

  /** Reading one line on raises the line number by one, unless the file ends there. */
  lemma NewlinesAcross(c: seq<Byte>, p: nat)
    requires p < |c|
    ensures LineEnd(c, p) < |c| ==> Newlines(c, LineEnd(c, p)) == Newlines(c, p) + 1
  {
    NewlinesWithin(c, p, LineEnd(c, p) - 1);
  }

  // ----- the hash of a line -----

  function BeforeColon(s: string): (r: string)
    ensures r <= s && ':' !in r
    ensures r == s || s[|r|] == ':'
  {
    if s == "" || s[0] == ':' then "" else [s[0]] + BeforeColon(s[1..])
  }

  predicate IsHexDigit(c: char) {
    '0' <= c <= '9' || 'a' <= c <= 'f' || 'A' <= c <= 'F'
  }

  predicate AllHex(s: string) {
    forall c :: c in s ==> IsHexDigit(c)
  }

  function NormalizeSha1(value: string): (r: Option<string>)
    ensures r.Some? ==> |r.value| == 40 <= |value|
  {
    var v := Trim(value);
    if |v| == 40 && AllHex(v) then Some(Uppercase(v)) else None
  }

  /** A normalized hash is 40 upper-case hexadecimal digits, and normalizing it again changes nothing. */
  lemma NormalizedHash(value: string)
    requires NormalizeSha1(value).Some?
    ensures var h := NormalizeSha1(value).value;
      && NormalizeSha1(h) == Some(h)
      && forall i :: 0 <= i < 40 ==> '0' <= h[i] <= '9' || 'A' <= h[i] <= 'F'
  {
    var v := Trim(value);
    var h := Uppercase(v);
    UppercaseHex(v);
    assert IsHexDigit(h[0]) && IsHexDigit(h[39]);
    assert TrimEnd(h) == h && TrimStart(h) == h;
  }

  lemma {:induction false} UppercaseHex(v: string)
    requires AllHex(v)
    ensures forall i :: 0 <= i < |v| ==> '0' <= Uppercase(v)[i] <= '9' || 'A' <= Uppercase(v)[i] <= 'F'
    ensures AllHex(Uppercase(v)) && Uppercase(Uppercase(v)) == Uppercase(v)
  {
    if v != "" {
      assert v[0] in v && forall c :: c in v[1..] ==> c in v;
      UppercaseHex(v[1..]);
    }
  }

  predicate FortyHexDigits(v: string) {
    |v| == 40 && forall i :: 0 <= i < 40 ==> '0' <= v[i] <= '9' || 'A' <= v[i] <= 'F' || 'a' <= v[i] <= 'f'
  }

  /** The same text with `a` to `f` as capitals. */
  function Capitals(v: string): (h: string)
    ensures |h| == |v|
  {
    seq(|v|, i requires 0 <= i < |v| => if 'a' <= v[i] <= 'f' then 'A' + (v[i] - 'a') else v[i])
  }

  /** `v` is 40 hexadecimal digits, and `h` the same digits with the letters as capitals. */
  predicate CapitalHex(v: string, h: string) {
    FortyHexDigits(v) && h == Capitals(v)
  }

  /** Exactly the trimmed texts of 40 hexadecimal digits normalize, to the same digits in capitals. */
  lemma Normalizes(value: string)
    ensures NormalizeSha1(value) == if FortyHexDigits(Trim(value)) then Some(Capitals(Trim(value))) else None
  {
    hide Trim, Uppercase;
    var v := Trim(value);
    assert AllHex(v) <==> forall i :: 0 <= i < |v| ==> IsHexDigit(v[i]);
    forall i | 0 <= i < |v|
      ensures Uppercase(v)[i] == if 'a' <= v[i] <= 'z' then 'A' + (v[i] - 'a') else v[i]
    {
      UppercaseAt(v, i);
    }
    assert FortyHexDigits(v) ==> Uppercase(v) == Capitals(v);
  }

  lemma HexIsTrimmed(v: string)
    requires FortyHexDigits(v)
    ensures Trim(v) == v && ':' !in v && v != ""
  {
    assert forall i :: 0 <= i < 40 ==> v[i] != ':';
    TrimKeeps(v);
  }

  function HashFromLine(line: string): (r: Option<string>)
    ensures r.Some? ==> |line| >= 40
  {
    NormalizeSha1(Trim(BeforeColon(line)))
  }

  /** `BufRead::lines` drops the newline and then one carriage return. */
  function StripTerminator(s: string): (r: string)
    ensures r <= s
  {
    if s != "" && s[|s| - 1] == '\n' then
      var t := s[..|s| - 1];
      if t != "" && t[|t| - 1] == '\r' then t[..|t| - 1] else t
    else s
  }

  /** Dropping a final whitespace character changes neither reading of the line. */
  lemma HashIgnoresFinalSpace(s: string)
    requires s != "" && IsWhitespace(s[|s| - 1])
    ensures HashFromLine(s[..|s| - 1]) == HashFromLine(s)
  {
    var t := s[..|s| - 1];
    BeforeColonPrefix(t, s[|s| - 1]);
    assert t + [s[|s| - 1]] == s;
    if BeforeColon(t) == t {
      assert s[..|s| - 1] == t;
    }
  }

  lemma {:induction false} BeforeColonPrefix(t: string, c: char)
    requires c != ':'
    ensures BeforeColon(t + [c]) == if ':' in t then BeforeColon(t) else t + [c]
    ensures ':' !in t ==> BeforeColon(t) == t
  {
    if t == "" {
      assert BeforeColon([c]) == [c] + BeforeColon([c][1..]);
    } else if t[0] != ':' {
      assert (t + [c])[1..] == t[1..] + [c];
      BeforeColonPrefix(t[1..], c);
      assert t == [t[0]] + t[1..];
    }
  }

  /** `lines` strips the terminator and `read_line` keeps it: they carry the same hash. */
  lemma HashIgnoresTerminator(s: string)
    ensures HashFromLine(StripTerminator(s)) == HashFromLine(s)
  {
    hide HashFromLine;
    if s != "" && s[|s| - 1] == '\n' {
      HashIgnoresFinalSpace(s);
      var t := s[..|s| - 1];
      if t != "" && t[|t| - 1] == '\r' {
        HashIgnoresFinalSpace(t);
      }
    }
  }

  /** A line carries `h` exactly when what stands before its first colon, if it has one, is `h` in either
      case and perhaps between white space. */
  lemma LineHashIff(line: string, h: string)
    ensures HashFromLine(line) == Some(h) <==> CapitalHex(Trim(BeforeColon(line)), h)
  {
    hide NormalizeSha1, Trim;
    var t := Trim(BeforeColon(line));
    Normalizes(t);
    if t != "" {
      TrimmedEnds(BeforeColon(line));
    } else {
      TrimOfNothing();
    }
  }

  lemma TrimOfNothing()
    ensures Trim("") == ""
  {
  }

  lemma HashBeforeColon(hash: string, rest: string, h: string)
    requires CapitalHex(hash, h)
    requires rest == "" || rest[0] == ':'
    ensures HashFromLine(hash + rest) == Some(h)
  {
    hide Trim, BeforeColon;
    HexIsTrimmed(hash);
    BeforeColonStops(hash, rest);
    LineHashIff(hash + rest, h);
  }

  /** A line may carry a count after a colon and may end in a newline, in CRLF or at the end of the
      file: its hash is the text before all that, in capitals. */
  lemma EntryHash(hash: string, count: string, terminator: string, h: string)
    requires CapitalHex(hash, h)
    requires count == "" || count[0] == ':'
    requires terminator == "" || terminator == "\n" || terminator == "\r\n"
    ensures HashFromLine(hash + count + terminator) == Some(h)
  {
    hide HashFromLine, CapitalHex;
    var line := hash + count + terminator;
    if count != "" {
      HashBeforeColon(hash, count + terminator, h);
      assert line == hash + (count + terminator);
    } else {
      HashBeforeColon(hash, "", h);
      assert hash + "" == hash && line == hash + terminator;
      if terminator != "" {
        HashIgnoresFinalSpace(line);
        if terminator == "\r\n" {
          assert line[..|line| - 1] == hash + "\r";
          HashIgnoresFinalSpace(hash + "\r");
          assert (hash + "\r")[..|hash|] == hash;
        } else {
          assert line[..|line| - 1] == hash;
        }
      }
    }
  }

  lemma {:induction false} BeforeColonStops(s: string, rest: string)
    requires ':' !in s
    requires rest == "" || rest[0] == ':'
    ensures BeforeColon(s + rest) == s
  {
    if s == "" {
      assert s + rest == rest;
    } else {
      BeforeColonStops(s[1..], rest);
      assert (s + rest)[1..] == s[1..] + rest;
      assert s == [s[0]] + s[1..];
    }
  }

  // ----- ordering of hashes -----

  function Compare(a: string, b: string): Ordering {
    if a == "" && b == "" then Equal
    else if a == "" then Less
    else if b == "" then Greater
    else if a[0] < b[0] then Less
    else if a[0] > b[0] then Greater
    else Compare(a[1..], b[1..])
  }

  /** The texts agree up to `i`, and there `a` ends or has the smaller character. */
  predicate PrecedesAt(a: string, b: string, i: nat) {
    i <= |a| && i < |b| && a[..i] == b[..i] && (i == |a| || a[i] < b[i])
  }

  lemma PrecedesBehind(a: string, b: string, i: nat)
    requires a != "" && b != "" && a[0] == b[0]
    ensures PrecedesAt(a[1..], b[1..], i) <==> PrecedesAt(a, b, i + 1)
  {
    if i < |a| && i < |b| {
      assert a[..i + 1] == [a[0]] + a[1..][..i] && b[..i + 1] == [b[0]] + b[1..][..i];
      assert a[1..][..i] == a[..i + 1][1..] && b[1..][..i] == b[..i + 1][1..];
    }
  }

  /** The first difference decides, and a proper prefix comes first. */
  lemma {:induction false} LessIsLexicographic(a: string, b: string)
    ensures Compare(a, b) == Less <==> exists i: nat :: PrecedesAt(a, b, i)
  {
    if a != "" && b != "" && a[0] == b[0] {
      LessIsLexicographic(a[1..], b[1..]);
      forall i: nat
        ensures PrecedesAt(a[1..], b[1..], i) <==> PrecedesAt(a, b, i + 1)
      {
        PrecedesBehind(a, b, i);
      }
      forall i: nat | PrecedesAt(a, b, i)
        ensures i > 0 && PrecedesAt(a[1..], b[1..], i - 1)
      {
        assert i > 0;
        PrecedesBehind(a, b, i - 1);
      }
    } else {
      FirstCharacterDecides(a, b);
    }
  }

  lemma FirstCharacterDecides(a: string, b: string)
    requires a == "" || b == "" || a[0] != b[0]
    ensures PrecedesAt(a, b, 0) <==> b != "" && (a == "" || a[0] < b[0])
    ensures forall i: nat :: PrecedesAt(a, b, i) ==> i == 0
  {
    assert forall i: nat :: 0 < i <= |a| && i < |b| ==> a[..i][0] == a[0] && b[..i][0] == b[0];
  }

  lemma {:induction false} CompareEqual(a: string, b: string)
    ensures Compare(a, b) == Equal <==> a == b
  {
    if a != "" && b != "" && a[0] == b[0] {
      CompareEqual(a[1..], b[1..]);
      assert a == [a[0]] + a[1..] && b == [b[0]] + b[1..];
    }
  }

  lemma {:induction false} CompareSwap(a: string, b: string)
    ensures Compare(a, b) == Less <==> Compare(b, a) == Greater
  {
    if a != "" && b != "" && a[0] == b[0] { CompareSwap(a[1..], b[1..]); }
  }

  predicate AtMost(a: string, b: string) {
    Compare(a, b) != Greater
  }

  /** Sorted files may repeat a hash. */
  lemma AtMostIff(a: string, b: string)
    ensures AtMost(a, b) <==> a == b || exists i: nat :: PrecedesAt(a, b, i)
  {
    LessIsLexicographic(a, b);
    CompareEqual(a, b);
    CompareSwap(a, b);
  }

  lemma {:induction false} AtMostTransitive(a: string, b: string, c: string)
    requires AtMost(a, b) && AtMost(b, c)
    ensures AtMost(a, c)
    ensures Compare(a, b) == Less || Compare(b, c) == Less ==> Compare(a, c) == Less
  {
    if a != "" && b != "" && c != "" && a[0] == b[0] == c[0] {
      AtMostTransitive(a[1..], b[1..], c[1..]);
    }
  }

  // ----- files -----

  /** The line starting at `p` as text, terminator included; None when it is not UTF-8. */
  function LineText(c: seq<Byte>, p: nat): (r: Option<string>)
    requires p < |c|
    ensures r.Some? ==> |r.value| <= LineEnd(c, p) - p
  {
    DecodeUtf8(c[p..LineEnd(c, p)])
  }

  function HashAt(c: seq<Byte>, p: nat): (r: Option<string>)
    requires p < |c|
    ensures r.Some? ==> LineEnd(c, p) >= p + 40
  {
    match LineText(c, p)
    case None => None
    case Some(line) => HashFromLine(line)
  }

  /** Some line of the file carries `hash`. */
  ghost predicate Carries(c: seq<Byte>, hash: string) {
    exists p :: IsLineStart(c, p) && HashAt(c, p) == Some(hash)
  }

  /** Every line that starts before `n` has a hash and, in a sorted file, the hashes never fall. */
  ghost predicate AcceptedUpTo(c: seq<Byte>, n: nat, sorted: bool) {
    && (forall p :: IsLineStart(c, p) && p < n ==> HashAt(c, p).Some?)
    && (sorted ==> forall p, q :: IsLineStart(c, p) && IsLineStart(c, q) && p < q < n ==>
          HashAt(c, p).Some? && HashAt(c, q).Some? && AtMost(HashAt(c, p).value, HashAt(c, q).value))
  }

  /** The files `validate_breached_password_file` promises to accept, size guards aside. */
  ghost predicate Accepted(c: seq<Byte>, sorted: bool) {
    c != [] && AcceptedUpTo(c, |c|, sorted)
  }

  predicate IsBlank(c: seq<Byte>, p: nat)
    requires p < |c|
  {
    LineText(c, p).Some? && Trim(StripTerminator(LineText(c, p).value)) == ""
  }

  ghost predicate OutOfOrder(c: seq<Byte>, p: nat)
    requires p < |c|
  {
    exists q :: IsLineStart(c, q) && q < p && HashAt(c, q).Some? && HashAt(c, p).Some? &&
                !AtMost(HashAt(c, q).value, HashAt(c, p).value)
  }

  /** What is wrong with the line starting at `p`, given the lines above it. */
  ghost function Fault(c: seq<Byte>, p: nat, sorted: bool): Option<BreachError>
    requires p < |c|
  {
    var line := Newlines(c, p) + 1;
    if LineText(c, p).None? then Some(NotUtf8)
    else if IsBlank(c, p) then Some(BlankEntry(line))
    else if HashAt(c, p).None? then Some(InvalidEntry(line))
    else if sorted && OutOfOrder(c, p) then Some(UnsortedEntry(line))
    else None
  }

  /** A line written as 40 hexadecimal digits of either case, an optional count and a terminator carries
      exactly that hash, in capitals. */
  lemma EntryLine(c: seq<Byte>, p: nat, hash: string, count: string, terminator: string, h: string)
    requires CapitalHex(hash, h)
    requires count == "" || count[0] == ':'
    requires terminator == "" || terminator == "\n" || terminator == "\r\n"
    requires IsAscii(hash + count + terminator)
    requires p < |c| && c[p..LineEnd(c, p)] == AsciiBytes(hash + count + terminator)
    ensures HashAt(c, p) == Some(h)
  {
    hide HashFromLine, CapitalHex, DecodeUtf8, AsciiBytes;
    DecodeAscii(hash + count + terminator);
    EntryHash(hash, count, terminator, h);
  }

  /** The bytes of the line starting at `p` are the text `line`, which spells `h` before its first colon. */
  predicate LineSpells(c: seq<Byte>, p: int, line: string, h: string) {
    IsLineStart(c, p) && c[p..LineEnd(c, p)] == EncodeUtf8(line) && CapitalHex(Trim(BeforeColon(line)), h)
  }

  lemma HashAtIff(c: seq<Byte>, p: int, h: string)
    requires IsLineStart(c, p)
    ensures HashAt(c, p) == Some(h) <==> exists line: string :: LineSpells(c, p, line, h)
  {
    hide HashFromLine, CapitalHex, DecodeUtf8, EncodeUtf8, Trim, BeforeColon, LineEnd;
    if HashAt(c, p) == Some(h) {
      var line := LineText(c, p).value;
      DecodesIffEncoded(c[p..LineEnd(c, p)], line);
      LineHashIff(line, h);
      assert LineSpells(c, p, line, h);
    }
    if exists line: string :: LineSpells(c, p, line, h) {
      var line: string :| LineSpells(c, p, line, h);
      DecodesIffEncoded(c[p..LineEnd(c, p)], line);
      LineHashIff(line, h);
    }
  }

  /** A file carries `h` exactly when the bytes of some line are a text that spells it. */
  lemma CarriesIff(c: seq<Byte>, h: string)
    ensures Carries(c, h) <==> exists p: int, line: string :: LineSpells(c, p, line, h)
  {
    hide HashAt, CapitalHex, EncodeUtf8, Trim, BeforeColon, LineEnd;
    forall p: int | IsLineStart(c, p)
      ensures HashAt(c, p) == Some(h) <==> exists line: string :: LineSpells(c, p, line, h)
    {
      HashAtIff(c, p, h);
    }
  }

  /** A line is blank exactly when its bytes are a text of white space. */
  lemma BlankIff(c: seq<Byte>, p: nat)
    requires p < |c|
    ensures IsBlank(c, p) <==>
            exists line :: c[p..LineEnd(c, p)] == EncodeUtf8(line) &&
                           forall i :: 0 <= i < |line| ==> line[i] in WHITE_SPACE
  {
    hide DecodeUtf8, EncodeUtf8, Trim, WHITE_SPACE, IsWhitespace, LineEnd;
    forall line: string
      ensures LineText(c, p) == Some(line) <==> c[p..LineEnd(c, p)] == EncodeUtf8(line)
      ensures Trim(StripTerminator(line)) == "" <==> forall i :: 0 <= i < |line| ==> line[i] in WHITE_SPACE
    {
      DecodesIffEncoded(c[p..LineEnd(c, p)], line);
      BlankText(line);
    }
  }

  lemma BlankText(line: string)
    ensures Trim(StripTerminator(line)) == "" <==> forall i :: 0 <= i < |line| ==> line[i] in WHITE_SPACE
  {
    hide WHITE_SPACE, Trim;
    forall i | 0 <= i < |line|
      ensures IsWhitespace(line[i]) <==> line[i] in WHITE_SPACE
    {
      WhitespaceIff(line[i]);
    }
    var t := StripTerminator(line);
    assert forall i :: |t| <= i < |line| ==> IsWhitespace(line[i]);
    if Trim(t) == "" { TrimmedToNothing(t); }
    if forall i :: 0 <= i < |line| ==> IsWhitespace(line[i]) { AllSpaceTrims(t); }
  }

  lemma BlankHasNoHash(s: string)
    requires Trim(s) == ""
    ensures HashFromLine(s).None?
  {
    TrimmedToNothing(s);
    AllSpaceTrims(BeforeColon(s));
  }

  lemma TrimmedToNothing(s: string)
    requires Trim(s) == ""
    ensures forall i :: 0 <= i < |s| ==> IsWhitespace(s[i])
  {
    TrimEndDrops(s);
    TrimStartDrops(TrimEnd(s));
  }

  lemma AllSpaceTrims(s: string)
    requires forall i :: 0 <= i < |s| ==> IsWhitespace(s[i])
    ensures Trim(s) == ""
  {
    if s != "" {
      AllSpaceTrims(s[..|s| - 1]);
    }
  }
}
