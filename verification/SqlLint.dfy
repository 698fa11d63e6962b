// The line-comment finder and the identifier search of the scoped-SQL lint. Lines are sequences of
// characters: every delimiter is ASCII, so no part of a longer character is ever taken for one.
module SqlLint {
  import opened Wrappers
  import opened Text

  // ----- literal lengths, from the front of a text -----

  /** How much of `s` a quoted literal takes after its opening quote, the closing quote included. */
  function QuotedLength(s: string, escaped: bool): (n: nat)
    ensures n <= |s|
  {
    if s == "" then 0
    else if escaped then 1 + QuotedLength(s[1..], false)
    else if s[0] == '\\' then 1 + QuotedLength(s[1..], true)
    else if s[0] == '"' then 1
    else 1 + QuotedLength(s[1..], false)
  }

  function Hashes(s: string): (n: nat)
    ensures n <= |s| && (forall i :: 0 <= i < n ==> s[i] == '#') && (n < |s| ==> s[n] != '#')
  {
    if s != "" && s[0] == '#' then 1 + Hashes(s[1..]) else 0
  }

  /** The text starts with a quote and `hashes` hash signs. */
  predicate ClosesRaw(s: string, hashes: nat) {
    |s| > hashes && s[0] == '"' && forall i :: 1 <= i <= hashes ==> s[i] == '#'
  }

  /** How much of `s` a raw literal takes after its opening quote, its closing delimiter included. */
  function RawBodyLength(s: string, hashes: nat): (n: nat)
    ensures n <= |s|
  {
    if s == "" then 0
    else if ClosesRaw(s, hashes) then 1 + hashes
    else 1 + RawBodyLength(s[1..], hashes)
  }

  function RawLength(s: string): (n: Option<nat>)
    ensures n.Some? ==> 0 < n.value <= |s|
  {
    if s == "" || s[0] != 'r' then None
    else
      var hashes := Hashes(s[1..]);
      if 1 + hashes < |s| && s[1 + hashes] == '"'
      then Some(2 + hashes + RawBodyLength(s[2 + hashes..], hashes))
      else None
  }

  /** The length of the string literal that starts the text, if one does. Every skip advances and stays
      within the line. */
  function LiteralLength(s: string): (n: Option<nat>)
    requires s != ""
    ensures n.Some? ==> 0 < n.value <= |s|
  {
    if s[0] == '"' then Some(1 + QuotedLength(s[1..], false))
    else if s[0] == 'b' && |s| > 1 && s[1] == '"' then Some(2 + QuotedLength(s[2..], false))
    else if RawLength(s).Some? then RawLength(s)
    else if s[0] == 'b' && RawLength(s[1..]).Some? then Some(1 + RawLength(s[1..]).value)
    else None
  }

  /** Where the first `//` outside the recognized literals begins. */
  function CommentAt(s: string): (n: Option<nat>)
    ensures n.Some? ==> n.value + 2 <= |s|
  {
    if |s| < 2 then None
    else if s[0] == '/' && s[1] == '/' then Some(0)
    else
      var skip := if LiteralLength(s).Some? then LiteralLength(s).value else 1;
      match CommentAt(s[skip..])
      case None => None
      case Some(n) => Some(skip + n)
  }

  // ----- the scanner's loops -----

  /** An end index in `bytes` for the literal measured from `index`. */
  function EndIndex(index: nat, length: Option<nat>): Option<nat> {
    if length.Some? then Some(index + length.value) else None
  }

  method QuotedStringEnd(bytes: string, start: nat) returns (end: nat)
    requires start <= |bytes|
    ensures end == start + QuotedLength(bytes[start..], false) <= |bytes|
  {
    var index, escaped := start, false;
    while index < |bytes|
      invariant start <= index <= |bytes|
      invariant start + QuotedLength(bytes[start..], false) == index + QuotedLength(bytes[index..], escaped)
    {
      if escaped {
        escaped := false;
      } else if bytes[index] == '\\' {
        escaped := true;
      } else if bytes[index] == '"' {
        return index + 1;
      }
      assert bytes[index..][1..] == bytes[index + 1..];
      index := index + 1;
    }
    return |bytes|;
  }

  lemma HashesStep(bytes: string, cursor: nat)
    requires cursor <= |bytes|
    ensures Hashes(bytes[cursor..])
         == if cursor < |bytes| && bytes[cursor] == '#' then 1 + Hashes(bytes[cursor + 1..]) else 0
  {
    if cursor < |bytes| { assert bytes[cursor..][1..] == bytes[cursor + 1..]; }
  }

  /** The delimiter test of the raw-literal loop. */
  predicate ClosingAt(bytes: string, cursor: nat, hashes: nat)
    requires cursor < |bytes|
  {
    bytes[cursor] == '"' && cursor + 1 + hashes <= |bytes| &&
    forall k :: cursor + 1 <= k < cursor + 1 + hashes ==> bytes[k] == '#'
  }

  lemma RawBodyStep(bytes: string, cursor: nat, hashes: nat)
    requires cursor < |bytes|
    ensures RawBodyLength(bytes[cursor..], hashes)
         == if ClosingAt(bytes, cursor, hashes) then 1 + hashes else 1 + RawBodyLength(bytes[cursor + 1..], hashes)
  {
    var s := bytes[cursor..];
    assert s[1..] == bytes[cursor + 1..];
    assert forall i :: 0 <= i < |s| ==> s[i] == bytes[cursor + i];
    if ClosesRaw(s, hashes) {
      assert forall k :: cursor + 1 <= k < cursor + 1 + hashes ==> bytes[k] == s[k - cursor];
    }
  }

  lemma RawLengthAt(bytes: string, index: nat)
    requires index < |bytes|
    ensures var hashes := Hashes(bytes[index + 1..]);
      RawLength(bytes[index..])
        == if bytes[index] == 'r' && index + 1 + hashes < |bytes| && bytes[index + 1 + hashes] == '"'
           then Some(2 + hashes + RawBodyLength(bytes[index + 2 + hashes..], hashes)) else None
  {
    hide Hashes, RawBodyLength;
    var s := bytes[index..];
    assert s[1..] == bytes[index + 1..];
    var hashes := Hashes(s[1..]);
    if 1 + hashes < |s| { assert s[2 + hashes..] == bytes[index + 2 + hashes..]; }
  }

  method RawStringLiteralEnd(bytes: string, index: nat) returns (end: Option<nat>)
    requires index <= |bytes|
    ensures end == EndIndex(index, RawLength(bytes[index..]))
  {
    hide Hashes, RawBodyLength, ClosesRaw, ClosingAt;
    if index == |bytes| || bytes[index] != 'r' {
      return None;
    }
    RawLengthAt(bytes, index);
    var hashes, cursor := 0, index + 1;
    hide RawLength;
    HashesStep(bytes, cursor);
    while cursor < |bytes| && bytes[cursor] == '#'
      invariant cursor == index + 1 + hashes <= |bytes|
      invariant Hashes(bytes[index + 1..]) == hashes + Hashes(bytes[cursor..])
    {
      HashesStep(bytes, cursor);
      hashes := hashes + 1;
      cursor := cursor + 1;
    }
    HashesStep(bytes, cursor);
    if cursor == |bytes| || bytes[cursor] != '"' {
      return None;
    }
    cursor := cursor + 1;
    ghost var body := cursor;
    while cursor < |bytes|
      invariant body <= cursor <= |bytes|
      invariant body + RawBodyLength(bytes[body..], hashes) == cursor + RawBodyLength(bytes[cursor..], hashes)
    {
      RawBodyStep(bytes, cursor, hashes);
      if ClosingAt(bytes, cursor, hashes) {
        return Some(cursor + 1 + hashes);
      }
      cursor := cursor + 1;
    }
    return Some(|bytes|);
  }

  method StringLiteralEnd(bytes: string, index: nat) returns (end: Option<nat>)
    requires index < |bytes|
    ensures end == EndIndex(index, LiteralLength(bytes[index..]))
  {
    hide QuotedLength, RawLength;
    if bytes[index] == '"' {
      var e := QuotedStringEnd(bytes, index + 1);
      assert bytes[index..][1..] == bytes[index + 1..];
      return Some(e);
    }
    if bytes[index] == 'b' && index + 1 < |bytes| && bytes[index + 1] == '"' {
      var e := QuotedStringEnd(bytes, index + 2);
      assert bytes[index..][2..] == bytes[index + 2..];
      return Some(e);
    }
    end := RawStringLiteralEnd(bytes, index);
    if end.None? && bytes[index] == 'b' {
      end := RawStringLiteralEnd(bytes, index + 1);
      assert bytes[index..][1..] == bytes[index + 1..];
    }
  }

  lemma CommentStep(line: string, index: nat)
    requires index + 1 < |line|
    ensures var here := line[index..];
      CommentAt(here)
        == if line[index] == '/' && line[index + 1] == '/' then Some(0)
           else
             var skip := if LiteralLength(here).Some? then LiteralLength(here).value else 1;
             EndIndex(skip, CommentAt(line[index + skip..]))
  {
    hide LiteralLength;
    var here := line[index..];
    var skip := if LiteralLength(here).Some? then LiteralLength(here).value else 1;
    assert here[skip..] == line[index + skip..];
  }

  method LineComment(line: string) returns (comment: Option<string>)
    ensures comment == match CommentAt(line) case None => None case Some(n) => Some(line[n..])
  {
    hide CommentAt, LiteralLength;
    var index := 0;
    assert line[0..] == line;
    while index + 1 < |line|
      invariant index <= |line|
      invariant CommentAt(line) == EndIndex(index, CommentAt(line[index..]))
      decreases |line| - index
    {
      CommentStep(line, index);
      if line[index] == '/' && line[index + 1] == '/' {
        return Some(line[index..]);
      }
      var end := StringLiteralEnd(line, index);
      match end {
        case Some(end) => index := end;
        case None => index := index + 1;
      }
    }
    TooShortForComment(line[index..]);
    return None;
  }

  lemma TooShortForComment(s: string)
    requires |s| < 2
    ensures CommentAt(s).None?
  {
  }

  // ----- rendered lines -----

  /** A character of a quoted literal: as it is, or behind a backslash. */
  datatype Unit = Plain(c: char) | Escaped(c: char)

  datatype Piece =
    | Code(text: string)
    | Quoted(byte: bool, units: seq<Unit>)
    | Raw(byte: bool, hashes: nat, body: string)

  predicate EndsWith(s: string, rest: string) {
    |s| >= |rest| && s[|s| - |rest|..] == rest
  }

  lemma EndsTransitive(s: string, t: string, rest: string)
    requires EndsWith(s, t) && EndsWith(t, rest)
    ensures EndsWith(s, rest)
  {
    assert s[|s| - |rest|..] == s[|s| - |t|..][|t| - |rest|..];
  }

  /** `n` hash signs, then `rest`. */
  function HashesBefore(n: nat, rest: string): (r: string)
    ensures |r| == n + |rest|
  {
    if n == 0 then rest else ['#'] + HashesBefore(n - 1, rest)
  }

  /** The units, the closing quote, then `rest`. */
  function UnitsBefore(units: seq<Unit>, rest: string): (r: string)
    ensures |r| > |rest|
  {
    if units == [] then ['"'] + rest
    else
      var tail := UnitsBefore(units[1..], rest);
      match units[0]
      case Plain(c) => [c] + tail
      case Escaped(c) => ['\\'] + ([c] + tail)
  }

  /** The body, the closing delimiter, then `rest`. */
  function RawBodyBefore(body: string, hashes: nat, rest: string): (r: string)
    ensures |r| == |body| + 1 + hashes + |rest|
  {
    if body == "" then ['"'] + HashesBefore(hashes, rest) else [body[0]] + RawBodyBefore(body[1..], hashes, rest)
  }

  /** The text of one piece, then `rest`. */
  function Before(piece: Piece, rest: string): string {
    match piece
    case Code(text) => text + rest
    case Quoted(byte, units) =>
      var quoted := ['"'] + UnitsBefore(units, rest);
      if byte then ['b'] + quoted else quoted
    case Raw(byte, hashes, body) =>
      var raw := ['r'] + HashesBefore(hashes, ['"'] + RawBodyBefore(body, hashes, rest));
      if byte then ['b'] + raw else raw
  }

  /** A line of code pieces that ends in `comment`. */
  function RenderLine(pieces: seq<Piece>, comment: string): string {
    if pieces == [] then comment else Before(pieces[0], RenderLine(pieces[1..], comment))
  }

  predicate CodeText(t: string) {
    '"' !in t && forall i :: 0 <= i < |t| - 1 ==> !(t[i] == '/' && t[i + 1] == '/')
  }

  /** The text ends in `r`, possibly followed by hash signs: a quote after it would open a raw literal. */
  predicate EndsInRawPrefix(t: string) {
    t != "" && (t[|t| - 1] == 'r' || (t[|t| - 1] == '#' && EndsInRawPrefix(t[..|t| - 1])))
  }

  predicate WellFormed(piece: Piece) {
    match piece
    case Code(text) => CodeText(text)
    case Quoted(_, units) => forall u :: u in units && u.Plain? ==> u.c != '"' && u.c != '\\'
    case Raw(_, hashes, body) => forall i :: 0 <= i < |body| ==> !ClosesRaw(body[i..], hashes)
  }

  predicate IsComment(comment: string) {
    |comment| >= 2 && comment[0] == '/' && comment[1] == '/'
  }

  /** Pieces that a line of code consists of: code runs are not split, code before an ordinary quoted
      literal does not end in a raw prefix, and code before the comment does not end in a slash. */
  predicate LineOf(pieces: seq<Piece>, comment: string) {
    if pieces == [] then comment == "" || IsComment(comment)
    else
      && WellFormed(pieces[0])
      && LineOf(pieces[1..], comment)
      && (pieces[0].Code? ==>
            if |pieces| > 1 then
              && !pieces[1].Code?
              && (pieces[1].Quoted? && !pieces[1].byte ==> !EndsInRawPrefix(pieces[0].text))
            else comment != "" ==> pieces[0].text == "" || pieces[0].text[|pieces[0].text| - 1] != '/')
  }

  lemma {:induction false} UnitsEnd(units: seq<Unit>, rest: string)
    requires forall u :: u in units && u.Plain? ==> u.c != '"' && u.c != '\\'
    ensures QuotedLength(UnitsBefore(units, rest), false) == |UnitsBefore(units, rest)| - |rest|
  {
    if units != [] {
      var tail := UnitsBefore(units[1..], rest);
      UnitsEnd(units[1..], rest);
      match units[0] {
        case Plain(c) => assert units[0] in units;
        case Escaped(c) => assert ([c] + tail)[1..] == tail;
      }
    }
  }

  lemma {:induction false} HashesCounted(n: nat, rest: string)
    requires rest != "" ==> rest[0] != '#'
    ensures Hashes(HashesBefore(n, rest)) == n
    ensures HashesBefore(n, rest)[n..] == rest
  {
    if n > 0 {
      HashesCounted(n - 1, rest);
      assert HashesBefore(n, rest)[1..] == HashesBefore(n - 1, rest);
      assert HashesBefore(n, rest)[n..] == HashesBefore(n - 1, rest)[n - 1..];
    }
  }

  lemma {:induction false} HashesAt(n: nat, rest: string, i: nat)
    requires i < n
    ensures HashesBefore(n, rest)[i] == '#'
  {
    if i > 0 { HashesAt(n - 1, rest, i - 1); }
  }

  lemma {:induction false} BodyAt(body: string, hashes: nat, rest: string, i: nat)
    requires i <= |body|
    ensures RawBodyBefore(body, hashes, rest)[i] == if i < |body| then body[i] else '"'
  {
    if i > 0 { BodyAt(body[1..], hashes, rest, i - 1); }
  }

  /** The closing quote of a body that does not close early is the first one that closes it. */
  lemma NotClosedEarly(body: string, hashes: nat, rest: string)
    requires body != "" && !ClosesRaw(body, hashes)
    ensures !ClosesRaw(RawBodyBefore(body, hashes, rest), hashes)
  {
    var s := RawBodyBefore(body, hashes, rest);
    BodyAt(body, hashes, rest, 0);
    if |body| <= hashes {
      BodyAt(body, hashes, rest, |body|);
    } else if s[0] == '"' {
      var i :| 1 <= i <= hashes && body[i] != '#';
      BodyAt(body, hashes, rest, i);
    }
  }

  lemma {:induction false} RawBodyEnds(body: string, hashes: nat, rest: string)
    requires forall i :: 0 <= i < |body| ==> !ClosesRaw(body[i..], hashes)
    ensures RawBodyLength(RawBodyBefore(body, hashes, rest), hashes) == |body| + 1 + hashes
  {
    var s := RawBodyBefore(body, hashes, rest);
    if body == "" {
      forall i | 1 <= i <= hashes
        ensures s[i] == '#'
      {
        HashesAt(hashes, rest, i - 1);
      }
      assert ClosesRaw(s, hashes);
    } else {
      assert body[0..] == body;
      NotClosedEarly(body, hashes, rest);
      forall i | 0 <= i < |body| - 1
        ensures !ClosesRaw(body[1..][i..], hashes)
      {
        assert body[1..][i..] == body[i + 1..];
      }
      RawBodyEnds(body[1..], hashes, rest);
      assert s[1..] == RawBodyBefore(body[1..], hashes, rest);
    }
  }

  lemma RawMeasured(hashes: nat, body: string, rest: string)
    requires WellFormed(Raw(false, hashes, body))
    ensures var s := Before(Raw(false, hashes, body), rest); RawLength(s) == Some(|s| - |rest|)
  {
    hide RawBodyLength, RawBodyBefore, Hashes, HashesBefore;
    RawBodyEnds(body, hashes, rest);
    var inner := ['"'] + RawBodyBefore(body, hashes, rest);
    var s := Before(Raw(false, hashes, body), rest);
    HashesCounted(hashes, inner);
    assert s[1..] == HashesBefore(hashes, inner);
    assert s[1 + hashes..] == s[1..][hashes..] == inner;
    assert s[1 + hashes] == inner[0];
    assert s[2 + hashes..] == inner[1..] == RawBodyBefore(body, hashes, rest);
  }

  /** A `b` before a literal lengthens it by one. */
  lemma BytePrefix(s: string)
    requires s != "" && (s[0] == '"' || RawLength(s).Some?)
    ensures LiteralLength(['b'] + s) == EndIndex(1, LiteralLength(s))
    ensures RawLength(s).Some? ==> LiteralLength(s) == RawLength(s)
  {
    hide QuotedLength;
    assert (['b'] + s)[1..] == s;
    assert s[0] == '"' ==> (['b'] + s)[2..] == s[1..];
  }

  /** The scanner measures every well-formed literal exactly, whatever follows it. */
  lemma LiteralMeasured(piece: Piece, rest: string)
    requires !piece.Code? && WellFormed(piece)
    ensures var s := Before(piece, rest); s != "" && LiteralLength(s) == Some(|s| - |rest|)
  {
    hide Before, LiteralLength, RawLength, WellFormed;
    var plain := Plainly(piece);
    PlainlyMeasured(piece, rest);
    BytePrefix(Before(plain, rest));
  }

  /** The literal without its byte prefix. */
  function Plainly(piece: Piece): Piece
    requires !piece.Code?
  {
    piece.(byte := false)
  }

  lemma PlainlyMeasured(piece: Piece, rest: string)
    requires !piece.Code? && WellFormed(piece)
    ensures var s := Before(Plainly(piece), rest);
      && s != "" && (s[0] == '"' || RawLength(s).Some?)
      && (s[0] == '"' ==> LiteralLength(s) == Some(|s| - |rest|))
      && (RawLength(s).Some? ==> RawLength(s) == Some(|s| - |rest|))
    ensures Before(piece, rest)
         == if piece.byte then ['b'] + Before(Plainly(piece), rest) else Before(Plainly(piece), rest)
  {
    hide LiteralLength, RawLength;
    match piece
    case Quoted(byte, units) => QuotedMeasured(units, rest);
    case Raw(byte, hashes, body) => RawMeasured(hashes, body, rest);
  }

  lemma QuotedMeasured(units: seq<Unit>, rest: string)
    requires WellFormed(Quoted(false, units))
    ensures var s := Before(Quoted(false, units), rest);
      s[0] == '"' && RawLength(s).None? && LiteralLength(s) == Some(|s| - |rest|)
  {
    UnitsEnd(units, rest);
    hide UnitsBefore, QuotedLength;
    assert Before(Quoted(false, units), rest)[1..] == UnitsBefore(units, rest);
  }

  lemma {:induction false} UnitsTail(units: seq<Unit>, rest: string)
    ensures EndsWith(UnitsBefore(units, rest), rest)
  {
    if units != [] {
      UnitsTail(units[1..], rest);
      EndsTransitive(UnitsBefore(units, rest), UnitsBefore(units[1..], rest), rest);
    }
  }

  lemma {:induction false} HashesTail(n: nat, rest: string)
    ensures EndsWith(HashesBefore(n, rest), rest)
  {
    if n > 0 {
      HashesTail(n - 1, rest);
      EndsTransitive(HashesBefore(n, rest), HashesBefore(n - 1, rest), rest);
    }
  }

  lemma {:induction false} RawBodyTail(body: string, hashes: nat, rest: string)
    ensures EndsWith(RawBodyBefore(body, hashes, rest), rest)
  {
    if body == "" {
      HashesTail(hashes, rest);
      EndsTransitive(RawBodyBefore(body, hashes, rest), HashesBefore(hashes, rest), rest);
    } else {
      RawBodyTail(body[1..], hashes, rest);
      EndsTransitive(RawBodyBefore(body, hashes, rest), RawBodyBefore(body[1..], hashes, rest), rest);
    }
  }

  lemma RawTail(hashes: nat, body: string, rest: string)
    ensures EndsWith(HashesBefore(hashes, ['"'] + RawBodyBefore(body, hashes, rest)), rest)
  {
    var tail := RawBodyBefore(body, hashes, rest);
    RawBodyTail(body, hashes, rest);
    HashesTail(hashes, ['"'] + tail);
    hide RawBodyBefore, HashesBefore;
    var t := HashesBefore(hashes, ['"'] + tail);
    EndsTransitive(t, ['"'] + tail, tail);
    EndsTransitive(t, tail, rest);
  }

  lemma EndsBehind(c: char, s: string, rest: string)
    requires EndsWith(s, rest)
    ensures EndsWith([c] + s, rest)
  {
    EndsTransitive([c] + s, s, rest);
  }

  lemma BeforeEnds(piece: Piece, rest: string)
    ensures EndsWith(Before(piece, rest), rest)
  {
    match piece
    case Code(text) =>
    case Quoted(byte, units) =>
      UnitsTail(units, rest);
      hide UnitsBefore, EndsWith;
      EndsBehind('"', UnitsBefore(units, rest), rest);
      EndsBehind('b', ['"'] + UnitsBefore(units, rest), rest);
    case Raw(byte, hashes, body) =>
      RawTail(hashes, body, rest);
      hide RawBodyBefore, HashesBefore, EndsWith;
      var t := HashesBefore(hashes, ['"'] + RawBodyBefore(body, hashes, rest));
      EndsBehind('r', t, rest);
      EndsBehind('b', ['r'] + t, rest);
  }

  /** What can follow a run of code in a rendered line. */
  predicate Follows(t: string, rest: string) {
    && (rest != "" ==> rest[0] != '#')
    && (rest != "" && rest[0] == '"' ==> !EndsInRawPrefix(t))
    && (rest != "" && rest[0] == '/' ==> t == "" || t[|t| - 1] != '/')
  }

  lemma FollowsTail(t: string, rest: string)
    requires t != "" && Follows(t, rest) && CodeText(t)
    ensures Follows(t[1..], rest) && CodeText(t[1..])
  {
    if EndsInRawPrefix(t[1..]) { RawPrefixExtends(t); }
  }

  lemma {:induction false} RawPrefixExtends(t: string)
    requires t != "" && EndsInRawPrefix(t[1..])
    ensures EndsInRawPrefix(t)
  {
    var u := t[1..];
    if u[|u| - 1] != 'r' {
      assert t[..|t| - 1][1..] == u[..|u| - 1];
      RawPrefixExtends(t[..|t| - 1]);
    }
  }

  lemma {:induction false} AllHashesAfterR(t: string)
    requires t != "" && t[0] == 'r' && forall i :: 1 <= i < |t| ==> t[i] == '#'
    ensures EndsInRawPrefix(t)
  {
    if |t| > 1 { AllHashesAfterR(t[..|t| - 1]); }
  }

  /** No raw literal starts inside a run of code. */
  lemma NoRawInCode(t: string, rest: string)
    requires t != "" && CodeText(t) && Follows(t, rest)
    ensures RawLength(t + rest).None?
  {
    var s := t + rest;
    if s[0] == 'r' {
      var h := Hashes(s[1..]);
      if 1 + h < |t| {
        assert s[1 + h] == t[1 + h] && t[1 + h] in t;
      } else if 1 + h < |s| {
        assert forall i :: 1 <= i < |t| ==> t[i] == s[1..][i - 1] == '#';
        assert rest != "" ==> s[1..][|t| - 1] == rest[0];
        AllHashesAfterR(t);
      }
    }
  }

  /** Code is passed over character by character, up to the literal or comment that follows it. */
  lemma {:induction false} CodePassed(t: string, rest: string)
    requires CodeText(t) && Follows(t, rest)
    ensures CommentAt(t + rest) == EndIndex(|t|, CommentAt(rest))
  {
    hide CommentAt, CodeText, Follows;
    if t == "" {
      assert t + rest == rest;
    } else {
      FollowsTail(t, rest);
      CodePassed(t[1..], rest);
      if t == ['b'] && rest != "" {
        assert t[1..] + rest == rest;
        ByteLetterBeforeLiteral(rest);
      } else {
        CodeStep(t, rest);
      }
    }
  }

  lemma CodeStep(t: string, rest: string)
    requires t != "" && CodeText(t) && Follows(t, rest) && (t != ['b'] || rest == "")
    ensures CommentAt(t + rest) == EndIndex(1, CommentAt(t[1..] + rest))
  {
    hide EndsInRawPrefix, LiteralLength, RawLength, CommentAt;
    var s := t + rest;
    assert s[0..] == s && s[1..] == t[1..] + rest;
    if |s| < 2 {
      TooShortForComment(s);
      TooShortForComment(s[1..]);
    } else {
      assert |t| == 1 && t[0] == 'b' ==> t == ['b'];
      NoLiteralInCode(t, rest);
      CommentStep(s, 0);
    }
  }

  lemma NoLiteralInCode(t: string, rest: string)
    requires t != "" && CodeText(t) && Follows(t, rest)
    requires |t| > 1 || t[0] != 'b' || rest == ""
    ensures LiteralLength(t + rest).None?
  {
    hide QuotedLength, EndsInRawPrefix;
    assert t[0] in t;
    NoRawInCode(t, rest);
    if |t| > 1 {
      assert t[1] in t;
      FollowsTail(t, rest);
      NoRawInCode(t[1..], rest);
      assert (t + rest)[1..] == t[1..] + rest;
    }
  }

  /** A code letter `b` right before a literal is taken as its byte prefix, which moves nothing. */
  lemma ByteLetterBeforeLiteral(rest: string)
    requires rest != ""
    ensures CommentAt(['b'] + rest) == EndIndex(1, CommentAt(rest))
  {
    hide CommentAt, LiteralLength, RawLength;
    var s := ['b'] + rest;
    assert s[0..] == s && s[1..] == rest && rest[0..] == rest;
    CommentStep(s, 0);
    if rest[0] == '"' || RawLength(rest).Some? {
      BytePrefix(rest);
      LiteralNoSlash(rest);
      var n := LiteralLength(rest).value;
      Slice(s, 1, n);
      if |rest| == 1 {
        TooShortForComment(rest);
        TooShortForComment(s[1 + n..]);
      } else {
        CommentStep(rest, 0);
      }
    } else {
      NoByteLiteral(rest);
    }
  }

  lemma LiteralNoSlash(rest: string)
    requires rest != "" && (rest[0] == '"' || RawLength(rest).Some?)
    ensures rest[0] != '/' && LiteralLength(rest).Some? && LiteralLength(rest).value <= |rest|
  {
    hide QuotedLength;
  }

  lemma NoByteLiteral(rest: string)
    requires rest != "" && rest[0] != '"' && RawLength(rest).None?
    ensures LiteralLength(['b'] + rest).None?
  {
    assert (['b'] + rest)[1..] == rest;
  }

  lemma LiteralStart(piece: Piece, rest: string)
    requires !piece.Code?
    ensures var s := Before(piece, rest);
      |s| > 1 && s[0] != '#' && s[0] != '/' && (s[0] == '"' ==> piece.Quoted? && !piece.byte)
  {
  }

  lemma {:induction false} CommentFrom(pieces: seq<Piece>, comment: string)
    requires LineOf(pieces, comment)
    ensures var line := RenderLine(pieces, comment);
      EndsWith(line, comment) && CommentAt(line) == if comment == "" then None else Some(|line| - |comment|)
  {
    hide CommentAt, Before, LineOf, RenderLine, EndsWith;
    LineStep(pieces, comment);
    if pieces != [] {
      var rest := RenderLine(pieces[1..], comment);
      CommentFrom(pieces[1..], comment);
      BeforeEnds(pieces[0], rest);
      EndsTransitive(RenderLine(pieces, comment), rest, comment);
      CommentPast(pieces, comment);
    }
  }

  lemma LineStep(pieces: seq<Piece>, comment: string)
    requires LineOf(pieces, comment)
    ensures pieces == [] ==>
              && RenderLine(pieces, comment) == comment && EndsWith(comment, comment)
              && CommentAt(comment) == if comment == "" then None else Some(0)
    ensures pieces != [] ==>
              && LineOf(pieces[1..], comment)
              && RenderLine(pieces, comment) == Before(pieces[0], RenderLine(pieces[1..], comment))
  {
    hide Before, WellFormed, EndsInRawPrefix;
  }

  lemma CommentPast(pieces: seq<Piece>, comment: string)
    requires pieces != [] && LineOf(pieces, comment)
    ensures var (rest, line) := (RenderLine(pieces[1..], comment), RenderLine(pieces, comment));
      |line| >= |rest| && CommentAt(line) == EndIndex(|line| - |rest|, CommentAt(rest))
  {
    hide LiteralLength, EndsInRawPrefix, UnitsBefore, RawBodyBefore, HashesBefore, CommentAt;
    var rest := RenderLine(pieces[1..], comment);
    BeforeEnds(pieces[0], rest);
    if pieces[0].Code? {
      if |pieces| > 1 { LiteralStart(pieces[1], RenderLine(pieces[1..][1..], comment)); }
      CodePassed(pieces[0].text, rest);
    } else {
      LiteralMeasured(pieces[0], rest);
      LiteralStart(pieces[0], rest);
      LiteralPassed(Before(pieces[0], rest), rest);
    }
  }

  lemma LiteralPassed(s: string, rest: string)
    requires |s| > 1 && s[0] != '/' && EndsWith(s, rest)
    requires LiteralLength(s) == Some(|s| - |rest|)
    ensures CommentAt(s) == EndIndex(|s| - |rest|, CommentAt(rest))
  {
    hide LiteralLength;
  }

  /** For every rendered line the scanner finds exactly the comment, or none when there is none. */
  lemma CommentOfRenderedLine(pieces: seq<Piece>, comment: string)
    requires LineOf(pieces, comment)
    ensures var line := RenderLine(pieces, comment);
      && (comment == "" ==> CommentAt(line).None?)
      && (comment != "" ==> CommentAt(line).Some? && line[CommentAt(line).value..] == comment)
  {
    CommentFrom(pieces, comment);
  }

  // ----- one character at a time -----

  /** What a reader without lookahead remembers of a line. Outside literals: the number of hash signs
      since an `r`, if those are the last characters. In a raw literal: the number of hash signs since a
      quote, if those are the last characters. */
  datatype Mode = Outside(prefix: Option<nat>) | InString(escaped: bool) | InRaw(hashes: nat, closing: Option<nat>)

  function Next(mode: Mode, c: char): Mode {
    match mode
    case Outside(prefix) =>
      if c == 'r' then Outside(Some(0))
      else if c == '#' && prefix.Some? then Outside(Some(prefix.value + 1))
      else if c == '"' then if prefix.Some? then InRaw(prefix.value, None) else InString(false)
      else Outside(None)
    case InString(escaped) =>
      if escaped then InString(false)
      else if c == '\\' then InString(true)
      else if c == '"' then Outside(None)
      else mode
    case InRaw(hashes, closing) =>
      if c == '"' then if hashes == 0 then Outside(None) else InRaw(hashes, Some(0))
      else if c == '#' && closing.Some? then
        if closing.value + 1 == hashes then Outside(None) else InRaw(hashes, Some(closing.value + 1))
      else InRaw(hashes, None)
  }

  function ModeAfter(t: string): Mode {
    if t == "" then Outside(None) else Next(ModeAfter(t[..|t| - 1]), t[|t| - 1])
  }

  predicate SlashesAt(s: string, n: nat) {
    n + 2 <= |s| && s[n] == '/' && s[n + 1] == '/'
  }

  /** A comment starts at `n`: two slashes, read outside literals. */
  predicate StartsComment(s: string, n: nat) {
    SlashesAt(s, n) && ModeAfter(s[..n]).Outside?
  }

  /** The reader's report, from any mode. */
  function Report(mode: Mode, s: string): Option<nat>
    decreases s
  {
    if s == "" then None
    else if mode.Outside? && SlashesAt(s, 0) then Some(0)
    else EndIndex(1, Report(Next(mode, s[0]), s[1..]))
  }

  lemma {:induction false} StringRead(s: string, escaped: bool)
    ensures Report(InString(escaped), s)
         == EndIndex(QuotedLength(s, escaped), Report(Outside(None), s[QuotedLength(s, escaped)..]))
  {
    if s != "" {
      var mode := Next(InString(escaped), s[0]);
      if mode.InString? {
        StringRead(s[1..], mode.escaped);
        Slice(s, 1, QuotedLength(s[1..], mode.escaped));
      }
    }
  }

  /** The text starts with `n` hash signs. */
  predicate StartsWithHashes(s: string, n: nat) {
    n <= |s| && forall i :: 0 <= i < n ==> s[i] == '#'
  }

  lemma {:induction false} ClosingRead(s: string, hashes: nat, seen: nat)
    requires seen < hashes
    ensures Report(InRaw(hashes, Some(seen)), s)
         == if StartsWithHashes(s, hashes - seen)
            then EndIndex(hashes - seen, Report(Outside(None), s[hashes - seen..]))
            else Report(InRaw(hashes, None), s)
    decreases s
  {
    if s != "" && s[0] == '#' {
      assert StartsWithHashes(s, hashes - seen) <==> StartsWithHashes(s[1..], hashes - seen - 1) by {
        assert forall i :: 0 <= i < |s| - 1 ==> s[1..][i] == s[i + 1];
        if StartsWithHashes(s[1..], hashes - seen - 1) {
          assert forall i :: 0 < i < hashes - seen ==> s[i] == s[1..][i - 1];
        }
      }
      if seen + 1 < hashes {
        ClosingRead(s[1..], hashes, seen + 1);
        if StartsWithHashes(s, hashes - seen) {
          assert s[1..][hashes - seen - 1..] == s[hashes - seen..];
        }
      }
    }
  }

  lemma {:induction false} RawRead(s: string, hashes: nat)
    ensures Report(InRaw(hashes, None), s)
         == EndIndex(RawBodyLength(s, hashes), Report(Outside(None), s[RawBodyLength(s, hashes)..]))
  {
    if s != "" {
      var n := RawBodyLength(s, hashes);
      assert s[1..][n - 1..] == s[n..];
      ClosesByHashes(s, hashes);
      if s[0] == '"' && hashes > 0 {
        ClosingRead(s[1..], hashes, 0);
      }
      if !ClosesRaw(s, hashes) {
        RawRead(s[1..], hashes);
      }
    }
  }

  lemma ClosesByHashes(s: string, hashes: nat)
    requires s != ""
    ensures ClosesRaw(s, hashes) <==> s[0] == '"' && StartsWithHashes(s[1..], hashes)
  {
    if s[0] == '"' && StartsWithHashes(s[1..], hashes) {
      assert forall i :: 1 <= i <= hashes ==> s[i] == s[1..][i - 1];
    }
    if ClosesRaw(s, hashes) {
      assert forall i :: 0 <= i < hashes ==> s[1..][i] == s[i + 1];
    }
  }

  /** An `r` and hash signs matter only if a quote follows. */
  lemma {:induction false} PrefixRead(s: string, seen: nat)
    ensures Report(Outside(Some(seen)), s)
         == if Hashes(s) < |s| && s[Hashes(s)] == '"'
            then EndIndex(Hashes(s) + 1, Report(InRaw(seen + Hashes(s), None), s[Hashes(s) + 1..]))
            else Report(Outside(None), s)
    decreases s
  {
    if s != "" && s[0] == '#' {
      PrefixRead(s[1..], seen + 1);
      HashRead(s, seen);
      hide Report;
      var h := Hashes(s[1..]);
      if 1 + h < |s| {
        assert s[1..][h] == s[1 + h];
        Slice(s, 1, h + 1);
      }
    }
  }

  lemma HashRead(s: string, seen: nat)
    requires s != "" && s[0] == '#'
    ensures Report(Outside(Some(seen)), s) == EndIndex(1, Report(Outside(Some(seen + 1)), s[1..]))
    ensures Report(Outside(None), s) == EndIndex(1, Report(Outside(None), s[1..]))
  {
  }

  lemma Slice(s: string, i: nat, j: nat)
    requires i + j <= |s|
    ensures s[i..][j..] == s[i + j..]
  {
  }

  lemma RRead(s: string)
    requires s != "" && s[0] == 'r'
    ensures Report(Outside(None), s) == EndIndex(1, Report(Outside(Some(0)), s[1..]))
  {
  }

  lemma RawLiteralRead(s: string)
    requires s != "" && s[0] == 'r'
    ensures Report(Outside(None), s)
         == if RawLength(s).Some? then EndIndex(RawLength(s).value, Report(Outside(None), s[RawLength(s).value..]))
            else EndIndex(1, Report(Outside(None), s[1..]))
  {
    hide Hashes, RawBodyLength, Report;
    var h := Hashes(s[1..]);
    RRead(s);
    PrefixRead(s[1..], 0);
    if 1 + h < |s| && s[1 + h] == '"' {
      Slice(s, 1, h + 1);
      RawRead(s[2 + h..], h);
      Slice(s, 2 + h, RawBodyLength(s[2 + h..], h));
    }
  }

  /** The scanner with its lookahead and skips reports what the reader without reports. */
  lemma {:induction false} ScannerReads(s: string)
    ensures CommentAt(s) == Report(Outside(None), s)
    decreases |s|
  {
    hide CommentAt, LiteralLength, QuotedLength, RawLength;
    if |s| < 2 {
      TooShortForComment(s);
      TooShortForReport(s);
    } else if !SlashesAt(s, 0) {
      assert s[0..] == s;
      CommentStep(s, 0);
      LiteralRead(s);
      if s[0] == 'b' {
        ScannerReads(s[1..]);
        assert ['b'] + s[1..] == s;
        ByteLetterBeforeLiteral(s[1..]);
      } else {
        var skip := if LiteralLength(s).Some? then LiteralLength(s).value else 1;
        ScannerReads(s[skip..]);
      }
    } else {
      assert s[0..] == s;
      CommentStep(s, 0);
    }
  }

  lemma TooShortForReport(s: string)
    requires |s| < 2
    ensures Report(Outside(None), s).None?
  {
  }

  lemma QuoteRead(s: string)
    requires s != "" && s[0] == '"'
    ensures var n := 1 + QuotedLength(s[1..], false);
      Report(Outside(None), s) == EndIndex(n, Report(Outside(None), s[n..]))
  {
    hide QuotedLength;
    assert Report(Outside(None), s) == EndIndex(1, Report(InString(false), s[1..]));
    StringRead(s[1..], false);
    hide Report;
    Slice(s, 1, QuotedLength(s[1..], false));
  }

  lemma CodeRead(s: string)
    requires s != "" && s[0] != 'r' && s[0] != '"' && !SlashesAt(s, 0)
    ensures Report(Outside(None), s) == EndIndex(1, Report(Outside(None), s[1..]))
  {
  }

  lemma LiteralRead(s: string)
    requires |s| > 1 && !SlashesAt(s, 0)
    ensures s[0] == 'b' ==> Report(Outside(None), s) == EndIndex(1, Report(Outside(None), s[1..]))
    ensures var skip := if LiteralLength(s).Some? then LiteralLength(s).value else 1;
      s[0] != 'b' ==> Report(Outside(None), s) == EndIndex(skip, Report(Outside(None), s[skip..]))
  {
    hide RawLength, QuotedLength, Report;
    if s[0] == 'r' {
      RawLiteralRead(s);
    } else if s[0] == '"' {
      QuoteRead(s);
    } else {
      NoRawWithoutR(s);
      CodeRead(s);
    }
  }

  lemma NoRawWithoutR(s: string)
    requires s != "" && s[0] != 'r'
    ensures RawLength(s).None?
  {
  }

  /** What the reader reports behind `before` is the first comment start there is. */
  lemma {:induction false} ReportIsFirst(before: string, s: string)
    ensures match Report(ModeAfter(before), s)
      case Some(n) => StartsComment(before + s, |before| + n) &&
                      forall m :: |before| <= m < |before| + n ==> !StartsComment(before + s, m)
      case None => forall m :: |before| <= m ==> !StartsComment(before + s, m)
    decreases s
  {
    hide ModeAfter, Next;
    var all := before + s;
    assert all[..|before|] == before;
    if s != "" {
      assert SlashesAt(all, |before|) <==> SlashesAt(s, 0);
      var before' := before + [s[0]];
      assert before'[..|before|] == before;
      ModeStep(before, s[0]);
      assert before' + s[1..] == all;
      ReportIsFirst(before', s[1..]);
    }
  }

  lemma ModeStep(t: string, c: char)
    ensures ModeAfter(t + [c]) == Next(ModeAfter(t), c)
  {
    assert (t + [c])[..|t|] == t;
  }

  /** For every line, the comment found is the first `//` that a reader without lookahead meets outside
      literals, and none is found when there is none. */
  lemma CommentIsFirst(line: string)
    ensures match CommentAt(line)
      case Some(n) => StartsComment(line, n) && forall m :: 0 <= m < n ==> !StartsComment(line, m)
      case None => forall m: nat :: !StartsComment(line, m)
  {
    hide CommentAt, StartsComment;
    ScannerReads(line);
    ReportIsFirst("", line);
    assert "" + line == line;
  }

  /** A comment starts at `i` when `t` stands before a comment: the last slash of `t` counts as well. */
  predicate OpensComment(t: string, i: nat)
    requires i < |t|
  {
    ModeAfter(t[..i]).Outside? && t[i] == '/' && (i == |t| - 1 || t[i + 1] == '/')
  }

  predicate NoCommentIn(t: string) {
    forall i: nat :: i < |t| ==> !OpensComment(t, i)
  }

  /** For every text, the comment behind it is the one found exactly when no comment starts in the text
      and the text ends outside literals; when it ends inside one, anything found starts later. */
  lemma CommentFoundIff(t: string, comment: string)
    requires IsComment(comment)
    ensures CommentAt(t + comment) == Some(|t|) <==> NoCommentIn(t) && ModeAfter(t).Outside?
    ensures NoCommentIn(t) && !ModeAfter(t).Outside? && CommentAt(t + comment).Some? ==>
              CommentAt(t + comment).value > |t|
  {
    hide CommentAt, ModeAfter, StartsComment, NoCommentIn;
    StartsIn(t, comment);
    CommentIsFirst(t + comment);
  }

  lemma StartsAt(t: string, comment: string, i: nat)
    requires IsComment(comment) && i <= |t|
    ensures StartsComment(t + comment, i) <==> if i < |t| then OpensComment(t, i) else ModeAfter(t).Outside?
  {
    hide ModeAfter;
    var line := t + comment;
    assert line[..i] == t[..i];
    if i == |t| {
      assert t[..|t|] == t;
      assert line[i] == comment[0] && line[i + 1] == comment[1];
    } else {
      assert line[i] == t[i] && line[i + 1] == if i == |t| - 1 then comment[0] else t[i + 1];
    }
  }

  lemma StartsIn(t: string, comment: string)
    requires IsComment(comment)
    ensures StartsComment(t + comment, |t|) <==> ModeAfter(t).Outside?
    ensures NoCommentIn(t) <==> forall i: nat :: i < |t| ==> !StartsComment(t + comment, i)
  {
    hide ModeAfter, StartsComment, OpensComment;
    StartsAt(t, comment, |t|);
    forall i: nat | i < |t|
      ensures StartsComment(t + comment, i) <==> OpensComment(t, i)
    {
      StartsAt(t, comment, i);
    }
  }

  // ----- quotes that are not delimiters -----

  function Quotes(t: string): nat {
    if t == "" then 0 else Quotes(t[..|t| - 1]) + if t[|t| - 1] == '"' then 1 else 0
  }

  /** Code that may hold quotes, as a character literal does: no backslash, no `//`, no slash at the end,
      and no quote that could open a raw literal. */
  predicate QuotedCode(t: string) {
    && (forall i :: 0 <= i < |t| ==> t[i] != '\\')
    && (forall i :: 0 <= i < |t| && t[i] == '/' ==> i < |t| - 1 && t[i + 1] != '/')
    && (forall i :: 0 <= i < |t| && t[i] == '"' ==> !EndsInRawPrefix(t[..i]))
  }

  lemma {:induction false} QuotesPair(t: string, i: nat)
    requires i <= |t| && QuotedCode(t)
    ensures if Quotes(t[..i]) % 2 == 0
            then ModeAfter(t[..i]).Outside? && (ModeAfter(t[..i]).prefix.Some? ==> EndsInRawPrefix(t[..i]))
            else ModeAfter(t[..i]) == InString(false)
  {
    if i > 0 {
      QuotesPair(t, i - 1);
      assert t[..i][..i - 1] == t[..i - 1];
    }
  }

  /** Behind such code a comment is found exactly when the quotes pair up. Behind an odd number of them
      it is not, and without a further quote nothing is. */
  lemma CommentFoundIffQuotesPair(t: string, comment: string)
    requires QuotedCode(t) && IsComment(comment)
    ensures CommentAt(t + comment) == Some(|t|) <==> Quotes(t) % 2 == 0
    ensures Quotes(t) % 2 == 1 && CommentAt(t + comment).Some? ==> CommentAt(t + comment).value > |t|
    ensures Quotes(t) % 2 == 1 && '"' !in comment ==> CommentAt(t + comment).None?
  {
    hide CommentAt, ModeAfter, Quotes, EndsInRawPrefix, IsComment;
    QuotesPair(t, |t|);
    assert t[..|t|] == t;
    CommentFoundIff(t, comment);
    CommentIsFirst(t + comment);
    if Quotes(t) % 2 == 1 && '"' !in comment && CommentAt(t + comment).Some? {
      var n := CommentAt(t + comment).value;
      assert (t + comment)[..n] == t + comment[..n - |t|];
      StaysInString(t, comment[..n - |t|]);
    }
  }

  lemma {:induction false} StaysInString(t: string, u: string)
    requires ModeAfter(t).InString? && '"' !in u
    ensures ModeAfter(t + u).InString?
  {
    if u == "" {
      assert t + u == t;
    } else {
      var n := |u| - 1;
      assert u[n] in u;
      StaysInString(t, u[..n]);
      ModeStep(t + u[..n], u[n]);
      assert t + u[..n] + [u[n]] == t + u;
    }
  }

  /** So a quote in a character literal, taken for the start of a string, hides the comment behind it. */
  lemma QuoteInCharLiteralHidesComment(text: string)
    requires '"' !in text
    ensures CommentAt("'\"'//" + text).None?
  {
    var (t, comment) := ("'\"'", "//" + text);
    assert t + comment == "'\"'//" + text;
    assert Quotes("'") == 0 && Quotes("'\"") == 1 && t[..2] == "'\"";
    assert QuotedCode(t);
    CommentFoundIffQuotesPair(t, comment);
  }

  // ----- identifier search -----

  predicate IsIdentifierChar(c: char) {
    IsAsciiAlphanumeric(c) || c == '_'
  }

  /** Letters, digits and the underscore. */
  predicate WordChar(c: char) {
    'a' <= c <= 'z' || 'A' <= c <= 'Z' || '0' <= c <= '9' || c == '_'
  }

  lemma IdentifierCharIff(c: char)
    ensures IsIdentifierChar(c) <==> WordChar(c)
  {
  }

  predicate OccursAt(window: string, table: string, i: nat) {
    i + |table| <= |window| && window[i..i + |table|] == table
  }

  /** Neither neighbour of the occurrence is an identifier character. */
  predicate Bounded(window: string, table: string, i: nat)
    requires OccursAt(window, table, i)
  {
    && (i > 0 ==> !WordChar(window[i - 1]))
    && (i + |table| < |window| ==> !WordChar(window[i + |table|]))
  }

  ghost predicate HasBounded(window: string, table: string) {
    exists i: nat :: OccursAt(window, table, i) && Bounded(window, table, i)
  }

  /** The next match of `match_indices` at or after `from`. */
  function NextMatch(window: string, table: string, from: nat): (m: Option<nat>)
    ensures m.Some? ==> m.value >= from && OccursAt(window, table, m.value)
    ensures forall i :: from <= i < (if m.Some? then m.value else |window| + 1) ==> !OccursAt(window, table, i)
    decreases |window| + 1 - from
  {
    if from + |table| > |window| then None
    else if window[from..from + |table|] == table then Some(from)
    else NextMatch(window, table, from + 1)
  }

  /** Some match of the non-overlapping search from `from` on is bounded. */
  function AnyMatchBounded(window: string, table: string, from: nat): bool
    requires table != ""
    decreases |window| + 1 - from
  {
    match NextMatch(window, table, from)
    case None => false
    case Some(i) => Bounded(window, table, i) || AnyMatchBounded(window, table, i + |table|)
  }

  method ContainsIdentifier(window: string, tableName: string) returns (found: bool)
    ensures found == (tableName != "" && AnyMatchBounded(window, Lowercase(tableName), 0))
  {
    hide NextMatch, Lowercase, IsIdentifierChar, WordChar, OccursAt;
    var table := Lowercase(tableName);
    if table == "" {
      return false;
    }
    var from := 0;
    while true
      invariant AnyMatchBounded(window, table, from) == AnyMatchBounded(window, table, 0)
      decreases |window| + 1 - from
    {
      var next := NextMatch(window, table, from);
      if next.Some? { WindowHolds(window, table, next.value); }
      match next {
        case None => return false;
        case Some(i) =>
          if i > 0 { IdentifierCharIff(window[i - 1]); }
          if i + |table| < |window| { IdentifierCharIff(window[i + |table|]); }
          var before := i > 0 && IsIdentifierChar(window[i - 1]);
          var after := i + |table| < |window| && IsIdentifierChar(window[i + |table|]);
          if !before && !after {
            return true;
          }
          from := i + |table|;
      }
    }
  }

  /** Wherever the table overlaps a shifted copy of itself, an identifier character precedes the copy. */
  predicate NoLooseOverlap(table: string) {
    forall d :: 0 < d < |table| && table[d..] == table[..|table| - d] ==> WordChar(table[d - 1])
  }

  lemma IdentifierTablesHaveNoLooseOverlap(table: string)
    requires forall c :: c in table ==> WordChar(c)
    ensures NoLooseOverlap(table)
  {
  }

  lemma {:induction false} SearchIsSound(window: string, table: string, from: nat)
    requires table != "" && AnyMatchBounded(window, table, from)
    ensures HasBounded(window, table)
    decreases |window| + 1 - from
  {
    var i := NextMatch(window, table, from).value;
    if !Bounded(window, table, i) { SearchIsSound(window, table, i + |table|); }
  }

  lemma {:induction false} SearchFindsBounded(window: string, table: string, from: nat, i: nat)
    requires table != "" && NoLooseOverlap(table)
    requires from <= i && OccursAt(window, table, i) && Bounded(window, table, i)
    ensures AnyMatchBounded(window, table, from)
    decreases |window| + 1 - from
  {
    var m := NextMatch(window, table, from).value;
    if m != i && !Bounded(window, table, m) {
      if i < m + |table| { SkippedIsNotBounded(window, table, m, i); }
      SearchFindsBounded(window, table, m + |table|, i);
    }
  }

  /** A match hidden behind an earlier one has an identifier character before it. */
  lemma SkippedIsNotBounded(window: string, table: string, m: nat, i: nat)
    requires NoLooseOverlap(table) && OccursAt(window, table, m) && OccursAt(window, table, i)
    requires m < i < m + |table|
    ensures !Bounded(window, table, i)
  {
    var d := i - m;
    assert table[d..] == window[i..m + |table|] == table[..|table| - d];
    assert window[i - 1] == table[d - 1];
  }

  /** The window in which the search misses a bounded occurrence of a table that overlaps itself loosely. */
  function MissedWindow(table: string, d: nat): string
    requires 0 < d < |table|
  {
    [if table[0] == 'x' then 'y' else 'x'] + table + table[|table| - d..]
  }

  lemma LooseOverlapIsMissed(table: string, d: nat)
    requires 0 < d < |table| && table[d..] == table[..|table| - d] && !WordChar(table[d - 1])
    ensures HasBounded(MissedWindow(table, d), table) && !AnyMatchBounded(MissedWindow(table, d), table, 0)
  {
    hide WordChar, NextMatch, MissedWindow, OccursAt, Bounded;
    FirstMatchIsBlocked(table, d);
    ShiftedCopyIsBounded(table, d);
  }

  lemma ShiftedCopyIsBounded(table: string, d: nat)
    requires 0 < d < |table| && table[d..] == table[..|table| - d] && !WordChar(table[d - 1])
    ensures var w := MissedWindow(table, d); OccursAt(w, table, 1 + d) && Bounded(w, table, 1 + d)
  {
    hide WordChar;
    var (w, n) := (MissedWindow(table, d), |table|);
    assert w[1 + d..1 + d + n] == table by {
      assert w[1 + d..1 + n] == table[d..] == table[..n - d];
      assert w[1 + n..1 + d + n] == table[n - d..];
      assert w[1 + d..1 + d + n] == table[..n - d] + table[n - d..];
    }
    assert w[d] == table[d - 1];
  }

  lemma FirstMatchIsBlocked(table: string, d: nat)
    requires 0 < d < |table|
    ensures var w := MissedWindow(table, d);
      && NextMatch(w, table, 0) == Some(1) && OccursAt(w, table, 1) && !Bounded(w, table, 1)
      && NextMatch(w, table, 1 + |table|) == None
  {
    var (w, n) := (MissedWindow(table, d), |table|);
    FirstMatch(table, d);
    hide MissedWindow, OccursAt, WordChar, Bounded;
    NextMatchIsFirst(w, table);
    NoRoomLeft(w, table, 1 + n);
  }

  lemma FirstMatch(table: string, d: nat)
    requires 0 < d < |table|
    ensures var w := MissedWindow(table, d);
      |w| == 1 + |table| + d && !OccursAt(w, table, 0) && OccursAt(w, table, 1) && !Bounded(w, table, 1)
  {
    var (w, n) := (MissedWindow(table, d), |table|);
    assert w[1..1 + n] == table;
    assert w[0..n][0] == w[0];
  }

  lemma NextMatchIsFirst(window: string, table: string)
    requires !OccursAt(window, table, 0) && OccursAt(window, table, 1)
    ensures NextMatch(window, table, 0) == Some(1)
  {
    hide OccursAt;
    assert |window| >= 1 by { WindowHolds(window, table, 1); }
  }

  lemma WindowHolds(window: string, table: string, i: nat)
    requires OccursAt(window, table, i)
    ensures i + |table| <= |window|
  {
  }

  lemma NoRoomLeft(window: string, table: string, from: nat)
    requires from + |table| > |window|
    ensures NextMatch(window, table, from) == None
  {
  }

  /** The non-overlapping search finds every bounded occurrence, overlapping ones included, in every
      window, exactly for the tables without a loose overlap; identifier-only tables are among them. */
  lemma SearchIsCompleteIff(table: string)
    requires table != ""
    ensures NoLooseOverlap(table) <==> forall window :: AnyMatchBounded(window, table, 0) <==> HasBounded(window, table)
  {
    if NoLooseOverlap(table) {
      forall window
        ensures AnyMatchBounded(window, table, 0) <==> HasBounded(window, table)
      {
        if HasBounded(window, table) {
          var i: nat :| OccursAt(window, table, i) && Bounded(window, table, i);
          SearchFindsBounded(window, table, 0, i);
        } else if AnyMatchBounded(window, table, 0) {
          SearchIsSound(window, table, 0);
        }
      }
    } else {
      var d :| 0 < d < |table| && table[d..] == table[..|table| - d] && !WordChar(table[d - 1]);
      LooseOverlapIsMissed(table, d);
    }
  }
}
