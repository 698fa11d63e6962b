// Validation, the linear scan and the seek-based binary search of a breach file,
// each proved against the line-level reading of the file in BreachFile.
module BreachLookup {
  import opened Basics
  import opened Wrappers
  import opened Text
  import opened BreachFile

  /** A buffered reader over an open file: fixed bytes and a cursor that every call moves. */
  class LineReader {
    const content: seq<Byte>
    var position: nat

    constructor (content: seq<Byte>)
      ensures this.content == content && position == 0
    {
      this.content := content;
      position := 0;
    }

    method Seek(p: nat)
      modifies this`position
      ensures position == p
    {
      position := p;
    }

    method ReadByte() returns (r: Result<Byte, BreachError>)
      modifies this`position
      ensures old(position) < |content| ==> r == Ok(content[old(position)]) && position == old(position) + 1
      ensures old(position) >= |content| ==> r == Err(UnexpectedEnd) && position == old(position)
    {
      if position >= |content| {
        return Err(UnexpectedEnd);
      }
      r := Ok(content[position]);
      position := position + 1;
    }

    /** `read_line`: the text up to and including the next newline, and how many bytes it took. */
    method ReadLine() returns (r: Result<string, BreachError>, read: nat)
      modifies this`position
      ensures old(position) >= |content| ==> r == Ok("") && read == 0 && position == old(position)
      ensures old(position) < |content| ==>
                && position == LineEnd(content, old(position)) == old(position) + read
                && r == match LineText(content, old(position)) case Some(s) => Ok(s) case None => Err(NotUtf8)
    {
      if position >= |content| {
        return Ok(""), 0;
      }
      var start := position;
      position := LineEnd(content, start);
      read := position - start;
      match LineText(content, start) {
        case Some(s) => r := Ok(s);
        case None => r := Err(NotUtf8);
      }
    }
  }

  datatype Options = Options(sorted: bool, minBytes: nat, linearScanMaxBytes: nat)

  /** The size guards both entry points run first. */
  function SizeGuard(length: nat, options: Options): Option<BreachError> {
    if length < options.minBytes then Some(TooSmall)
    else if !options.sorted && length > options.linearScanMaxBytes then Some(TooLargeForScan)
    else None
  }

  /** Large enough, and small enough for a linear scan if it comes to one. */
  predicate PassesGuards(c: seq<Byte>, options: Options) {
    options.minBytes <= |c| && (options.sorted || |c| <= options.linearScanMaxBytes)
  }

  /** What a reader hands out for a line is what the file says about it: same hash, same blankness. */
  lemma LineRead(c: seq<Byte>, p: nat)
    requires IsLineStart(c, p)
    ensures LineText(c, p).None? ==> HashAt(c, p).None? && !IsBlank(c, p)
    ensures LineText(c, p).Some? ==>
              var text := LineText(c, p).value;
              && HashFromLine(text) == HashFromLine(StripTerminator(text)) == HashAt(c, p)
              && (Trim(StripTerminator(text)) == "" <==> IsBlank(c, p))
    ensures IsBlank(c, p) ==> HashAt(c, p).None?
  {
    if LineText(c, p).Some? {
      HashIgnoresTerminator(LineText(c, p).value);
      if IsBlank(c, p) { BlankHasNoHash(StripTerminator(LineText(c, p).value)); }
    }
  }

  // ----- validation -----

  lemma NothingAbove(c: seq<Byte>, sorted: bool)
    ensures AcceptedUpTo(c, 0, sorted) && Newlines(c, 0) == 0
    ensures c != [] ==> !OutOfOrder(c, 0)
  {
  }

  /** Extends acceptance by one good line. */
  lemma AcceptLine(c: seq<Byte>, p: nat, sorted: bool)
    requires IsLineStart(c, p) && AcceptedUpTo(c, p, sorted) && Fault(c, p, sorted).None?
    ensures AcceptedUpTo(c, LineEnd(c, p), sorted)
  {
    hide LineText, HashAt, LineEnd, IsBlank, AtMost;
    NextLineStart(c, p);
  }

  /** In a sorted prefix the newest hash is the largest, so checking against it checks all. */
  lemma PreviousIsLargest(c: seq<Byte>, previous: nat, p: nat)
    requires IsLineStart(c, previous) && IsLineStart(c, p) && p == LineEnd(c, previous)
    requires AcceptedUpTo(c, p, true) && HashAt(c, p).Some?
    ensures OutOfOrder(c, p) <==> !AtMost(HashAt(c, previous).value, HashAt(c, p).value)
  {
    NextLineStart(c, previous);
    if AtMost(HashAt(c, previous).value, HashAt(c, p).value) {
      forall q | IsLineStart(c, q) && q < p
        ensures AtMost(HashAt(c, q).value, HashAt(c, p).value)
      {
        if q != previous {
          AtMostTransitive(HashAt(c, q).value, HashAt(c, previous).value, HashAt(c, p).value);
        }
      }
    }
  }

  /** A faulty line refutes acceptance of the whole file. */
  lemma FaultRejects(c: seq<Byte>, p: nat, sorted: bool)
    requires IsLineStart(c, p) && Fault(c, p, sorted).Some?
    ensures !Accepted(c, sorted)
  {
    LineRead(c, p);
  }

  /** Line-by-line validation accepts exactly the accepted files and otherwise reports the first fault. */
  method ValidateFile(c: seq<Byte>, options: Options) returns (r: Result<(), BreachError>)
    ensures |c| < options.minBytes ==> r == Err(TooSmall)
    ensures |c| >= options.minBytes && !options.sorted && |c| > options.linearScanMaxBytes ==> r == Err(TooLargeForScan)
    ensures PassesGuards(c, options) ==> (r.Ok? <==> Accepted(c, options.sorted))
    ensures PassesGuards(c, options) && r.Err? ==>
              || (c == [] && r.error == NoHashes)
              || exists p :: IsLineStart(c, p) && AcceptedUpTo(c, p, options.sorted) &&
                             Fault(c, p, options.sorted) == Some(r.error)
  {
    hide AcceptedUpTo, Newlines, LineEnd, LineText, HashAt, IsBlank, OutOfOrder, HashFromLine,
      Trim, StripTerminator, AtMost;
    var guard := SizeGuard(|c|, options);
    if guard.Some? {
      return Err(guard.value);
    }
    NothingAbove(c, options.sorted);
    var reader := new LineReader(c);
    var previousHash: Option<string> := None;
    var validEntries := 0;
    var idx := 0;
    ghost var previous := 0;
    while true
      invariant reader.content == c && IsBoundary(c, reader.position)
      invariant AcceptedUpTo(c, reader.position, options.sorted)
      invariant validEntries == idx && (idx == 0 <==> reader.position == 0)
      invariant reader.position < |c| ==> idx == Newlines(c, reader.position)
      invariant idx > 0 ==> IsLineStart(c, previous) && LineEnd(c, previous) == reader.position
      invariant idx > 0 <==> previousHash.Some?
      invariant idx > 0 ==> previousHash == HashAt(c, previous)
      decreases |c| - reader.position
    {
      ghost var p := reader.position;
      var text, read := reader.ReadLine();
      if text.Ok? && read == 0 { break; }
      NewlinesAcross(c, p);
      NextLineStart(c, p);
      if text.Err? {
        FaultRejects(c, p, options.sorted);
        return Err(text.error);
      }
      var line := StripTerminator(text.value);
      LineRead(c, p);
      if Trim(line) == "" {
        FaultRejects(c, p, options.sorted);
        return Err(BlankEntry(idx + 1));
      }
      var hash := HashFromLine(line);
      if hash.None? {
        FaultRejects(c, p, options.sorted);
        return Err(InvalidEntry(idx + 1));
      }
      if options.sorted && previousHash.Some? {
        PreviousIsLargest(c, previous, p);
        if !AtMost(previousHash.value, hash.value) {
          FaultRejects(c, p, options.sorted);
          return Err(UnsortedEntry(idx + 1));
        }
      }
      AcceptLine(c, p, options.sorted);
      previousHash := hash;
      previous := p;
      validEntries := validEntries + 1;
      idx := idx + 1;
    }
    if validEntries == 0 {
      return Err(NoHashes);
    }
    return Ok(());
  }

  // ----- the linear scan -----

  /** A line the scan can step over: blank, or carrying a hash. */
  ghost predicate Readable(c: seq<Byte>, p: nat)
    requires p < |c|
  {
    IsBlank(c, p) || HashAt(c, p).Some?
  }

  ghost predicate ReadableUpTo(c: seq<Byte>, n: nat) {
    forall p :: IsLineStart(c, p) && p < n ==> Readable(c, p)
  }

  ghost predicate AbsentUpTo(c: seq<Byte>, n: nat, hash: string) {
    forall p :: IsLineStart(c, p) && p < n ==> HashAt(c, p) != Some(hash)
  }

  /** The hash sits on a line with only readable lines above it. */
  ghost predicate Reaches(c: seq<Byte>, hash: string) {
    exists p :: IsLineStart(c, p) && HashAt(c, p) == Some(hash) && ReadableUpTo(c, p)
  }

  /** The scan runs into `error` before it reaches the hash. */
  ghost predicate StopsAt(c: seq<Byte>, hash: string, error: BreachError) {
    exists p :: IsLineStart(c, p) && ReadableUpTo(c, p) && AbsentUpTo(c, p, hash) && Fault(c, p, false) == Some(error)
  }

  /** An unreadable line ends the scan, and an absent hash stays unreached. */
  lemma ScanVerdict(c: seq<Byte>, p: nat, hash: string)
    requires IsBoundary(c, p) && ReadableUpTo(c, p) && AbsentUpTo(c, p, hash)
    ensures p == |c| ==> ReadableUpTo(c, |c|) && !Carries(c, hash) && !Reaches(c, hash)
    ensures p < |c| && HashAt(c, p) == Some(hash) ==> Reaches(c, hash) && Carries(c, hash)
    ensures p < |c| && !Readable(c, p) ==>
              && !Reaches(c, hash) && !ReadableUpTo(c, |c|)
              && Fault(c, p, false).Some? && StopsAt(c, hash, Fault(c, p, false).value)
  {
    hide LineText, HashAt, IsBlank;
    if p < |c| { LineRead(c, p); }
  }

  lemma ScanLine(c: seq<Byte>, p: nat, hash: string)
    requires IsLineStart(c, p) && ReadableUpTo(c, p) && AbsentUpTo(c, p, hash)
    requires Readable(c, p) && HashAt(c, p) != Some(hash)
    ensures ReadableUpTo(c, LineEnd(c, p)) && AbsentUpTo(c, LineEnd(c, p), hash)
  {
    hide LineText, HashAt, IsBlank, LineEnd;
    NextLineStart(c, p);
  }

  lemma AcceptedIsReadable(c: seq<Byte>, sorted: bool)
    requires Accepted(c, sorted)
    ensures ReadableUpTo(c, |c|)
  {
  }

  /** The scan answers for the lines above the first one it cannot read. */
  method LinearScanContains(c: seq<Byte>, hash: string, options: Options) returns (r: Result<bool, BreachError>)
    ensures |c| < options.minBytes ==> r == Err(TooSmall)
    ensures |c| >= options.minBytes && !options.sorted && |c| > options.linearScanMaxBytes ==> r == Err(TooLargeForScan)
    ensures PassesGuards(c, options) ==>
              && (r == Ok(true) <==> Reaches(c, hash))
              && (r == Ok(false) <==> ReadableUpTo(c, |c|) && !Carries(c, hash))
              && (r.Err? ==> StopsAt(c, hash, r.error))
    ensures r == Ok(true) ==> Carries(c, hash)
    ensures PassesGuards(c, options) && Accepted(c, options.sorted) ==> r == Ok(Carries(c, hash))
  {
    hide Newlines, LineEnd, LineText, HashAt, IsBlank, HashFromLine, Trim, StripTerminator;
    hide Reaches, StopsAt, ReadableUpTo, AbsentUpTo, Carries, Accepted;
    var guard := SizeGuard(|c|, options);
    if guard.Some? {
      return Err(guard.value);
    }
    ScanStarts(c, hash);
    if Accepted(c, options.sorted) { AcceptedIsReadable(c, options.sorted); }
    var reader := new LineReader(c);
    var idx := 0;
    while true
      invariant reader.content == c && IsBoundary(c, reader.position)
      invariant ReadableUpTo(c, reader.position) && AbsentUpTo(c, reader.position, hash)
      invariant reader.position < |c| ==> idx == Newlines(c, reader.position)
      decreases |c| - reader.position
    {
      ghost var p := reader.position;
      ScanVerdict(c, p, hash);
      var text, read := reader.ReadLine();
      if text.Ok? && read == 0 { break; }
      NewlinesAcross(c, p);
      LineEndIsBoundary(c, p);
      LineRead(c, p);
      if text.Err? {
        return Err(text.error);
      }
      var line := StripTerminator(text.value);
      if Trim(line) != "" {
        var lineHash := HashFromLine(line);
        if lineHash.None? {
          return Err(InvalidEntry(idx + 1));
        }
        if lineHash.value == hash {
          return Ok(true);
        }
      }
      ScanLine(c, p, hash);
      idx := idx + 1;
    }
    return Ok(false);
  }

  lemma ScanStarts(c: seq<Byte>, hash: string)
    ensures ReadableUpTo(c, 0) && AbsentUpTo(c, 0, hash) && Newlines(c, 0) == 0
  {
  }

  // ----- the binary search -----

  /** Finds the start of a line near `mid`: the line after a newline at `mid`, otherwise the line
      that holds `mid`. The cursor is left on that start, ready to read the line. */
  method SeekProbeLineStart(reader: LineReader, mid: nat, length: nat) returns (r: Result<nat, BreachError>)
    requires length == |reader.content|
    modifies reader`position
    ensures mid >= length && mid > 0 ==> r == Ok(length) && reader.position == old(reader.position)
    ensures mid < length ==>
              && r.Ok? && reader.position == r.value
              && IsBoundary(reader.content, r.value)
              && (mid > 0 && reader.content[mid] == NEWLINE ==> r.value == mid + 1)
              && (mid == 0 || reader.content[mid] != NEWLINE ==>
                    r.value <= mid < LineEnd(reader.content, r.value))
  {
    if mid == 0 {
      reader.Seek(0);
      return Ok(0);
    }
    if mid >= length {
      return Ok(length);
    }
    reader.Seek(mid);
    var current := reader.ReadByte();
    match current {
      case Err(error) => return Err(error);
      case Ok(byte) => if byte == NEWLINE { return Ok(mid + 1); }
    }
    var pos := mid;
    while pos > 0
      invariant 0 <= pos <= mid < |reader.content|
      invariant forall k :: pos <= k <= mid ==> reader.content[k] != NEWLINE
    {
      var previousPos := pos - 1;
      reader.Seek(previousPos);
      var previous := reader.ReadByte();
      match previous {
        case Err(error) => return Err(error);
        case Ok(byte) => if byte == NEWLINE { return Ok(pos); }
      }
      pos := previousPos;
    }
    reader.Seek(0);
    return Ok(0);
  }

  /** Reads the line at the cursor and compares its hash; None at the end of the file. */
  method CompareNextLine(reader: LineReader, hash: string) returns (r: Result<Option<Ordering>, BreachError>)
    requires IsBoundary(reader.content, reader.position)
    modifies reader`position
    ensures var c, p := reader.content, old(reader.position);
      if p == |c| then r == Ok(None) && reader.position == p
      else
        && reader.position == LineEnd(c, p)
        && (r.Err? <==> HashAt(c, p).None?)
        && (r.Ok? ==> r == Ok(Some(Compare(HashAt(c, p).value, hash))))
  {
    hide LineText, HashAt, HashFromLine, Compare, LineEnd;
    var line, read := reader.ReadLine();
    if old(reader.position) < |reader.content| { LineRead(reader.content, old(reader.position)); }
    if line.Err? {
      return Err(line.error);
    }
    if read == 0 {
      return Ok(None);
    }
    var lineHash := HashFromLine(line.value);
    if lineHash.None? {
      return Err(InvalidProbedEntry);
    }
    return Ok(Some(Compare(lineHash.value, hash)));
  }

  function Pow2(n: nat): (r: nat)
    ensures r >= 1
  {
    if n == 0 then 1 else 2 * Pow2(n - 1)
  }

  ghost predicate HasLineWithoutHash(c: seq<Byte>) {
    exists p :: IsLineStart(c, p) && HashAt(c, p).None?
  }

  /** All lines above `low` carry smaller hashes than `hash` and all from `high` on larger ones. */
  ghost predicate Bracketed(c: seq<Byte>, low: nat, high: nat, hash: string) {
    && (forall p :: IsLineStart(c, p) && p < low ==> HashAt(c, p).Some? && Compare(HashAt(c, p).value, hash) == Less)
    && (forall p :: IsLineStart(c, p) && high <= p ==>
          HashAt(c, p).Some? && Compare(HashAt(c, p).value, hash) == Greater)
  }

  /** A probed line settles, by sortedness, every line on its own side. */
  lemma ProbeSettles(c: seq<Byte>, p: nat, low: nat, high: nat, hash: string)
    ensures IsLineStart(c, p) && HashAt(c, p).None? ==> HasLineWithoutHash(c)
    ensures HasLineWithoutHash(c) ==> !Accepted(c, true)
    ensures IsLineStart(c, p) && HashAt(c, p).Some? && Compare(HashAt(c, p).value, hash) == Equal ==> Carries(c, hash)
    ensures IsLineStart(c, p) && Accepted(c, true) && Bracketed(c, low, high, hash) ==>
              match Compare(HashAt(c, p).value, hash)
              case Less => Bracketed(c, LineEnd(c, p), high, hash)
              case Greater => Bracketed(c, low, p, hash)
              case Equal => true
  {
    if IsLineStart(c, p) && HashAt(c, p).Some? {
      CompareEqual(HashAt(c, p).value, hash);
      if Accepted(c, true) && Bracketed(c, low, high, hash) {
        match Compare(HashAt(c, p).value, hash) {
          case Less => SettlesBelow(c, p, hash);
          case Greater => SettlesAbove(c, p, hash);
          case Equal =>
        }
      }
    }
  }

  lemma SettlesBelow(c: seq<Byte>, p: nat, hash: string)
    requires Accepted(c, true) && IsLineStart(c, p) && Compare(HashAt(c, p).value, hash) == Less
    ensures forall q :: IsLineStart(c, q) && q < LineEnd(c, p) ==> Compare(HashAt(c, q).value, hash) == Less
  {
    NextLineStart(c, p);
    forall q | IsLineStart(c, q) && q < LineEnd(c, p)
      ensures Compare(HashAt(c, q).value, hash) == Less
    {
      if q < p { AtMostTransitive(HashAt(c, q).value, HashAt(c, p).value, hash); }
    }
  }

  lemma SettlesAbove(c: seq<Byte>, p: nat, hash: string)
    requires Accepted(c, true) && IsLineStart(c, p) && Compare(HashAt(c, p).value, hash) == Greater
    ensures forall q :: IsLineStart(c, q) && p <= q ==> Compare(HashAt(c, q).value, hash) == Greater
  {
    CompareSwap(hash, HashAt(c, p).value);
    forall q | IsLineStart(c, q) && p <= q
      ensures Compare(HashAt(c, q).value, hash) == Greater
    {
      if q > p { AtMostTransitive(hash, HashAt(c, p).value, HashAt(c, q).value); }
      CompareSwap(hash, HashAt(c, q).value);
    }
  }

  /** `probes` probes of a file of `length` bytes: logarithmically many, since every line is 40 bytes or more. */
  ghost predicate Logarithmic(probes: nat, length: nat) {
    probes > 0 ==> 38 * Pow2(probes - 1) + 2 <= length
  }

  /** Every probe so far has halved what then remained of the file. */
  ghost predicate Halved(range: int, probes: nat, length: nat) {
    range >= 2 ==> (range - 2) * Pow2(probes) <= length - 2
  }

  lemma SearchStarts(c: seq<Byte>, hash: string)
    ensures Bracketed(c, 0, |c|, hash)
    ensures c == [] ==> !Carries(c, hash)
    ensures Halved(|c|, 0, |c|) && Logarithmic(0, |c|)
  {
  }

  /** A probe of a range that still holds a line stays within the logarithmic budget. */
  lemma ProbeInBudget(range: nat, probes: nat, length: nat)
    requires Halved(range, probes, length)
    ensures range >= 40 ==> Logarithmic(probes + 1, length)
  {
    if range >= 40 { MulMonotone(38, range - 2, Pow2(probes)); }
  }

  /** A probe that leaves at most half the range plus one byte keeps the halving going. */
  lemma ProbeHalves(range: nat, rest: nat, probes: nat, length: nat)
    requires Halved(range, probes, length) && rest <= range / 2 + 1
    ensures Halved(rest, probes + 1, length)
  {
    if rest >= 2 {
      var shift := Pow2(probes);
      MulMonotone(2 * (rest - 2), range - 2, shift);
      assert (rest - 2) * (2 * shift) == 2 * (rest - 2) * shift;
    }
  }

  /** What a run of the search did: how many lines it probed, and whether it ever took the
      `line_start >= high` way out. */
  datatype Trace = Trace(probes: nat, fellBack: bool)

  /**
    The seek-based search. On a validated sorted file it never errs, answers exactly whether some
    line carries the hash, never falls back, and probes logarithmically often in the file length.
    On any file whatever it terminates, `Ok(true)` is never wrong, an error means that some line
    has no readable hash, and falling back, as on a file of one character and a newline, can only
    end in such an error.
   */
  method SortedFileContains(c: seq<Byte>, hash: string) returns (r: Result<bool, BreachError>, ghost trace: Trace)
    ensures Accepted(c, true) ==> r == Ok(Carries(c, hash))
    ensures Accepted(c, true) ==>
              !trace.fellBack && Logarithmic(trace.probes, |c|)
    ensures r == Ok(true) ==> Carries(c, hash)
    ensures trace.fellBack ==> r.Err?
    ensures |c| == 2 && c[1] == NEWLINE ==> trace.fellBack
    ensures r.Err? ==> HasLineWithoutHash(c)
  {
    hide LineEnd, LineText, HashAt, HashFromLine, Compare, Halved, Logarithmic, Bracketed, Accepted, AcceptedUpTo,
      Carries, HasLineWithoutHash;
    SearchStarts(c, hash);
    trace := Trace(0, false);
    var reader := new LineReader(c);
    var length := |c|;
    if length == 0 {
      return Ok(false), trace;
    }
    var low, high := 0, length;
    while low < high
      invariant reader.content == c
      invariant 0 <= low <= high <= length && IsBoundary(c, low) && IsBoundary(c, high)
      invariant Accepted(c, true) ==> Bracketed(c, low, high, hash)
      invariant |c| == 2 && c[1] == NEWLINE ==> low == 0 && high == 2
      invariant Halved(high - low, trace.probes, length)
      invariant !trace.fellBack && (Accepted(c, true) ==> Logarithmic(trace.probes, length))
      decreases high - low
    {
      var mid := low + (high - low) / 2;
      RangeHoldsALine(c, low, high);
      ProbeInBudget(high - low, trace.probes, length);
      ghost var oldLow, oldHigh := low, high;
      var probe := SeekProbeLineStart(reader, mid, length);
      var lineStart;
      match probe {
        case Err(error) => return Err(error), trace;
        case Ok(start) => lineStart := start;
      }
      NoStartBetween(c, low, lineStart, mid);
      ProbeSettles(c, lineStart, low, high, hash);
      trace := trace.(probes := trace.probes + 1);
      if lineStart >= high {
        trace := trace.(fellBack := true);
        reader.Seek(low);
        ProbeSettles(c, low, low, high, hash);
        var order := CompareNextLine(reader, hash);
        match order {
          case Err(error) => return Err(error), trace;
          case Ok(found) => return Ok(found == Some(Equal)), trace;
        }
      }
      var order := CompareNextLine(reader, hash);
      match order {
        case Err(error) => return Err(error), trace;
        case Ok(None) => return Ok(false), trace;
        case Ok(Some(Equal)) => return Ok(true), trace;
        case Ok(Some(Less)) => low := reader.position;
        case Ok(Some(Greater)) => high := lineStart;
      }
      LineEndIsBoundary(c, lineStart);
      ProbeHalves(oldHigh - oldLow, high - low, trace.probes - 1, length);
    }
    reader.Seek(low);
    BracketClosed(c, low, hash);
    ProbeSettles(c, low, low, high, hash);
    var order := CompareNextLine(reader, hash);
    match order {
      case Err(error) => return Err(error), trace;
      case Ok(found) => return Ok(found == Some(Equal)), trace;
    }
  }

  /** A closed bracket holds no line at all, so no line carries the hash. */
  lemma BracketClosed(c: seq<Byte>, low: nat, hash: string)
    requires IsBoundary(c, low)
    ensures Bracketed(c, low, low, hash) ==> !Carries(c, hash)
    ensures low < |c| && HashAt(c, low).Some? && Compare(HashAt(c, low).value, hash) == Equal ==> Carries(c, hash)
    ensures Bracketed(c, low, low, hash) && low < |c| ==>
              HashAt(c, low).Some? && Compare(HashAt(c, low).value, hash) == Greater
  {
    CompareEqual(hash, hash);
    if low < |c| && HashAt(c, low).Some? { CompareEqual(HashAt(c, low).value, hash); }
  }

  /** The probed start never lies before `low`: `low` is itself a boundary at or before `mid`. */
  lemma NoStartBetween(c: seq<Byte>, low: nat, start: nat, mid: nat)
    requires low <= mid < |c| && IsBoundary(c, low) && IsBoundary(c, start)
    requires start == mid + 1 || start <= mid < LineEnd(c, start)
    ensures low <= start
  {
    if start < low { NextLineStart(c, start); }
  }

  /** Between two boundaries of an accepted file lies at least one 40-byte line. */
  lemma RangeHoldsALine(c: seq<Byte>, low: nat, high: nat)
    requires low < high <= |c| && IsBoundary(c, low) && IsBoundary(c, high)
    ensures Accepted(c, true) ==> high - low >= 40
  {
    NextLineStart(c, low);
  }

  /** The public lookup: on any file that validation accepts with the same options, both
      strategies answer whether some line carries the normalized hash; on no file is a hit wrong. A query
      of 40 hexadecimal digits is looked up in either case, and any other is refused. */
  method FileContains(c: seq<Byte>, passwordHash: string, options: Options) returns (r: Result<bool, BreachError>)
    ensures |c| < options.minBytes ==> r == Err(TooSmall)
    ensures |c| >= options.minBytes && !options.sorted && |c| > options.linearScanMaxBytes ==> r == Err(TooLargeForScan)
    ensures PassesGuards(c, options) && !FortyHexDigits(Trim(passwordHash)) ==> r == Err(InvalidQuery)
    ensures PassesGuards(c, options) && FortyHexDigits(Trim(passwordHash)) && Accepted(c, options.sorted) ==>
              r == Ok(Carries(c, Capitals(Trim(passwordHash))))
    ensures r == Ok(true) ==> FortyHexDigits(Trim(passwordHash)) && Carries(c, Capitals(Trim(passwordHash)))
  {
    hide Accepted, Carries, Capitals, FortyHexDigits, Trim, NormalizeSha1;
    hide Reaches, StopsAt, ReadableUpTo, HasLineWithoutHash, Logarithmic;
    Normalizes(passwordHash);
    var guard := SizeGuard(|c|, options);
    if guard.Some? {
      return Err(guard.value);
    }
    var hash := NormalizeSha1(passwordHash);
    if hash.None? {
      return Err(InvalidQuery);
    }
    if options.sorted {
      ghost var trace;
      r, trace := SortedFileContains(c, hash.value);
    } else {
      r := LinearScanContains(c, hash.value, options);
    }
  }
}
