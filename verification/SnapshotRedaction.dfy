// Redaction of provider snapshots: key normalization from any naming style to snake case, and the
// recursive replacement of every sensitive value.
module SnapshotRedaction {
  import opened Wrappers
  import opened Text

  // ----- key normalization -----

  predicate IsUpper(c: char) { 'A' <= c <= 'Z' }

  predicate IsLowerOrDigit(c: char) { 'a' <= c <= 'z' || '0' <= c <= '9' }

  /** The loop state: the buffer and what the previous character was. */
  datatype Scan = Scan(normalized: string, afterLower: bool, afterUpper: bool)

  function PushSeparator(s: string): string {
    if s != "" && s[|s| - 1] == '_' then s else s + "_"
  }

  /** One character of the key; `next` is the one after it. */
  function ScanChar(st: Scan, c: char, next: Option<char>): Scan {
    if IsUpper(c) then
      var nextIsLower := next.Some? && 'a' <= next.value <= 'z';
      var buffer := if st.afterLower || (st.afterUpper && nextIsLower) then PushSeparator(st.normalized)
                    else st.normalized;
      Scan(buffer + [ToLower(c)], false, true)
    else if IsLowerOrDigit(c) then Scan(st.normalized + [c], true, false)
    else Scan(if st.normalized == "" then "" else PushSeparator(st.normalized), false, false)
  }

  function ScanAll(st: Scan, s: string): Scan
    decreases s
  {
    if s == "" then st else ScanAll(ScanChar(st, s[0], if |s| > 1 then Some(s[1]) else None), s[1..])
  }

  function TrimUnderscores(s: string): string {
    if s != "" && s[0] == '_' then TrimUnderscores(s[1..])
    else if s != "" && s[|s| - 1] == '_' then TrimUnderscores(s[..|s| - 1])
    else s
  }

  function NormalizeKey(key: string): string {
    TrimUnderscores(ScanAll(Scan("", false, false), key).normalized)
  }

  method NormalizeSnapshotKey(value: string) returns (r: string)
    ensures r == NormalizeKey(value)
  {
    var normalized := "";
    var afterLower, afterUpper := false, false;
    assert value[0..] == value;
    for index := 0 to |value|
      invariant ScanAll(Scan("", false, false), value)
             == ScanAll(Scan(normalized, afterLower, afterUpper), value[index..])
    {
      var c := value[index];
      assert value[index..][1..] == value[index + 1..];
      if IsUpper(c) {
        var nextIsLower := index + 1 < |value| && 'a' <= value[index + 1] <= 'z';
        if (afterLower || (afterUpper && nextIsLower)) && !(normalized != "" && normalized[|normalized| - 1] == '_') {
          normalized := normalized + "_";
        }
        normalized := normalized + [ToLower(c)];
        afterLower, afterUpper := false, true;
      } else if IsLowerOrDigit(c) {
        normalized := normalized + [c];
        afterLower, afterUpper := true, false;
      } else {
        if normalized != "" && normalized[|normalized| - 1] != '_' {
          normalized := normalized + "_";
        }
        afterLower, afterUpper := false, false;
      }
    }
    return TrimUnderscores(normalized);
  }

  /** Lower-case letters, digits and underscores, with no two underscores in a row. */
  predicate Snakish(s: string) {
    && (forall i :: 0 <= i < |s| ==> 'a' <= s[i] <= 'z' || '0' <= s[i] <= '9' || s[i] == '_')
    && (forall i :: 0 <= i < |s| - 1 ==> !(s[i] == '_' && s[i + 1] == '_'))
  }

  /** Snake case: underscores are single and only between other characters. */
  predicate SnakeCase(s: string) {
    Snakish(s) && (s != "" ==> s[0] != '_' && s[|s| - 1] != '_')
  }

  lemma {:induction false} ScanKeepsSnakish(st: Scan, s: string)
    requires Snakish(st.normalized)
    ensures Snakish(ScanAll(st, s).normalized)
    decreases s
  {
    if s != "" {
      ScanKeepsSnakish(ScanChar(st, s[0], if |s| > 1 then Some(s[1]) else None), s[1..]);
    }
  }

  lemma {:induction false} TrimMakesSnakeCase(s: string)
    requires Snakish(s)
    ensures SnakeCase(TrimUnderscores(s))
  {
    if s != "" && s[0] == '_' {
      TrimMakesSnakeCase(s[1..]);
    } else if s != "" && s[|s| - 1] == '_' {
      TrimMakesSnakeCase(s[..|s| - 1]);
    }
  }

  /** Normalization only yields snake case. */
  lemma NormalizedIsSnakeCase(key: string)
    ensures SnakeCase(NormalizeKey(key))
  {
    ScanKeepsSnakish(Scan("", false, false), key);
    TrimMakesSnakeCase(ScanAll(Scan("", false, false), key).normalized);
  }

  /** Snake case passes through the scanner unchanged. */
  lemma {:induction false} SnakeCaseScans(st: Scan, s: string)
    requires Snakish(st.normalized + s) && (st.normalized == "" ==> s == "" || s[0] != '_')
    ensures ScanAll(st, s).normalized == st.normalized + s
    decreases s
  {
    if s == "" {
      assert st.normalized + s == st.normalized;
    } else {
      var all := st.normalized + s;
      assert all[|st.normalized|] == s[0];
      if s[0] == '_' {
        assert all[|st.normalized| - 1] == st.normalized[|st.normalized| - 1];
      }
      var st' := ScanChar(st, s[0], if |s| > 1 then Some(s[1]) else None);
      assert st'.normalized == st.normalized + [s[0]];
      assert st'.normalized + s[1..] == all;
      SnakeCaseScans(st', s[1..]);
    }
  }

  lemma SnakeCaseTrims(key: string)
    requires SnakeCase(key)
    ensures TrimUnderscores(key) == key
  {
  }

  /** Exactly the snake-case keys are left alone. */
  lemma FixedIffSnakeCase(key: string)
    ensures NormalizeKey(key) == key <==> SnakeCase(key)
  {
    hide ScanAll, TrimUnderscores;
    NormalizedIsSnakeCase(key);
    if SnakeCase(key) {
      assert "" + key == key;
      SnakeCaseScans(Scan("", false, false), key);
      SnakeCaseTrims(key);
    }
  }

  lemma NormalizeIdempotent(key: string)
    ensures NormalizeKey(NormalizeKey(key)) == NormalizeKey(key)
  {
    NormalizedIsSnakeCase(key);
    FixedIffSnakeCase(NormalizeKey(key));
  }

  // ----- naming styles -----

  /** A word of a key: lower-case letters and digits. */
  predicate Word(w: string) {
    w != "" && AllLower(w)
  }

  predicate AllLower(s: string) {
    forall i :: 0 <= i < |s| ==> 'a' <= s[i] <= 'z' || '0' <= s[i] <= '9'
  }

  predicate Words(words: seq<string>) {
    forall i :: 0 <= i < |words| ==> Word(words[i])
  }

  predicate Separator(s: string) {
    && s != ""
    && forall i :: 0 <= i < |s| ==> !('a' <= s[i] <= 'z') && !('A' <= s[i] <= 'Z') && !('0' <= s[i] <= '9')
  }

  /** Every word behind a separator: `-second-third`. */
  function Behind(separator: string, words: seq<string>): string {
    if words == [] then "" else separator + (words[0] + Behind(separator, words[1..]))
  }

  /** Every word capitalized: `SecondThird`. */
  function Capitalized(words: seq<string>): string
    requires Words(words)
  {
    if words == [] then "" else [ToUpper(words[0][0])] + (words[0][1..] + Capitalized(words[1..]))
  }

  /** `first_second_third` */
  function Snake(words: seq<string>): string {
    if words == [] then "" else words[0] + Behind("_", words[1..])
  }

  predicate Letter(c: char) { 'a' <= c <= 'z' }

  /** A capitalized word after which the scanner remembers a lower-case letter or a digit: every word
      but those of one letter. */
  predicate EndsLower(w: string)
    requires Word(w)
  {
    |w| > 1 || !Letter(w[0])
  }

  /** A capitalized word gets an underscore in front when it starts with a letter and either the word
      before ended lower or its own second character is a letter. */
  predicate SplitOff(afterLower: bool, w: string)
    requires Word(w)
  {
    Letter(w[0]) && (afterLower || (|w| > 1 && Letter(w[1])))
  }

  predicate AllSplit(afterLower: bool, words: seq<string>)
    requires Words(words)
    decreases words
  {
    words == [] || (SplitOff(afterLower, words[0]) && AllSplit(EndsLower(words[0]), words[1..]))
  }

  /** What capitalized words become. */
  function Seen(afterLower: bool, words: seq<string>): string
    requires Words(words)
    decreases words
  {
    if words == [] then ""
    else (if SplitOff(afterLower, words[0]) then "_" else "") + (words[0] + Seen(EndsLower(words[0]), words[1..]))
  }

  lemma {:induction false} SeenIsSnakeIff(afterLower: bool, words: seq<string>)
    requires Words(words)
    ensures |Seen(afterLower, words)| <= |Behind("_", words)|
    ensures Seen(afterLower, words) == Behind("_", words) <==> AllSplit(afterLower, words)
    decreases words
  {
    if words != [] {
      var (w, rest) := (words[0], words[1..]);
      SeenIsSnakeIff(EndsLower(w), rest);
      var (seen, behind) := (Seen(EndsLower(w), rest), Behind("_", rest));
      if SplitOff(afterLower, w) {
        assert Seen(afterLower, words)[1 + |w|..] == seen && Behind("_", words)[1 + |w|..] == behind;
      } else {
        assert |Seen(afterLower, words)| == |w| + |seen| < |Behind("_", words)|;
      }
    }
  }

  predicate LongWords(words: seq<string>) {
    forall i :: 0 <= i < |words| ==> |words[i]| > 1 && Letter(words[i][0])
  }

  lemma {:induction false} LongWordsSplit(words: seq<string>)
    requires Words(words) && LongWords(words)
    ensures AllSplit(true, words)
  {
    if words != [] {
      LongWordsSplit(words[1..]);
    }
  }

  lemma BehindJoins(prefix: string, words: seq<string>)
    requires words != []
    ensures prefix + "_" + words[0] + Behind("_", words[1..]) == prefix + Behind("_", words)
  {
    assert prefix + "_" + words[0] + Behind("_", words[1..]) == prefix + ("_" + (words[0] + Behind("_", words[1..])));
  }

  lemma {:induction false} ScanLower(st: Scan, w: string, rest: string)
    requires w != "" && AllLower(w)
    ensures ScanAll(st, w + rest) == ScanAll(Scan(st.normalized + w, true, false), rest)
    decreases w
  {
    var s := w + rest;
    var st' := Scan(st.normalized + [w[0]], true, false);
    assert s[1..] == w[1..] + rest;
    assert ScanAll(st, s) == ScanAll(st', w[1..] + rest);
    if |w| > 1 {
      ScanLower(st', w[1..], rest);
      assert st'.normalized + w[1..] == st.normalized + w;
    } else {
      assert w[1..] + rest == rest && [w[0]] == w;
    }
  }

  predicate EndsInWord(s: string) {
    s != "" && IsLowerOrDigit(s[|s| - 1])
  }

  /** A whole separator leaves one underscore. */
  lemma {:induction false} ScanSeparator(st: Scan, separator: string, rest: string)
    requires Separator(separator)
    requires EndsInWord(st.normalized) || (st.normalized != "" && st.normalized[|st.normalized| - 1] == '_')
    ensures ScanAll(st, separator + rest) == ScanAll(Scan(PushSeparator(st.normalized), false, false), rest)
    decreases separator
  {
    var s := separator + rest;
    assert s[1..] == separator[1..] + rest;
    var st' := Scan(PushSeparator(st.normalized), false, false);
    assert ScanAll(st, s) == ScanAll(st', separator[1..] + rest);
    if |separator| > 1 {
      ScanSeparator(st', separator[1..], rest);
    } else {
      assert separator[1..] + rest == rest;
    }
  }

  lemma {:induction false} ScanBehind(st: Scan, separator: string, words: seq<string>)
    requires Words(words) && Separator(separator) && EndsInWord(st.normalized)
    ensures ScanAll(st, Behind(separator, words)).normalized == st.normalized + Behind("_", words)
    decreases words
  {
    hide ScanChar;
    if words == [] {
      assert st.normalized + "" == st.normalized;
    } else {
      var rest := Behind(separator, words[1..]);
      ScanSeparator(st, separator, words[0] + rest);
      ScanLower(Scan(st.normalized + "_", false, false), words[0], rest);
      ScanBehind(Scan(st.normalized + "_" + words[0], true, false), separator, words[1..]);
      BehindJoins(st.normalized, words);
    }
  }

  lemma ScanOne(st: Scan, c: char, rest: string)
    ensures ScanAll(st, [c] + rest) == ScanAll(ScanChar(st, c, if rest != "" then Some(rest[0]) else None), rest)
  {
    assert ([c] + rest)[1..] == rest;
  }

  /** The start of what may follow a word in a run of capitalized words. */
  predicate StartsWord(s: string) {
    s == "" || !Letter(s[0])
  }

  /** The scanner is at the start of the key or right behind a word. */
  predicate BetweenWords(st: Scan) {
    if st.normalized == "" then !st.afterLower && !st.afterUpper
    else EndsInWord(st.normalized) && st.afterUpper == !st.afterLower
  }

  function Put(st: Scan, w: string): string
    requires Word(w)
  {
    if st.normalized != "" && SplitOff(st.afterLower, w) then st.normalized + "_" else st.normalized
  }

  lemma CapitalChar(st: Scan, w: string, next: Option<char>)
    requires Word(w) && BetweenWords(st)
    requires |w| > 1 ==> next == Some(w[1])
    requires |w| == 1 && next.Some? ==> !Letter(next.value)
    ensures ScanChar(st, ToUpper(w[0]), next) == Scan(Put(st, w) + [w[0]], !Letter(w[0]), Letter(w[0]))
  {
    assert IsLowerOrDigit(w[0]);
  }

  lemma ScanCapital(st: Scan, w: string, rest: string)
    requires Word(w) && StartsWord(rest) && BetweenWords(st)
    ensures ScanAll(st, [ToUpper(w[0])] + (w[1..] + rest))
         == ScanAll(Scan(Put(st, w) + w, EndsLower(w), !EndsLower(w)), rest)
  {
    hide ScanAll, ScanChar, BetweenWords, Put;
    var others := w[1..] + rest;
    ScanOne(st, ToUpper(w[0]), others);
    assert |w| > 1 ==> others[0] == w[1];
    assert |w| == 1 ==> others == rest && [w[0]] == w;
    CapitalChar(st, w, if others != "" then Some(others[0]) else None);
    if |w| > 1 {
      ScanLower(Scan(Put(st, w) + [w[0]], !Letter(w[0]), Letter(w[0])), w[1..], rest);
      assert Put(st, w) + [w[0]] + w[1..] == Put(st, w) + w;
    }
  }

  lemma SeenNothing(prefix: string, afterLower: bool)
    ensures prefix + Seen(afterLower, []) == prefix
  {
  }

  lemma SeenJoins(st: Scan, words: seq<string>)
    requires words != [] && Words(words) && st.normalized != ""
    ensures Put(st, words[0]) + words[0] + Seen(EndsLower(words[0]), words[1..])
         == st.normalized + Seen(st.afterLower, words)
  {
    var (w, seen) := (words[0], Seen(EndsLower(words[0]), words[1..]));
    var separator := if SplitOff(st.afterLower, w) then "_" else "";
    assert Put(st, w) == st.normalized + separator;
    hide *;
    Regroup(st.normalized, separator, w, seen);
  }

  lemma Regroup(a: string, b: string, c: string, d: string)
    ensures a + b + c + d == a + (b + (c + d))
  {
  }

  lemma {:induction false} ScanCapitalized(st: Scan, words: seq<string>)
    requires Words(words) && EndsInWord(st.normalized) && st.afterUpper == !st.afterLower
    ensures ScanAll(st, Capitalized(words)).normalized == st.normalized + Seen(st.afterLower, words)
    decreases words
  {
    hide ScanChar, SplitOff, EndsLower, Seen, Put;
    if words == [] {
      SeenNothing(st.normalized, st.afterLower);
    } else {
      var w := words[0];
      StartsCapitalized(words[1..]);
      ScanCapital(st, w, Capitalized(words[1..]));
      var n := Put(st, w) + w;
      ScanCapitalized(Scan(n, EndsLower(w), !EndsLower(w)), words[1..]);
      SeenJoins(st, words);
    }
  }

  lemma StartsCapitalized(words: seq<string>)
    requires Words(words)
    ensures StartsWord(Capitalized(words))
  {
    assert words != [] ==> Word(words[0]);
  }

  lemma WordEndsInWord(prefix: string, w: string)
    requires Word(w)
    ensures EndsInWord(prefix + w)
  {
  }

  lemma {:induction false} BehindEndsInWord(words: seq<string>, prefix: string)
    requires Words(words) && EndsInWord(prefix)
    ensures EndsInWord(prefix + Behind("_", words))
    decreases words
  {
    hide EndsInWord;
    if words == [] {
      assert prefix + "" == prefix;
    } else {
      WordEndsInWord(prefix + "_", words[0]);
      BehindEndsInWord(words[1..], prefix + "_" + words[0]);
      Regroup(prefix, "_", words[0], Behind("_", words[1..]));
    }
  }

  lemma {:induction false} SeenEndsInWord(afterLower: bool, words: seq<string>, prefix: string)
    requires Words(words) && EndsInWord(prefix)
    ensures EndsInWord(prefix + Seen(afterLower, words))
    decreases words
  {
    hide EndsInWord, SplitOff, EndsLower;
    if words == [] {
      assert prefix + "" == prefix;
    } else {
      var (w, separator) := (words[0], if SplitOff(afterLower, words[0]) then "_" else "");
      WordEndsInWord(prefix + separator, w);
      SeenEndsInWord(EndsLower(w), words[1..], prefix + separator + w);
      Regroup(prefix, separator, w, Seen(EndsLower(w), words[1..]));
    }
  }

  /** Text that starts and ends with a word character is not trimmed. */
  lemma Trimmed(w: string, rest: string)
    requires Word(w) && EndsInWord(w + rest)
    ensures TrimUnderscores(w + rest) == w + rest
  {
    assert (w + rest)[0] == w[0];
  }

  lemma SeparatedNormalizes(words: seq<string>, separator: string)
    requires words != [] && Words(words) && Separator(separator)
    ensures NormalizeKey(words[0] + Behind(separator, words[1..])) == Snake(words)
  {
    hide ScanAll, Behind, TrimUnderscores;
    assert "" + words[0] == words[0];
    ScanLower(Scan("", false, false), words[0], Behind(separator, words[1..]));
    ScanBehind(Scan(words[0], true, false), separator, words[1..]);
    BehindEndsInWord(words[1..], words[0]);
    Trimmed(words[0], Behind("_", words[1..]));
  }

  /** `apiKey` */
  lemma CamelNormalizes(words: seq<string>)
    requires words != [] && Words(words)
    ensures NormalizeKey(words[0] + Capitalized(words[1..])) == words[0] + Seen(true, words[1..])
  {
    hide ScanAll, Seen, Capitalized, TrimUnderscores;
    assert "" + words[0] == words[0];
    ScanLower(Scan("", false, false), words[0], Capitalized(words[1..]));
    ScanCapitalized(Scan(words[0], true, false), words[1..]);
    SeenEndsInWord(true, words[1..], words[0]);
    Trimmed(words[0], Seen(true, words[1..]));
  }

  /** `ApiKey` */
  lemma PascalNormalizes(words: seq<string>)
    requires words != [] && Words(words)
    ensures NormalizeKey(Capitalized(words)) == words[0] + Seen(EndsLower(words[0]), words[1..])
  {
    hide ScanAll, Seen, TrimUnderscores, EndsLower, SplitOff;
    var (w, afterLower) := (words[0], EndsLower(words[0]));
    assert "" + "" + w == w;
    StartsCapitalized(words[1..]);
    ScanCapital(Scan("", false, false), w, Capitalized(words[1..]));
    ScanCapitalized(Scan(w, afterLower, !afterLower), words[1..]);
    SeenEndsInWord(afterLower, words[1..], w);
    Trimmed(w, Seen(afterLower, words[1..]));
  }

  lemma SamePrefix(w: string, s: string, t: string)
    ensures w + s == w + t <==> s == t
  {
    assert (w + s)[|w|..] == s && (w + t)[|w|..] == t;
  }

  /** Words behind any separator normalize to their snake case. Capitalized words do, with or without a
      capital at the front, exactly when the scanner splits off each of them; it does so whenever they
      all start with a letter and have two characters or more. */
  lemma StyleDoesNotMatter(words: seq<string>, separator: string)
    requires words != [] && Words(words) && Separator(separator)
    ensures NormalizeKey(words[0] + Behind(separator, words[1..])) == Snake(words)
    ensures NormalizeKey(words[0] + Capitalized(words[1..])) == Snake(words) <==> AllSplit(true, words[1..])
    ensures NormalizeKey(Capitalized(words)) == Snake(words) <==> AllSplit(EndsLower(words[0]), words[1..])
    ensures LongWords(words) ==> EndsLower(words[0]) && AllSplit(true, words[1..])
  {
    hide NormalizeKey, Seen, Behind, AllSplit, Capitalized;
    SeparatedNormalizes(words, separator);
    CamelNormalizes(words);
    PascalNormalizes(words);
    SeenIsSnakeIff(true, words[1..]);
    SeenIsSnakeIff(EndsLower(words[0]), words[1..]);
    SamePrefix(words[0], Seen(true, words[1..]), Behind("_", words[1..]));
    SamePrefix(words[0], Seen(EndsLower(words[0]), words[1..]), Behind("_", words[1..]));
    if LongWords(words) {
      LongWordsSplit(words[1..]);
    }
  }

  predicate Letters(s: string) {
    forall i :: 0 <= i < |s| ==> Letter(s[i])
  }

  /** A run of capitals gets no separators inside. */
  lemma {:induction false} ScanCapitals(st: Scan, acronym: string, rest: string)
    requires acronym != "" && Letters(acronym) && !st.afterLower && StartsWord(rest)
    ensures ScanAll(st, Uppercase(acronym) + rest) == ScanAll(Scan(st.normalized + acronym, false, true), rest)
    decreases acronym
  {
    hide ScanAll;
    var (c, others) := (ToUpper(acronym[0]), Uppercase(acronym[1..]) + rest);
    assert Uppercase(acronym) + rest == [c] + others;
    ScanOne(st, c, others);
    assert ToLower(c) == acronym[0] && (others == "" || !Letter(others[0]));
    var st' := Scan(st.normalized + [acronym[0]], false, true);
    if |acronym| > 1 {
      ScanCapitals(st', acronym[1..], rest);
      assert st'.normalized + acronym[1..] == st.normalized + acronym;
    } else {
      assert others == rest && [acronym[0]] == acronym;
    }
  }

  lemma AcronymSeen(acronym: string, words: seq<string>)
    requires acronym != "" && Letters(acronym) && Words(words)
    ensures NormalizeKey(Uppercase(acronym) + Capitalized(words)) == acronym + Seen(false, words)
  {
    hide ScanAll, ScanChar, Uppercase, Seen, Capitalized, TrimUnderscores;
    assert "" + acronym == acronym;
    StartsCapitalized(words);
    ScanCapitals(Scan("", false, false), acronym, Capitalized(words));
    ScanCapitalized(Scan(acronym, false, true), words);
    SeenEndsInWord(false, words, acronym);
    Trimmed(acronym, Seen(false, words));
  }

  /** An all-capitals word in front of capitalized ones is a word of its own exactly when those are split
      off: `APIKey` is `api_key`. */
  lemma AcronymNormalizes(acronym: string, words: seq<string>)
    requires acronym != "" && Letters(acronym) && Words(words)
    ensures NormalizeKey(Uppercase(acronym) + Capitalized(words)) == acronym + Seen(false, words)
    ensures NormalizeKey(Uppercase(acronym) + Capitalized(words)) == Snake([acronym] + words) <==>
            AllSplit(false, words)
  {
    hide NormalizeKey, Uppercase, Capitalized, Behind, Seen, AllSplit;
    AcronymSeen(acronym, words);
    assert ([acronym] + words)[1..] == words;
    SeenIsSnakeIff(false, words);
    SamePrefix(acronym, Seen(false, words), Behind("_", words));
  }

  // ----- keys cut by separators -----

  lemma {:induction false} ScanAppend(st: Scan, a: string, b: string)
    requires StartsWord(b)
    ensures ScanAll(st, a + b) == ScanAll(ScanAll(st, a), b)
    decreases a
  {
    if a == "" {
      assert a + b == b;
    } else {
      assert (a + b)[1..] == a[1..] + b;
      var next := if |a| > 1 then Some(a[1]) else None;
      var next' := if |a + b| > 1 then Some((a + b)[1]) else None;
      assert ScanChar(st, a[0], next) == ScanChar(st, a[0], next');
      ScanAppend(ScanChar(st, a[0], next), a[1..], b);
    }
  }

  /** A separator, from any state: nothing at the start of a key, otherwise one underscore. */
  lemma {:induction false} ScanCut(st: Scan, separator: string)
    requires Separator(separator)
    ensures ScanAll(st, separator)
         == Scan(if st.normalized == "" then "" else PushSeparator(st.normalized), false, false)
    decreases separator
  {
    if |separator| > 1 {
      ScanCut(ScanChar(st, separator[0], Some(separator[1])), separator[1..]);
    } else {
      assert separator[1..] == "";
    }
  }

  /** Behind an underscore the scanner goes on as at the start of a key. */
  lemma {:induction false} ScanBehindCut(before: string, st: Scan, s: string)
    requires before != "" && before[|before| - 1] == '_'
    requires st.normalized == "" ==> !st.afterLower && !st.afterUpper
    ensures ScanAll(Scan(before + st.normalized, st.afterLower, st.afterUpper), s).normalized
         == before + ScanAll(st, s).normalized
    decreases s
  {
    if s != "" {
      var next := if |s| > 1 then Some(s[1]) else None;
      var st' := ScanChar(st, s[0], next);
      ShiftedChar(before, st, s[0], next);
      ScanBehindCut(before, st', s[1..]);
    }
  }

  lemma ShiftedChar(before: string, st: Scan, c: char, next: Option<char>)
    requires before != "" && before[|before| - 1] == '_'
    requires st.normalized == "" ==> !st.afterLower && !st.afterUpper
    ensures var st' := ScanChar(st, c, next);
      && ScanChar(Scan(before + st.normalized, st.afterLower, st.afterUpper), c, next)
           == Scan(before + st'.normalized, st'.afterLower, st'.afterUpper)
      && (st'.normalized == "" ==> !st'.afterLower && !st'.afterUpper)
  {
    var n := st.normalized;
    assert n == "" ==> before + n == before;
    assert PushSeparator(before + n) == if n == "" then before else before + PushSeparator(n) by {
      assert n != "" ==> (before + n)[|before + n| - 1] == n[|n| - 1];
      assert before + n + "_" == before + (n + "_");
    }
    assert forall x: string :: before + x + [c] == before + (x + [c]);
    assert before + n + "_" + [ToLower(c)] == before + (n + "_" + [ToLower(c)]);
  }

  /** The buffer never starts with an underscore, so only one at the end is ever trimmed. */
  predicate Buffer(s: string) {
    Snakish(s) && (s != "" ==> s[0] != '_')
  }

  lemma {:induction false} ScanKeepsBuffer(st: Scan, s: string)
    requires Buffer(st.normalized) && (st.normalized == "" ==> !st.afterLower && !st.afterUpper)
    ensures Buffer(ScanAll(st, s).normalized)
    decreases s
  {
    if s != "" {
      ScanKeepsBuffer(ScanChar(st, s[0], if |s| > 1 then Some(s[1]) else None), s[1..]);
    }
  }

  lemma BufferTrims(s: string)
    requires Buffer(s)
    ensures TrimUnderscores(s) == if s != "" && s[|s| - 1] == '_' then s[..|s| - 1] else s
    ensures TrimUnderscores(s) == "" <==> s == ""
  {
    if s != "" && s[|s| - 1] == '_' {
      var t := s[..|s| - 1];
      assert t != "" && t[0] == s[0] && t[|t| - 1] != '_';
    }
  }

  lemma BufferJoins(t: string, y: string)
    requires Buffer(t) && Buffer(y) && t != "" && t[|t| - 1] != '_'
    ensures Buffer(t + "_" + y)
  {
  }

  lemma JoinTrims(t: string, y: string)
    requires Buffer(t) && Buffer(y) && t != "" && t[|t| - 1] != '_'
    ensures TrimUnderscores(t + "_" + y) == JoinedKeys(t, TrimUnderscores(y))
  {
    hide Snakish, TrimUnderscores;
    BufferJoins(t, y);
    BufferTrims(y);
    BufferTrims(t + "_" + y);
    var s := t + "_" + y;
    if y == "" {
      assert s[..|s| - 1] == t;
    } else if y[|y| - 1] == '_' {
      assert s[..|s| - 1] == t + "_" + y[..|y| - 1];
    }
  }

  lemma JoinedBuffers(x: string, y: string)
    requires Buffer(x) && Buffer(y)
    ensures var before := if x == "" then "" else PushSeparator(x);
      TrimUnderscores(before + y) == JoinedKeys(TrimUnderscores(x), TrimUnderscores(y))
  {
    hide TrimUnderscores;
    BufferTrims(x);
    if x == "" {
      assert "" + y == y;
    } else {
      var t := TrimUnderscores(x);
      assert x[|x| - 1] == '_' ==> |x| > 1 && x[|x| - 2] != '_';
      assert PushSeparator(x) == t + "_";
      assert Buffer(t);
      JoinTrims(t, y);
    }
  }

  /** Two normal forms with an underscore between them, unless one is empty. */
  function JoinedKeys(a: string, b: string): string {
    if a == "" then b else if b == "" then a else a + "_" + b
  }

  /** A separator anywhere cuts a key in two that are normalized on their own; at either end it is
      dropped. */
  lemma SeparatorsCut(a: string, separator: string, b: string)
    requires Separator(separator)
    ensures NormalizeKey(a + (separator + b)) == JoinedKeys(NormalizeKey(a), NormalizeKey(b))
  {
    hide ScanAll, TrimUnderscores, JoinedKeys, Buffer, Snakish, PushSeparator;
    var start := Scan("", false, false);
    var x := ScanAll(start, a);
    EmptyBuffer();
    ScanKeepsBuffer(start, a);
    ScanKeepsBuffer(start, b);
    ScanAppend(start, a, separator + b);
    CutBefore(x, separator, b);
    ScanCut(x, separator);
    var before := if x.normalized == "" then "" else PushSeparator(x.normalized);
    if x.normalized != "" {
      EndsInSeparator(x.normalized);
      ScanBehindCut(before, start, b);
      assert before + "" == before;
    } else {
      assert before + ScanAll(start, b).normalized == ScanAll(start, b).normalized;
    }
    JoinedBuffers(x.normalized, ScanAll(start, b).normalized);
  }

  lemma EmptyBuffer()
    ensures Buffer("")
  {
  }

  lemma EndsInSeparator(s: string)
    requires s != ""
    ensures PushSeparator(s) != "" && PushSeparator(s)[|PushSeparator(s)| - 1] == '_'
  {
  }

  /** A separator does not look at what follows it. */
  lemma {:induction false} CutBefore(st: Scan, separator: string, b: string)
    requires Separator(separator)
    ensures ScanAll(st, separator + b) == ScanAll(ScanAll(st, separator), b)
    decreases separator
  {
    var s := separator + b;
    assert s[1..] == separator[1..] + b;
    var st' := ScanChar(st, separator[0], None);
    assert ScanAll(st, s) == ScanAll(st', s[1..]);
    assert ScanAll(st, separator) == ScanAll(st', separator[1..]);
    if |separator| > 1 {
      CutBefore(st', separator[1..], b);
    } else {
      assert separator[1..] + b == b;
    }
  }

  // ----- sensitive keys -----

  /** The key is the sensitive name, or ends in it after an underscore. */
  predicate Matches(key: string, sensitive: string) {
    && sensitive != ""
    && (key == sensitive ||
          (|key| > |sensitive| && key[|key| - |sensitive|..] == sensitive && key[|key| - |sensitive| - 1] == '_'))
  }

  lemma SnakeStep(words: seq<string>)
    requires |words| > 1
    ensures Snake(words) == words[0] + "_" + Snake(words[1..])
  {
    assert words[1..][1..] == words[2..];
    assert words[1..][0] == words[1];
  }

  /** Splitting at underscores gives the words back. */
  lemma {:induction false} SnakeInjective(ws: seq<string>, vs: seq<string>)
    requires ws != [] && vs != [] && Words(ws) && Words(vs) && Snake(ws) == Snake(vs)
    ensures ws == vs
    decreases |ws| + |vs|
  {
    hide Snake;
    SnakeHead(ws);
    SnakeHead(vs);
    var s := Snake(ws);
    assert ws[0] == s[..|ws[0]|] == vs[0];
    if |ws| > 1 && |vs| > 1 {
      assert Snake(ws[1..]) == s[|ws[0]| + 1..] == Snake(vs[1..]);
      SnakeInjective(ws[1..], vs[1..]);
    }
    assert ws == [ws[0]] + ws[1..] && vs == [vs[0]] + vs[1..];
  }

  lemma SnakeHead(ws: seq<string>)
    requires ws != [] && Words(ws)
    ensures |Snake(ws)| >= |ws[0]| && Snake(ws)[..|ws[0]|] == ws[0]
    ensures forall i :: 0 <= i < |ws[0]| ==> Snake(ws)[i] == ws[0][i] && ws[0][i] != '_'
    ensures |ws| == 1 ==> Snake(ws) == ws[0]
    ensures |ws| > 1 ==>
              |Snake(ws)| > |ws[0]| + 1 && Snake(ws)[|ws[0]|] == '_' && Snake(ws)[|ws[0]| + 1..] == Snake(ws[1..])
  {
    assert Word(ws[0]);
    if |ws| > 1 {
      SnakeStep(ws);
      assert Word(ws[1..][0]);
    } else {
      assert ws[0] + "" == ws[0];
    }
  }

  /** One text matches another exactly when its words end in the words of the other. */
  lemma {:induction false} MatchesIffWordsEnd(ws: seq<string>, vs: seq<string>)
    requires ws != [] && vs != [] && Words(ws) && Words(vs)
    ensures Matches(Snake(ws), Snake(vs)) <==> |vs| <= |ws| && ws[|ws| - |vs|..] == vs
    decreases ws
  {
    hide Snake;
    var (s, t) := (Snake(ws), Snake(vs));
    SnakeHead(ws);
    SnakeHead(vs);
    if s == t { SnakeInjective(ws, vs); }
    if |ws| == 1 {
      assert |vs| == 1 ==> ws[0..] == ws;
    } else {
      var u := Snake(ws[1..]);
      MatchesIffWordsEnd(ws[1..], vs);
      assert s[|ws[0]| + 1..] == u;
      SuffixAfterUnderscore(s, |ws[0]|, t);
      assert |vs| <= |ws| - 1 ==> ws[|ws| - |vs|..] == ws[1..][|ws| - 1 - |vs|..];
    }
  }

  /** When the first underscore of `s` is at `k`, a match is the whole of `s` or a match of what follows. */
  lemma SuffixAfterUnderscore(s: string, k: nat, t: string)
    requires k < |s| && s[k] == '_' && forall i :: 0 <= i < k ==> s[i] != '_'
    ensures Matches(s, t) <==> (t != "" && s == t) || Matches(s[k + 1..], t)
  {
    var u := s[k + 1..];
    if |t| < |u| {
      assert u[|u| - |t|..] == s[|s| - |t|..];
      assert u[|u| - |t| - 1] == s[|s| - |t| - 1];
    } else if |t| == |u| {
      assert s[|s| - |t|..] == u;
    }
  }

  function FirstUnderscore(s: string): (k: nat)
    ensures k <= |s| && (k < |s| ==> s[k] == '_') && forall i :: 0 <= i < k ==> s[i] != '_'
  {
    if s == "" || s[0] == '_' then 0 else 1 + FirstUnderscore(s[1..])
  }

  /** The words between the underscores. */
  function Split(s: string): seq<string> {
    var k := FirstUnderscore(s);
    if s == "" then [] else if k == |s| then [s] else [s[..k]] + Split(s[k + 1..])
  }

  lemma SuffixIsSnakeCase(s: string, j: nat)
    requires SnakeCase(s) && j < |s| && s[j] != '_'
    ensures SnakeCase(s[j..])
  {
    var rest := s[j..];
    assert rest[|rest| - 1] == s[|s| - 1];
  }

  lemma CutAt(s: string, k: nat)
    requires k < |s| && s[k] == '_'
    ensures s == s[..k] + "_" + s[k + 1..]
  {
  }

  lemma HeadIsWord(s: string, k: nat)
    requires SnakeCase(s) && s != "" && k == FirstUnderscore(s)
    ensures Word(s[..k])
    ensures k < |s| ==> k + 1 < |s| && s[k + 1] != '_'
  {
    assert s[0] != '_' && s[|s| - 1] != '_';
  }

  /** Every snake-case text is the snake case of its words. */
  lemma {:induction false} SplitJoins(s: string)
    requires SnakeCase(s)
    ensures Words(Split(s)) && Snake(Split(s)) == s && (Split(s) == [] <==> s == "")
  {
    hide SnakeCase, Word, FirstUnderscore, Snake;
    if s == "" {
      SnakeOfOne("");
    } else {
      var k := FirstUnderscore(s);
      HeadIsWord(s, k);
      if k == |s| {
        assert s[..k] == s;
        SnakeOfOne(s);
      } else {
        CutAt(s, k);
        SuffixIsSnakeCase(s, k + 1);
        SplitJoins(s[k + 1..]);
        SnakeStep(Split(s));
        assert Split(s)[1..] == Split(s[k + 1..]);
      }
    }
  }

  lemma SnakeOfOne(w: string)
    ensures Snake([w]) == w && Snake([]) == ""
  {
    assert w + "" == w;
  }

  predicate IsSensitive(key: string, sensitiveKeys: seq<string>) {
    exists i :: 0 <= i < |sensitiveKeys| && Matches(NormalizeKey(key), NormalizeKey(sensitiveKeys[i]))
  }

  /** A key is judged by its normal form. */
  lemma SensitiveByNormalForm(key: string, sensitiveKeys: seq<string>)
    ensures IsSensitive(key, sensitiveKeys) <==> IsSensitive(NormalizeKey(key), sensitiveKeys)
  {
    NormalizeIdempotent(key);
  }

  /** The words of a key, whatever its spelling. */
  function KeyWords(key: string): seq<string> {
    Split(NormalizeKey(key))
  }

  predicate EndsIn(words: seq<string>, ending: seq<string>) {
    ending != [] && |ending| <= |words| && words[|words| - |ending|..] == ending
  }

  lemma MatchesIffKeyWordsEnd(key: string, name: string)
    ensures Matches(NormalizeKey(key), NormalizeKey(name)) <==> EndsIn(KeyWords(key), KeyWords(name))
  {
    hide NormalizeKey, Split, Snake;
    NormalizedIsSnakeCase(key);
    NormalizedIsSnakeCase(name);
    SplitJoins(NormalizeKey(key));
    SplitJoins(NormalizeKey(name));
    if KeyWords(key) != [] && KeyWords(name) != [] {
      MatchesIffWordsEnd(KeyWords(key), KeyWords(name));
    }
  }

  /** A key is sensitive exactly when its words end in the words of a sensitive name. */
  lemma SensitiveIffWordsEnd(key: string, sensitiveKeys: seq<string>)
    ensures IsSensitive(key, sensitiveKeys) <==>
            exists i :: 0 <= i < |sensitiveKeys| && EndsIn(KeyWords(key), KeyWords(sensitiveKeys[i]))
  {
    hide NormalizeKey, Matches, EndsIn, KeyWords;
    forall i | 0 <= i < |sensitiveKeys|
      ensures Matches(NormalizeKey(key), NormalizeKey(sensitiveKeys[i])) <==>
              EndsIn(KeyWords(key), KeyWords(sensitiveKeys[i]))
    {
      MatchesIffKeyWordsEnd(key, sensitiveKeys[i]);
    }
  }

  /** Every key that normalizes to the snake case of `words` has these words. */
  lemma WordsOfSpelling(key: string, words: seq<string>)
    requires Words(words) && NormalizeKey(key) == Snake(words)
    ensures KeyWords(key) == words
  {
    hide NormalizeKey, Split;
    NormalizedIsSnakeCase(key);
    SplitJoins(NormalizeKey(key));
    if words != [] {
      SnakeHead(words);
      SnakeInjective(KeyWords(key), words);
    }
  }

  // ----- redaction -----

  datatype Json =
    | Null
    | Bool(b: bool)
    | Number(n: int)
    | Str(s: string)
    | Array(items: seq<Json>)
    | Object(fields: map<string, Json>)

  const REDACTED: Json := Str("[redacted]")

  function Redact(value: Json, sensitiveKeys: seq<string>): Json {
    match value
    case Object(fields) =>
      Object(map k | k in fields ::
        if IsSensitive(k, sensitiveKeys) then REDACTED else Redact(fields[k], sensitiveKeys))
    case Array(items) => Array(seq(|items|, i requires 0 <= i < |items| => Redact(items[i], sensitiveKeys)))
    case _ => value
  }

  datatype Selector = Key(key: string) | Index(index: nat)

  /** The value a path leads to. */
  function At(value: Json, path: seq<Selector>): Option<Json> {
    if path == [] then Some(value)
    else
      match (value, path[0])
      case (Object(fields), Key(k)) => if k in fields then At(fields[k], path[1..]) else None
      case (Array(items), Index(i)) => if i < |items| then At(items[i], path[1..]) else None
      case _ => None
  }

  predicate SensitivePath(path: seq<Selector>, sensitiveKeys: seq<string>) {
    exists i :: 0 <= i < |path| && path[i].Key? && IsSensitive(path[i].key, sensitiveKeys)
  }

  /** Away from sensitive keys, whatever a path leads to is the redaction of what it led to before. */
  lemma {:induction false} ElsewhereUnchanged(value: Json, path: seq<Selector>, sensitiveKeys: seq<string>)
    requires !SensitivePath(path, sensitiveKeys)
    ensures At(Redact(value, sensitiveKeys), path)
         == match At(value, path) case None => None case Some(v) => Some(Redact(v, sensitiveKeys))
  {
    if path != [] {
      assert forall i :: 0 <= i < |path| - 1 ==> path[1..][i] == path[i + 1];
      assert !SensitivePath(path[1..], sensitiveKeys);
      match (value, path[0]) {
        case (Object(fields), Key(k)) => if k in fields { ElsewhereUnchanged(fields[k], path[1..], sensitiveKeys); }
        case (Array(items), Index(i)) => if i < |items| { ElsewhereUnchanged(items[i], path[1..], sensitiveKeys); }
        case _ =>
      }
    }
  }

  /** Along a path without sensitive keys, scalars are found unchanged, arrays with as many items and
      objects with the same keys, and nothing is found where nothing was. */
  lemma InsensitiveSurvives(value: Json, path: seq<Selector>, sensitiveKeys: seq<string>)
    requires !SensitivePath(path, sensitiveKeys)
    ensures var after := At(Redact(value, sensitiveKeys), path);
      match At(value, path)
      case None => after == None
      case Some(Array(items)) => after.Some? && after.value.Array? && |after.value.items| == |items|
      case Some(Object(fields)) => after.Some? && after.value.Object? && after.value.fields.Keys == fields.Keys
      case Some(scalar) => after == Some(scalar)
  {
    ElsewhereUnchanged(value, path, sensitiveKeys);
    hide IsSensitive;
    match At(value, path)
    case Some(Object(fields)) => assert Redact(Object(fields), sensitiveKeys).fields.Keys == fields.Keys;
    case _ =>
  }

  /** At every depth, a sensitive key that was there is there still, and its value is the marker. */
  lemma SensitiveIsReplaced(value: Json, path: seq<Selector>, key: string, sensitiveKeys: seq<string>)
    requires !SensitivePath(path, sensitiveKeys) && IsSensitive(key, sensitiveKeys)
    ensures At(Redact(value, sensitiveKeys), path + [Key(key)])
         == if At(value, path + [Key(key)]).Some? then Some(Str("[redacted]")) else None
  {
    ElsewhereUnchanged(value, path, sensitiveKeys);
    AtAppend(value, path, Key(key));
    AtAppend(Redact(value, sensitiveKeys), path, Key(key));
  }

  lemma {:induction false} AtAppend(value: Json, path: seq<Selector>, last: Selector)
    ensures At(value, path + [last]) == match At(value, path) case None => None case Some(v) => At(v, [last])
  {
    if path == [] {
      assert path + [last] == [last];
    } else {
      assert (path + [last])[1..] == path[1..] + [last];
      match (value, path[0]) {
        case (Object(fields), Key(k)) => if k in fields { AtAppend(fields[k], path[1..], last); }
        case (Array(items), Index(i)) => if i < |items| { AtAppend(items[i], path[1..], last); }
        case _ =>
      }
    }
  }

  lemma {:induction false} RedactIdempotent(value: Json, sensitiveKeys: seq<string>)
    ensures Redact(Redact(value, sensitiveKeys), sensitiveKeys) == Redact(value, sensitiveKeys)
  {
    var once := Redact(value, sensitiveKeys);
    match value
    case Object(fields) =>
      forall k | k in fields
        ensures Redact(Redact(fields[k], sensitiveKeys), sensitiveKeys) == Redact(fields[k], sensitiveKeys)
      {
        RedactIdempotent(fields[k], sensitiveKeys);
      }
      assert Redact(once, sensitiveKeys).fields == once.fields;
    case Array(items) =>
      forall i | 0 <= i < |items|
        ensures Redact(Redact(items[i], sensitiveKeys), sensitiveKeys) == Redact(items[i], sensitiveKeys)
      {
        RedactIdempotent(items[i], sensitiveKeys);
      }
      assert Redact(once, sensitiveKeys).items == once.items;
    case _ =>
  }
}
