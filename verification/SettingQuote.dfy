// Quoting a setting value as a PostgreSQL escape string, and reading one back.
module SettingQuote {
  import opened Wrappers

  datatype QuoteError = InvalidSettingValue

  /** `str::replace` of one character. */
  function Replace(s: string, c: char, with: string): string {
    if s == "" then "" else (if s[0] == c then with else [s[0]]) + Replace(s[1..], c, with)
  }

  function QuoteSettingValue(value: string): Result<string, QuoteError> {
    if '\0' in value then Err(InvalidSettingValue)
    else
      var escaped := Replace(Replace(value, '\\', "\\\\"), '\'', "''");
      Ok("E'" + escaped + "'")
  }

  // ----- reading an escape string: section 4.1.2.2 of the PostgreSQL documentation -----

  /** The character a backslash and `c` stand for. Octal, hexadecimal and Unicode escapes are not read. */
  function EscapedChar(c: char): Option<char> {
    match c
    case 'b' => Some('\U{0008}')
    case 'f' => Some('\U{000C}')
    case 'n' => Some('\n')
    case 'r' => Some('\r')
    case 't' => Some('\t')
    case 'x' => None
    case 'u' => None
    case 'U' => None
    case _ => if '0' <= c <= '7' then None else Some(c)
  }

  function Behind(c: char, read: Option<(string, string)>): Option<(string, string)> {
    match read
    case None => None
    case Some((value, rest)) => Some(([c] + value, rest))
  }

  /** The value of the literal whose opening quote has been read, and what follows its closing quote. */
  function ReadBody(s: string): (r: Option<(string, string)>)
  {
    if s == "" then None
    else if s[0] == '\'' then
      if |s| > 1 && s[1] == '\'' then Behind('\'', ReadBody(s[2..])) else Some(("", s[1..]))
    else if s[0] == '\\' then
      if |s| == 1 || EscapedChar(s[1]).None? then None else Behind(EscapedChar(s[1]).value, ReadBody(s[2..]))
    else Behind(s[0], ReadBody(s[1..]))
  }

  function ReadLiteral(s: string): Option<(string, string)> {
    if |s| >= 2 && s[0] == 'E' && s[1] == '\'' then ReadBody(s[2..]) else None
  }

  // ----- round trip -----

  function EscapeChar(c: char): string {
    if c == '\\' then "\\\\" else if c == '\'' then "''" else [c]
  }

  /** Both replacements at once. */
  function Escape(value: string): string {
    if value == "" then ""
    else EscapeChar(value[0]) + Escape(value[1..])
  }

  lemma {:induction false} ReplaceAppend(a: string, b: string, c: char, with: string)
    ensures Replace(a + b, c, with) == Replace(a, c, with) + Replace(b, c, with)
  {
    if a == "" {
      assert a + b == b;
    } else {
      assert (a + b)[1..] == a[1..] + b;
      ReplaceAppend(a[1..], b, c, with);
    }
  }

  /** The second replacement does not touch what the first one wrote. */
  lemma {:induction false} ReplacementsFuse(value: string)
    ensures Replace(Replace(value, '\\', "\\\\"), '\'', "''") == Escape(value)
  {
    if value != "" {
      var head := if value[0] == '\\' then "\\\\" else [value[0]];
      ReplacementsFuse(value[1..]);
      ReplaceAppend(head, Replace(value[1..], '\\', "\\\\"), '\'', "''");
      assert Replace("\\\\", '\'', "''") == "\\\\" by {
        assert "\\\\"[1..] == "\\";
        assert Replace("\\", '\'', "''") == "\\";
      }
      assert value[0] != '\\' ==> Replace(head, '\'', "''") == if value[0] == '\'' then "''" else head;
    }
  }

  /** The reading of a closing quote and `suffix`, with `value` put in front of it. */
  function Prepend(value: string, read: Option<(string, string)>): Option<(string, string)> {
    match read
    case None => None
    case Some((tail, rest)) => Some((value + tail, rest))
  }

  lemma {:induction false} ReadsEscaped(value: string, tail: string)
    ensures ReadBody(Escape(value) + tail) == Prepend(value, ReadBody(tail))
  {
    hide ReadBody, EscapeChar;
    var s := Escape(value) + tail;
    if value == "" {
      assert s == tail;
      if ReadBody(tail).Some? { assert "" + ReadBody(tail).value.0 == ReadBody(tail).value.0; }
    } else {
      var rest := Escape(value[1..]) + tail;
      ReadsEscaped(value[1..], tail);
      ReadsOne(value[0], rest);
      assert s == EscapeChar(value[0]) + rest;
      if ReadBody(tail).Some? {
        assert [value[0]] + (value[1..] + ReadBody(tail).value.0) == value + ReadBody(tail).value.0;
      }
    }
  }

  lemma ReadsOne(c: char, rest: string)
    ensures ReadBody(EscapeChar(c) + rest) == Behind(c, ReadBody(rest))
  {
    var s := EscapeChar(c) + rest;
    assert c == '\\' || c == '\'' ==> s[2..] == rest;
    assert c != '\\' && c != '\'' ==> s[1..] == rest;
  }

  /** Reading a quoted value gives the value back and stops at the suffix, exactly when the suffix does not
      itself begin with a quote, which would double the closing one. Only values with NUL are refused. */
  lemma QuoteReadsBackIff(value: string, suffix: string)
    ensures QuoteSettingValue(value).Err? <==> '\0' in value
    ensures '\0' !in value ==>
              (ReadLiteral(QuoteSettingValue(value).value + suffix) == Some((value, suffix)) <==>
               (suffix == "" || suffix[0] != '\''))
  {
    if '\0' !in value {
      var closing := "'" + suffix;
      var quoted := QuoteSettingValue(value).value + suffix;
      ReplacementsFuse(value);
      assert quoted == "E'" + Escape(value) + "'" + suffix;
      assert quoted[2..] == Escape(value) + closing;
      ReadsEscaped(value, closing);
      assert closing[1..] == suffix;
      assert value + "" == value;
      if suffix != "" && suffix[0] == '\'' && ReadBody(closing).Some? {
        assert |ReadBody(closing).value.0| > 0;
      }
    }
  }
}
