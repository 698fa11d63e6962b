// Decimal printing and parsing of integers, as `to_string` and `parse` do it.
module Decimal {
  import opened Wrappers

  type I64 = i: int | -0x8000_0000_0000_0000 <= i < 0x8000_0000_0000_0000
  type U64 = n: nat | n < 0x1_0000_0000_0000_0000

  predicate IsDigit(c: char) {
    '0' <= c <= '9'
  }

  predicate AllDigits(s: string) {
    forall c :: c in s ==> IsDigit(c)
  }

  function NatToString(n: nat): (r: string)
    ensures r != "" && AllDigits(r)
  {
    var last := [('0' as int + n % 10) as char];
    if n < 10 then last else NatToString(n / 10) + last
  }

  function Negate(i: int): int {
    -i
  }

  function Magnitude(i: int): nat {
    if i < 0 then -i else i
  }

  function IntToString(i: int): string {
    if i < 0 then "-" + NatToString(Magnitude(i)) else NatToString(i)
  }

  function ParseDigits(s: string): Option<nat> {
    if s == "" || !IsDigit(s[|s| - 1]) then None
    else
      var digit := s[|s| - 1] as int - '0' as int;
      if |s| == 1 then Some(digit)
      else
        match ParseDigits(s[..|s| - 1])
        case None => None
        case Some(high) => Some(10 * high + digit)
  }

  /** `str::parse::<i64>`: an optional sign, at least one digit, and the range of the type. */
  function ParseI64(s: string): Option<I64> {
    var negative := s != "" && s[0] == '-';
    var digits := if s != "" && (s[0] == '-' || s[0] == '+') then s[1..] else s;
    match ParseDigits(digits)
    case None => None
    case Some(n) =>
      var value: int := if negative then Negate(n) else n;
      if -0x8000_0000_0000_0000 <= value < 0x8000_0000_0000_0000 then Some(value) else None
  }

  /** `str::parse::<u64>`: an optional plus sign, at least one digit, and the range of the type. */
  function ParseU64(s: string): Option<U64> {
    match ParseDigits(if s != "" && s[0] == '+' then s[1..] else s)
    case None => None
    case Some(n) => if n < 0x1_0000_0000_0000_0000 then Some(n) else None
  }

  lemma {:induction false} ParsePrinted(n: nat)
    ensures ParseDigits(NatToString(n)) == Some(n)
  {
    var s := NatToString(n);
    if n >= 10 {
      ParsePrinted(n / 10);
      assert s[..|s| - 1] == NatToString(n / 10);
    }
  }

  lemma ParsePrintedI64(i: I64)
    ensures ParseI64(IntToString(i)) == Some(i)
  {
    var magnitude := Magnitude(i);
    ParsePrinted(magnitude);
    var digits := NatToString(magnitude);
    assert digits[0] in digits;
    if i < 0 { assert ("-" + digits)[1..] == digits; }
  }

  lemma ParsePrintedU64(n: U64)
    ensures ParseU64(NatToString(n)) == Some(n)
  {
    ParsePrinted(n);
    assert NatToString(n)[0] in NatToString(n);
  }

  lemma NatToStringInjective(m: nat, n: nat)
    requires NatToString(m) == NatToString(n)
    ensures m == n
  {
    ParsePrinted(m);
    ParsePrinted(n);
  }

  lemma IntToStringInjective(i: int, j: int)
    requires IntToString(i) == IntToString(j)
    ensures i == j
  {
    var a, b := NatToString(Magnitude(i)), NatToString(Magnitude(j));
    assert a[0] in a && b[0] in b;
    assert i < 0 ==> IntToString(i)[1..] == a;
    assert j < 0 ==> IntToString(j)[1..] == b;
    NatToStringInjective(Magnitude(i), Magnitude(j));
  }

  // ----- what a decimal text says -----

  function Pow10(n: nat): nat {
    if n == 0 then 1 else 10 * Pow10(n - 1)
  }

  /** The digits weighted by their places. */
  function Places(s: string): int {
    if s == "" then 0 else (s[0] as int - '0' as int) * Pow10(|s| - 1) + Places(s[1..])
  }

  predicate Digits(s: string) {
    s != "" && forall i :: 0 <= i < |s| ==> '0' <= s[i] <= '9'
  }

  lemma {:induction false} PlacesSnoc(s: string, c: char)
    ensures Places(s + [c]) == 10 * Places(s) + (c as int - '0' as int)
  {
    if s == "" {
      assert Places([c]) == (c as int - '0' as int) * Pow10(0) + Places([c][1..]);
    } else {
      assert (s + [c])[1..] == s[1..] + [c];
      PlacesSnoc(s[1..], c);
      var d := s[0] as int - '0' as int;
      assert d * (10 * Pow10(|s| - 1)) == 10 * (d * Pow10(|s| - 1));
    }
  }

  /** Exactly the non-empty runs of digits are read, each as the number it writes in base ten. */
  lemma {:induction false} ParseDigitsIff(s: string, n: nat)
    ensures ParseDigits(s) == Some(n) <==> Digits(s) && Places(s) == n
  {
    if s != "" && IsDigit(s[|s| - 1]) {
      var (front, last) := (s[..|s| - 1], s[|s| - 1]);
      assert s == front + [last];
      PlacesSnoc(front, last);
      if front == "" {
        assert Places("") == 0;
      } else {
        if Digits(front) {
          PlacesOfDigits(front);
          ParseDigitsIff(front, Places(front));
        }
        if ParseDigits(front).Some? { ParseDigitsIff(front, ParseDigits(front).value); }
        assert Digits(s) <==> Digits(front);
      }
    }
  }

  lemma {:induction false} PlacesOfDigits(s: string)
    requires forall i :: 0 <= i < |s| ==> '0' <= s[i] <= '9'
    ensures Places(s) >= 0
  {
    if s != "" {
      PlacesOfDigits(s[1..]);
      assert (s[0] as int - '0' as int) * Pow10(|s| - 1) >= 0;
    }
  }

  /** Signed numbers are digits behind at most one sign. */
  lemma ParseI64Iff(s: string, i: I64)
    ensures ParseI64(s) == Some(i) <==>
            || (Digits(s) && Places(s) == i)
            || (s != "" && s[0] == '+' && Digits(s[1..]) && Places(s[1..]) == i)
            || (s != "" && s[0] == '-' && Digits(s[1..]) && Places(s[1..]) + i == 0)
  {
    var digits := if s != "" && (s[0] == '-' || s[0] == '+') then s[1..] else s;
    if Digits(digits) {
      PlacesOfDigits(digits);
      ParseDigitsIff(digits, Places(digits));
    }
    if ParseDigits(digits).Some? {
      ParseDigitsIff(digits, ParseDigits(digits).value);
    }
  }

  /** Unsigned numbers are digits behind at most a plus sign. */
  lemma ParseU64Iff(s: string, n: U64)
    ensures ParseU64(s) == Some(n) <==>
            || (Digits(s) && Places(s) == n)
            || (s != "" && s[0] == '+' && Digits(s[1..]) && Places(s[1..]) == n)
  {
    ParseDigitsIff(if s != "" && s[0] == '+' then s[1..] else s, n);
  }

  /** Numbers are printed as digits that write them, without leading zeros. */
  lemma {:induction false} PrintedDigits(n: nat)
    ensures Digits(NatToString(n)) && Places(NatToString(n)) == n
    ensures |NatToString(n)| > 1 ==> NatToString(n)[0] != '0'
  {
    ParsePrinted(n);
    ParseDigitsIff(NatToString(n), n);
    if n >= 10 {
      PrintedDigits(n / 10);
      if |NatToString(n / 10)| == 1 {
        assert Places(NatToString(n / 10)) == (NatToString(n / 10)[0] as int - '0' as int) * Pow10(0) + 0;
      }
    }
  }

  /** Zero and positive numbers are printed as their digits, negative ones with a minus sign in front. */
  lemma PrintedInteger(i: int)
    ensures i >= 0 ==> Digits(IntToString(i)) && Places(IntToString(i)) == i
    ensures i < 0 ==>
              var s := IntToString(i);
              s != "" && s[0] == '-' && Digits(s[1..]) && Places(s[1..]) + i == 0 && s[1] != '0'
  {
    PrintedDigits(Magnitude(i));
    var digits := NatToString(Magnitude(i));
    if i < 0 {
      assert ("-" + digits)[1..] == digits;
      if |digits| == 1 { assert Places(digits) == (digits[0] as int - '0' as int) * Pow10(0) + Places(digits[1..]); }
    }
  }
}
