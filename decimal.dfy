/**
 * Decimal text as the C++ library writes and reads it: std::to_string for the numbers the
 * server prints (status codes, Content-length values) and std::stoi for the Content-Length
 * header it reads back.
 */
module Decimal {
  import opened Wrappers
  import opened Faults

  const INT_MIN: int := -0x8000_0000
  const INT_MAX: int := 0x7fff_ffff

  predicate IsDigit(c: char) {
    '0' <= c <= '9'
  }

  predicate AllDigits(s: string) {
    forall i :: 0 <= i < |s| ==> IsDigit(s[i])
  }

  /** The whitespace that strtol skips in the "C" locale (isspace). */
  predicate IsSpace(c: char) {
    c == ' ' || c == '\t' || c == '\n' || c == '\U{B}' || c == '\U{C}' || c == '\r'
  }

  function DigitChar(d: nat): (c: char)
    requires d < 10
    ensures IsDigit(c) && c as int - '0' as int == d
  {
    ('0' as int + d) as char
  }

  /** The value of a run of decimal digits, most significant first. */
  function DigitsValue(s: string): nat
    requires AllDigits(s)
  {
    if s == [] then 0 else 10 * DigitsValue(s[..|s| - 1]) + (s[|s| - 1] as int - '0' as int)
  }

  /** std::to_string of a non-negative number. */
  function NatToString(n: nat): (s: string)
    ensures |s| > 0 && AllDigits(s)
  {
    if n < 10 then [DigitChar(n)] else NatToString(n / 10) + [DigitChar(n % 10)]
  }

  /** std::to_string of an int. */
  function IntToString(i: int): (s: string)
    ensures |s| > 0
    ensures i >= 0 ==> s == NatToString(i)
    ensures i < 0 ==> s == "-" + NatToString(-i)
  {
    if i < 0 then "-" + NatToString(-i) else NatToString(i)
  }

  /** Reading back what NatToString writes gives the number again. */
  lemma {:induction false} NatToStringValue(n: nat)
    ensures DigitsValue(NatToString(n)) == n
  {
    if n >= 10 {
      var s := NatToString(n);
      assert s[..|s| - 1] == NatToString(n / 10);
      NatToStringValue(n / 10);
    }
  }

  /** A number's text never starts with a zero unless the number is zero. */
  lemma {:induction false} NatToStringNoLeadingZero(n: nat)
    ensures NatToString(n)[0] == '0' <==> n == 0
  {
    if n >= 10 {
      NatToStringNoLeadingZero(n / 10);
      assert NatToString(n)[0] == NatToString(n / 10)[0];
    }
  }

  /** Distinct numbers are printed differently. */
  lemma NatToStringInjective(m: nat, n: nat)
    requires NatToString(m) == NatToString(n)
    ensures m == n
  {
    NatToStringValue(m);
    NatToStringValue(n);
  }

  function SkipSpace(s: string): (t: string)
    ensures |t| <= |s| && t == s[|s| - |t|..]
    ensures t == [] || !IsSpace(t[0])
  {
    if s != [] && IsSpace(s[0]) then SkipSpace(s[1..]) else s
  }

  /** The longest prefix of s made of decimal digits. */
  function LeadingDigits(s: string): (d: string)
    ensures AllDigits(d) && d <= s
    ensures |d| < |s| ==> !IsDigit(s[|d|])
  {
    if s != [] && IsDigit(s[0]) then [s[0]] + LeadingDigits(s[1..]) else []
  }

  /**
   * std::stoi(s): strtol in base 10 (leading whitespace, an optional sign, the longest run
   * of digits, anything after it ignored); std::invalid_argument when there is no digit,
   * std::out_of_range when the value does not fit in an int.
   */
  function Stoi(s: string): (r: Result<int, Fault>)
    ensures r.Success? ==> INT_MIN <= r.value <= INT_MAX
  {
    var t := SkipSpace(s);
    var signed := t != [] && (t[0] == '-' || t[0] == '+');
    var u := if signed then t[1..] else t;
    var d := LeadingDigits(u);
    if d == [] then Failure(StoiInvalidArgument)
    else
      var v: int := if signed && t[0] == '-' then -(DigitsValue(d) as int) else DigitsValue(d);
      if v < INT_MIN || v > INT_MAX then Failure(StoiOutOfRange) else Success(v)
  }

  lemma {:induction false} LeadingDigitsOfDigits(s: string)
    requires AllDigits(s)
    ensures LeadingDigits(s) == s
  {
    if s != [] {
      LeadingDigitsOfDigits(s[1..]);
    }
  }

  /** What std::to_string prints, std::stoi reads back. */
  lemma StoiOfNatToString(n: nat)
    requires n <= INT_MAX
    ensures Stoi(NatToString(n)) == Success(n)
  {
    var s := NatToString(n);
    assert SkipSpace(s) == s;
    LeadingDigitsOfDigits(s);
    NatToStringValue(n);
  }

  /** A value with no digit at its start (after blanks and a sign) makes std::stoi throw. */
  lemma StoiRejectsNonNumeric(s: string)
    requires s != [] && !IsDigit(s[0]) && !IsSpace(s[0]) && s[0] != '-' && s[0] != '+'
    ensures Stoi(s) == Failure(StoiInvalidArgument)
  {
  }

  /** std::stoi stops at the first byte after the digits: "12abc" reads as 12. */
  lemma StoiStopsAtNonDigit(n: nat, rest: string)
    requires n <= INT_MAX
    requires rest == [] || !IsDigit(rest[0])
    ensures Stoi(NatToString(n) + rest) == Success(n)
  {
    var s := NatToString(n);
    assert SkipSpace(s + rest) == s + rest;
    LeadingDigitsOfDigits(s);
    LeadingDigitsAppend(s, rest);
    NatToStringValue(n);
  }

  lemma {:induction false} LeadingDigitsAppend(s: string, rest: string)
    requires AllDigits(s)
    requires rest == [] || !IsDigit(rest[0])
    ensures LeadingDigits(s + rest) == s
  {
    if s == [] {
      assert s + rest == rest;
    } else {
      assert (s + rest)[1..] == s[1..] + rest;
      LeadingDigitsAppend(s[1..], rest);
    }
  }
}
