/** Decimal numerals as the C++ standard library reads and writes them:
    `std::to_string` of an integer, `istream >> long` on a token and the
    truncating `/` and `%` of C++ integers. */
module Decimal {

  predicate IsDigit(c: char) {
    '0' <= c <= '9'
  }

  predicate IsDigits(s: string) {
    forall i :: 0 <= i < |s| ==> IsDigit(s[i])
  }

  /** A non-empty run of decimal digits. */
  predicate IsNumeral(s: string) {
    |s| > 0 && IsDigits(s)
  }

  function DigitValue(c: char): nat
    requires IsDigit(c)
  {
    c as int - '0' as int
  }

  function Digit(d: nat): (c: char)
    requires d < 10
    ensures IsDigit(c) && DigitValue(c) == d
  {
    ('0' as int + d) as char
  }

  /** The value of a digit string read most significant digit first; "" reads as 0. */
  function Value(s: string): nat
    requires IsDigits(s)
    decreases |s|
  {
    if |s| == 0 then 0 else 10 * Value(s[..|s| - 1]) + DigitValue(s[|s| - 1])
  }

  /** `std::to_string` of a non-negative integer: the shortest numeral with value `n`. */
  function NatToString(n: nat): (s: string)
    ensures IsNumeral(s)
    ensures Value(s) == n
    decreases n
  {
    if n < 10 then [Digit(n)]
    else
      var s := NatToString(n / 10) + [Digit(n % 10)];
      assert s[..|s| - 1] == NatToString(n / 10);
      s
  }

  /** The width of `std::to_string(n)`: one digit below 10, two below 100, three or more from
      100 on; and no leading zero. */
  lemma {:induction false} NatToStringWidth(n: nat)
    ensures NatToString(n)[0] == '0' <==> n == 0
    ensures |NatToString(n)| == 1 <==> n < 10
    ensures n < 100 ==> |NatToString(n)| <= 2
    ensures n >= 100 ==> |NatToString(n)| >= 3
    decreases n
  {
    if n >= 10 {
      NatToStringWidth(n / 10);
    }
  }

  /** `std::to_string` of a signed integer: a minus sign before the magnitude. */
  function IntToString(n: int): string {
    if n < 0 then "-" + NatToString(-n) else NatToString(n)
  }

  /** A leading zero does not change the value of a digit string. */
  lemma {:induction false} ValueZeroPad(s: string)
    requires IsDigits(s)
    ensures IsDigits("0" + s) && Value("0" + s) == Value(s)
    decreases |s|
  {
    var z := "0" + s;
    if |s| > 0 {
      assert z[..|z| - 1] == "0" + s[..|s| - 1];
      ValueZeroPad(s[..|s| - 1]);
    }
  }

  /** The longest prefix of `s` made of digits. */
  function DigitPrefix(s: string): (p: string)
    ensures IsDigits(p) && p <= s
    ensures |p| < |s| ==> !IsDigit(s[|p|])
    decreases |s|
  {
    if |s| == 0 || !IsDigit(s[0]) then [] else [s[0]] + DigitPrefix(s[1..])
  }

  /** A numeral followed by a non-digit (or by nothing) has that numeral as its digit prefix. */
  lemma {:induction false} DigitPrefixOfNumeral(ds: string, rest: string)
    requires IsDigits(ds)
    requires |rest| == 0 || !IsDigit(rest[0])
    ensures DigitPrefix(ds + rest) == ds
    decreases |ds|
  {
    if |ds| > 0 {
      assert (ds + rest)[1..] == ds[1..] + rest;
      DigitPrefixOfNumeral(ds[1..], rest);
    }
  }

  /** What `istream >> long` stores when it meets the token `s`: the value of its
      leading digits, and 0 when there are none (the stream's failure value). */
  function LeadingValue(s: string): nat {
    Value(DigitPrefix(s))
  }

  /** `std::stol(s)` succeeds, rather than throwing, on a token that starts with a digit. */
  predicate StartsWithDigit(s: string) {
    |s| > 0 && IsDigit(s[0])
  }

  /** `std::stol(s)` on a token that starts with a digit: its leading digits' value. */
  function Stol(s: string): nat
    requires StartsWithDigit(s)
  {
    LeadingValue(s)
  }

  /** Reading back what `std::to_string` wrote gives the number written. */
  lemma LeadingValueOfNatToString(n: nat)
    ensures StartsWithDigit(NatToString(n)) && LeadingValue(NatToString(n)) == n
  {
    DigitPrefixOfNumeral(NatToString(n), "");
    assert NatToString(n) + "" == NatToString(n);
  }

  /** C++ integer division of `a` by a positive `b`: truncates toward zero. */
  function Quot(a: int, b: int): (q: int)
    requires b > 0
    ensures a >= 0 ==> q == a / b
    ensures a < 0 ==> q <= 0 && b * q >= a && b * q - a < b
  {
    if a >= 0 then a / b else -((-a) / b)
  }

  /** C++ remainder: takes the sign of the dividend, so `Quot(a, b) * b + Rem(a, b) == a`. */
  function Rem(a: int, b: int): (r: int)
    requires b > 0
    ensures a >= 0 ==> r == a % b
    ensures a < 0 ==> -b < r <= 0
    ensures b * Quot(a, b) + r == a
  {
    a - b * Quot(a, b)
  }
}
