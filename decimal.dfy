/**
 * Decimal rendering of integers, as Python's `str(int)` and f-string
 * interpolation produce it. The page uses it for the group names
 * (`f"A{i}"`) and for the cancellation labels (`... | Table {n}`).
 */
module Decimal {

  predicate IsDigit(c: char) {
    '0' <= c <= '9'
  }

  predicate AllDigits(s: string) {
    forall i :: 0 <= i < |s| ==> IsDigit(s[i])
  }

  function DigitChar(d: nat): (c: char)
    requires d < 10
    ensures IsDigit(c) && c as int - '0' as int == d
  {
    ('0' as int + d) as char
  }

  /** The decimal digits of `n`, most significant first, without leading zeros. */
  function NatToString(n: nat): (s: string)
    ensures |s| >= 1 && AllDigits(s)
    ensures (|s| == 1) == (n < 10)
    decreases n
  {
    if n < 10 then [DigitChar(n)] else NatToString(n / 10) + [DigitChar(n % 10)]
  }

  /** `str(n)` for any Python int: a minus sign in front of the magnitude of a negative number. */
  function IntToString(n: int): (s: string)
    ensures IsNumeral(s)
    ensures (s[0] == '-') == (n < 0)
    ensures ParseInt(s) == n
  {
    if n < 0 then
      ParseNatToString(-n);
      var s := "-" + NatToString(-n);
      assert s[1..] == NatToString(-n);
      s
    else
      ParseNatToString(n);
      NatToString(n)
  }

  /** An optional minus sign followed by at least one digit: what `int(s)` accepts without spaces or `+`. */
  predicate IsNumeral(s: string) {
    |s| >= 1 && (if s[0] == '-' then |s| >= 2 && AllDigits(s[1..]) else AllDigits(s))
  }

  /** Reads a numeral back as an int. */
  function ParseInt(s: string): int
    requires IsNumeral(s)
  {
    if s[0] == '-' then -(ParseDigits(s[1..]) as int) else ParseDigits(s)
  }

  /** Reads a string of digits back as a number: the inverse of NatToString. */
  function ParseDigits(s: string): nat
    requires AllDigits(s)
  {
    if s == [] then 0
    else ParseDigits(s[..|s| - 1]) * 10 + (s[|s| - 1] as int - '0' as int)
  }

  /** Round trip: the digits NatToString writes read back as the number written. */
  lemma {:induction false} ParseNatToString(n: nat)
    ensures ParseDigits(NatToString(n)) == n
    decreases n
  {
    var s := NatToString(n);
    if n >= 10 {
      ParseNatToString(n / 10);
      assert s[..|s| - 1] == NatToString(n / 10);
    }
  }

  /** Different numbers are written differently. */
  lemma NatToStringInjective(a: nat, b: nat)
    requires NatToString(a) == NatToString(b)
    ensures a == b
  {
    ParseNatToString(a);
    ParseNatToString(b);
  }

  /** Different Python ints are written differently (sign included). */
  lemma IntToStringInjective(a: int, b: int)
    requires IntToString(a) == IntToString(b)
    ensures a == b
  {
  }
}
