/** Decimal text of integers: std::to_string and the digit reading that
    std::stoul does. */
module Decimal {

  /** The decimal digits of n, most significant first. */
  function Digits(n: nat): (s: string)
    ensures |s| > 0 && forall i :: 0 <= i < |s| ==> '0' <= s[i] <= '9'
    decreases n
  {
    if n < 10 then [Digit(n)] else Digits(n / 10) + [Digit(n % 10)]
  }

  function Digit(d: nat): (c: char)
    requires d < 10
    ensures '0' <= c <= '9'
  {
    "0123456789"[d]
  }

  /** std::to_string on an integer: an optional '-' then the digits. */
  function IntToString(n: int): (s: string)
  {
    if n < 0 then "-" + Digits(-n) else Digits(n)
  }

  /** Reads a string of decimal digits back as a number. */
  function ParseDigits(s: string): nat
    requires forall i :: 0 <= i < |s| ==> '0' <= s[i] <= '9'
  {
    if s == [] then 0 else ParseDigits(s[..|s| - 1]) * 10 + (s[|s| - 1] as int - '0' as int)
  }

  /** An optional '-' followed by at least one decimal digit. */
  predicate Numeral(s: string) {
    |s| > 0 && (s[0] == '-' ==> |s| > 1) &&
    (forall i :: 0 < i < |s| ==> '0' <= s[i] <= '9') && (s[0] == '-' || '0' <= s[0] <= '9')
  }

  function ParseInt(s: string): int
    requires Numeral(s)
  {
    if s[0] == '-' then var d: int := ParseDigits(s[1..]); -d else ParseDigits(s)
  }

  /** Printed digits read back as the number. */
  lemma {:induction false} DigitsRoundTrip(n: nat)
    ensures ParseDigits(Digits(n)) == n
    decreases n
  {
    if n >= 10 {
      DigitsRoundTrip(n / 10);
      var s := Digits(n);
      assert s[..|s| - 1] == Digits(n / 10);
    }
  }

  /** to_string round-trips through the parser. */
  lemma IntToStringRoundTrip(n: int)
    ensures Numeral(IntToString(n)) && ParseInt(IntToString(n)) == n
  {
    if n < 0 {
      var m: nat := -n;
      assert IntToString(n) == "-" + Digits(m);
      NegativeRoundTrip(m);
    } else {
      var m: nat := n;
      assert IntToString(n) == Digits(m);
      NonNegativeRoundTrip(m);
    }
  }

  /** The digits of m read back as m. */
  lemma NonNegativeRoundTrip(m: nat)
    ensures Numeral(Digits(m)) && ParseInt(Digits(m)) == m
  {
    var d := Digits(m);
    assert d[0] != '-';
    DigitsRoundTrip(m);
  }

  /** A minus sign and the digits of m read back as -m. */
  lemma NegativeRoundTrip(m: nat)
    ensures Numeral("-" + Digits(m)) && ParseInt("-" + Digits(m)) == -(m as int)
  {
    var d := Digits(m);
    var s := "-" + d;
    assert s[1..] == d;
    assert forall i :: 0 < i < |s| ==> s[i] == d[i - 1];
    DigitsRoundTrip(m);
  }
}
