/** Decimal rendering of non-negative integers, as JavaScript's `String(n)`
    and template literals `${n}` print a non-negative integral number, and
    the parse that undoes it. */
module Decimal {

  /** The ASCII digit of a value below ten. */
  function DigitChar(d: nat): (c: char)
    requires d < 10
    ensures '0' <= c <= '9'
  {
    (('0' as int) + d) as char
  }

  predicate IsDigit(c: char) {
    '0' <= c <= '9'
  }

  /** True iff `s` is a non-empty string of ASCII digits. */
  predicate IsDigits(s: string) {
    |s| > 0 && forall i :: 0 <= i < |s| ==> IsDigit(s[i])
  }

  function DigitValue(c: char): (d: nat)
    requires IsDigit(c)
    ensures d < 10
  {
    (c as int) - ('0' as int)
  }

  /** A canonical decimal numeral: digits only, and no leading zero unless
      the numeral is `0` itself. */
  predicate IsDecimal(s: string) {
    IsDigits(s) && (s[0] == '0' ==> |s| == 1)
  }

  /** `n` printed in base ten, most significant digit first, no leading zero. */
  function NatToString(n: nat): (s: string)
    ensures IsDigits(s)
    ensures s[0] == '0' <==> n == 0
    ensures |s| == 1 <==> n < 10
    ensures IsDecimal(s)
    decreases n
  {
    if n < 10 then [DigitChar(n)] else NatToString(n / 10) + [DigitChar(n % 10)]
  }

  /** The value of a string of decimal digits. */
  function ParseNat(s: string): (n: nat)
    requires IsDigits(s)
    decreases |s|
  {
    if |s| == 1 then DigitValue(s[0])
    else ParseNat(s[..|s| - 1]) * 10 + DigitValue(s[|s| - 1])
  }

  lemma DigitRoundTrip(d: nat)
    requires d < 10
    ensures DigitValue(DigitChar(d)) == d
  {
  }

  /** Parsing the printed number gives the number back, so printing is injective. */
  lemma {:induction false} ParsePrinted(n: nat)
    ensures ParseNat(NatToString(n)) == n
    decreases n
  {
    if n < 10 {
      DigitRoundTrip(n);
    } else {
      var s := NatToString(n);
      var prefix := NatToString(n / 10);
      assert s[..|s| - 1] == prefix;
      DigitRoundTrip(n % 10);
      ParsePrinted(n / 10);
    }
  }

  lemma DigitCharOfValue(c: char)
    requires IsDigit(c)
    ensures DigitChar(DigitValue(c)) == c
  {
  }

  /** Digits that do not start with `0` denote a positive number. */
  lemma {:induction false} ParsePositive(s: string)
    requires IsDigits(s) && s[0] != '0'
    ensures ParseNat(s) > 0
    decreases |s|
  {
    if |s| > 1 {
      ParsePositive(s[..|s| - 1]);
    }
  }

  /** Printing a number of two or more digits is printing its leading part
      followed by its last digit. */
  lemma PrintAppend(m: nat, d: nat)
    requires m >= 1 && d < 10
    ensures NatToString(m * 10 + d) == NatToString(m) + [DigitChar(d)]
  {
    var n := m * 10 + d;
    assert n / 10 == m && n % 10 == d;
  }

  /** Every canonical numeral is the printing of its own value, so a number
      has exactly one canonical numeral and it is the one `NatToString`
      prints. */
  lemma {:induction false} CanonicalIsPrinted(s: string)
    requires IsDecimal(s)
    ensures NatToString(ParseNat(s)) == s
    decreases |s|
  {
    if |s| == 1 {
      DigitCharOfValue(s[0]);
      assert NatToString(ParseNat(s)) == [s[0]];
    } else {
      var prefix := s[..|s| - 1];
      var last := s[|s| - 1];
      assert IsDecimal(prefix) by {
        assert prefix[0] == s[0];
        assert forall j :: 0 <= j < |prefix| ==> prefix[j] == s[j];
      }
      CanonicalIsPrinted(prefix);
      ParsePositive(prefix);
      var m := ParseNat(prefix);
      var d := DigitValue(last);
      assert ParseNat(s) == m * 10 + d;
      PrintAppend(m, d);
      DigitCharOfValue(last);
      assert NatToString(ParseNat(s)) == prefix + [last];
      assert prefix + [last] == s;
    }
  }

  lemma PrintedInjective(a: nat, b: nat)
    requires NatToString(a) == NatToString(b)
    ensures a == b
  {
    ParsePrinted(a);
    ParsePrinted(b);
  }
}
