/** Numbers in base 10, read by `strconv.ParseInt` and printed. */
module Decimals {
  import opened Options
  import opened Integers
  import opened Text

  predicate IsDigit(c: char) { '0' <= c <= '9' }

  predicate AllDigits(s: string) {
    s != "" && forall i :: 0 <= i < |s| ==> IsDigit(s[i])
  }

  function DigitsValue(s: string): int
    requires forall i :: 0 <= i < |s| ==> IsDigit(s[i])
  {
    if s == "" then 0
    else
      assert IsDigit(s[|s| - 1]);
      10 * DigitsValue(s[..|s| - 1]) + (s[|s| - 1] - '0') as int
  }

  /** `strconv.ParseInt` in base 10, for 64 bits. */
  function ParseInt64(s: string): Option<Int64> {
    var negative := s != "" && s[0] == '-';
    var digits := if s != "" && (s[0] == '-' || s[0] == '+') then s[1..] else s;
    if !AllDigits(digits) then None
    else
      var n := if negative then -DigitsValue(digits) else DigitsValue(digits);
      if -0x8000_0000_0000_0000 <= n < 0x8000_0000_0000_0000 then Some(n) else None
  }

  /** A number in decimal, without leading zeros. */
  function Decimal(n: nat): (s: string)
    ensures AllDigits(s)
  {
    (if n < 10 then "" else Decimal(n / 10)) + [DigitFor(n % 10)]
  }

  function DigitFor(n: nat): (c: char)
    requires n < 10
    ensures IsDigit(c) && (c - '0') as int == n
  {
    '0' + n as char
  }

  lemma DigitsPush(s: string, c: char)
    requires IsDigit(c) && forall i :: 0 <= i < |s| ==> IsDigit(s[i])
    ensures AllDigits(s + [c]) && DigitsValue(s + [c]) == 10 * DigitsValue(s) + (c - '0') as int
  {
    assert (s + [c])[..|s|] == s;
  }

  lemma {:induction false} DecimalValue(n: nat)
    ensures DigitsValue(Decimal(n)) == n
  {
    if n < 10 {
      DigitsPush("", DigitFor(n % 10));
    } else {
      DecimalValue(n / 10);
      DigitsPush(Decimal(n / 10), DigitFor(n % 10));
    }
  }

  lemma DecimalTrimmed(n: nat)
    ensures Trimmed(Decimal(n)) && Trimmed("-" + Decimal(n))
  {
    var s := Decimal(n);
    assert IsDigit(s[0]) && IsDigit(s[|s| - 1]);
    assert ("-" + s)[|s|] == s[|s| - 1];
  }

  lemma ParseDigits(s: string, negative: bool)
    requires AllDigits(s)
    ensures var r := ParseInt64(if negative then "-" + s else s);
      var n := if negative then -DigitsValue(s) else DigitsValue(s);
      && (r.Some? <==> -0x8000_0000_0000_0000 <= n < 0x8000_0000_0000_0000) && (r.Some? ==> r.value == n)
    ensures ParseInt64("+" + s) == ParseInt64(s)
  {
    assert IsDigit(s[0]);
    assert ("+" + s)[1..] == s && ("-" + s)[1..] == s;
  }

  /** Which printed numbers are read back, with a sign or without: those that 64 bits hold. */
  lemma ParsePrinted(n: nat)
    ensures n <= MAX_INT64 ==> ParseInt64(Decimal(n)) == Some(n)
    ensures n > MAX_INT64 ==> ParseInt64(Decimal(n)) == None
    ensures ParseInt64("+" + Decimal(n)) == ParseInt64(Decimal(n))
    ensures var r := ParseInt64("-" + Decimal(n)); (r.Some? <==> n <= MAX_INT64 + 1) && (r.Some? ==> r.value == 0 - n)
  {
    DecimalValue(n);
    ParseDigits(Decimal(n), false);
    ParseDigits(Decimal(n), true);
  }
}
