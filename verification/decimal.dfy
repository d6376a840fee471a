/**
 The decimal rendering of the status code on the status line
 (`((int)ResponseCode).ToString(CultureInfo.InvariantCulture)`), and the parser that
 reads it back. The invariant culture writes an optional '-' followed by the digits of the
 magnitude, with no leading zeros and no group separators.
 */
module Decimal {
  import opened Wrappers

  /** The range of a C# `int`, the underlying type of the status-code enum. */
  type Int32 = n: int | -0x8000_0000 <= n < 0x8000_0000

  predicate IsDigit(ch: char) {
    '0' <= ch <= '9'
  }

  predicate AllDigits(s: string) {
    forall i :: 0 <= i < |s| ==> IsDigit(s[i])
  }

  function DigitValue(ch: char): (d: nat)
    requires IsDigit(ch)
    ensures d < 10
  {
    ch as int - '0' as int
  }

  function DigitChar(d: nat): (ch: char)
    requires d < 10
    ensures IsDigit(ch) && DigitValue(ch) == d
  {
    ('0' as int + d) as char
  }

  /** Digits of `n`, most significant first, in canonical form: a leading '0' only for zero itself. */
  function FromNat(n: nat): (s: string)
    ensures |s| >= 1 && AllDigits(s)
    ensures s[0] == '0' <==> n == 0
    ensures s[0] == '0' ==> |s| == 1
    decreases n
  {
    if n < 10 then [DigitChar(n)] else FromNat(n / 10) + [DigitChar(n % 10)]
  }

  /** The invariant-culture text of an integer: '-' and the magnitude when negative. */
  function FromInt(n: int): (s: string)
    ensures |s| >= 1
    ensures s[0] == '-' <==> n < 0
    ensures forall i :: 0 <= i < |s| ==> IsDigit(s[i]) || (i == 0 && s[i] == '-')
    ensures var magnitude := if n < 0 then s[1..] else s;
      |magnitude| >= 1 && (magnitude[0] == '0' ==> n == 0 && |magnitude| == 1)
  {
    if n < 0 then "-" + FromNat(-n) else FromNat(n)
  }

  /** The number a string of digits denotes (most significant digit first). */
  function ValueOf(s: string): nat
    requires AllDigits(s)
    decreases |s|
  {
    if s == [] then 0 else ValueOf(s[..|s| - 1]) * 10 + DigitValue(s[|s| - 1])
  }

  /** Reads an optionally signed decimal integer; anything else is rejected. */
  function ParseInt(s: string): Option<int> {
    if |s| >= 2 && s[0] == '-' && AllDigits(s[1..]) then Some(0 - ValueOf(s[1..]) as int)
    else if |s| >= 1 && AllDigits(s) then Some(ValueOf(s))
    else None
  }

  /** Reading back the digits of `n` yields `n`. */
  lemma {:induction false} NatRoundTrip(n: nat)
    ensures ValueOf(FromNat(n)) == n
    decreases n
  {
    if n >= 10 {
      var prefix := FromNat(n / 10);
      var s := FromNat(n);
      assert s == prefix + [DigitChar(n % 10)];
      assert s[..|s| - 1] == prefix;
      NatRoundTrip(n / 10);
    }
  }

  /** The status-code text parses back to the code it was written from. */
  lemma IntRoundTrip(n: int)
    ensures ParseInt(FromInt(n)) == Some(n)
  {
    if n < 0 {
      var s := FromInt(n);
      assert s[1..] == FromNat(-n);
      NatRoundTrip(-n);
    } else {
      NatRoundTrip(n);
    }
  }

  /** Distinct codes are rendered as distinct texts. */
  lemma FromIntInjective(m: int, n: int)
    requires FromInt(m) == FromInt(n)
    ensures m == n
  {
    IntRoundTrip(m);
    IntRoundTrip(n);
  }
}
