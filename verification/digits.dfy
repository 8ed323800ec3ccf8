/** Decimal digit strings: reading them as numbers and writing numbers zero-padded. */
module Digits {

  predicate IsDigit(c: char)
  {
    '0' <= c <= '9'
  }

  predicate AllDigits(s: string)
  {
    forall i :: 0 <= i < |s| ==> IsDigit(s[i])
  }

  function DigitValue(c: char): (d: nat)
    requires IsDigit(c)
    ensures d < 10
  {
    c as int - '0' as int
  }

  function DigitChar(d: nat): (c: char)
    requires d < 10
    ensures IsDigit(c) && DigitValue(c) == d
  {
    ('0' as int + d) as char
  }

  function Pow10(n: nat): (p: nat)
    ensures 1 <= p
  {
    if n == 0 then 1 else 10 * Pow10(n - 1)
  }

  /** The number a digit string denotes, leading zeros allowed. */
  function Decimal(s: string): (n: nat)
    requires AllDigits(s)
    ensures n < Pow10(|s|)
  {
    if |s| == 0 then 0 else Decimal(s[..|s| - 1]) * 10 + DigitValue(s[|s| - 1])
  }

  /** `n` written with exactly `width` digits, zero-padded on the left (as `%02d`, `%04d`). */
  function Pad(n: nat, width: nat): (r: string)
    ensures |r| == width && AllDigits(r)
    ensures n < Pow10(width) ==> Decimal(r) == n
  {
    if width == 0 then ""
    else
      var r := Pad(n / 10, width - 1) + [DigitChar(n % 10)];
      assert r[..|r| - 1] == Pad(n / 10, width - 1);
      r
  }

  /** Writing back the number a digit string denotes, at the same width, gives the string. */
  lemma {:induction false} PadDecimal(s: string)
    requires AllDigits(s)
    ensures Pad(Decimal(s), |s|) == s
  {
    if |s| > 0 {
      var init := s[..|s| - 1];
      var last := s[|s| - 1];
      PadDecimal(init);
      var a, d := Decimal(init), DigitValue(last);
      assert Decimal(s) == a * 10 + d;
      ShiftDigit(a, d);
      assert Pad(a * 10 + d, |s|) == Pad(a, |s| - 1) + [DigitChar(d)];
      assert DigitChar(d) == last;
      assert s == init + [last];
    }
  }

  /** Appending digit `d` to `a` and dropping it again, by division and remainder. */
  lemma ShiftDigit(a: nat, d: nat)
    requires d < 10
    ensures (a * 10 + d) / 10 == a && (a * 10 + d) % 10 == d
  {
  }

  /** Two-digit padding spelled out: tens digit, then units digit. */
  lemma PadTwo(n: nat)
    requires n < 100
    ensures Pad(n, 2) == [DigitChar(n / 10), DigitChar(n % 10)]
  {
    assert Pad(n / 10, 1) == Pad(n / 10 / 10, 0) + [DigitChar(n / 10 % 10)];
  }

  /** Four-digit padding is the two-digit padding of the hundreds followed by the last two digits. */
  lemma PadFour(n: nat)
    ensures Pad(n, 4) == Pad(n / 10 / 10, 2) + [DigitChar(n / 10 % 10), DigitChar(n % 10)]
  {
    assert Pad(n / 10, 3) == Pad(n / 10 / 10, 2) + [DigitChar(n / 10 % 10)];
  }
}
