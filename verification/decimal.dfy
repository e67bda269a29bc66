/** Decimal rendering of non-negative integers, as `${n}` and `n.toString()` do
    for the millisecond timestamps and page numbers of the blog. */
module Decimal {
  import opened Text

  function DigitChar(d: nat): (c: char)
    requires d < 10
    ensures IsAsciiDigit(c)
  {
    ('0' as int + d) as char
  }

  function DigitValue(c: char): (d: nat)
    requires IsAsciiDigit(c)
    ensures d < 10 && DigitChar(d) == c
  {
    c as int - '0' as int
  }

  /** Decimal digits of `n`, most significant first, without leading zeros. */
  function NatToString(n: nat): (r: string)
    ensures |r| >= 1 && AllDigits(r)
    ensures |r| > 1 ==> r[0] != '0'
    decreases n
  {
    if n < 10 then [DigitChar(n)] else NatToString(n / 10) + [DigitChar(n % 10)]
  }

  /** The number a string of decimal digits denotes. */
  function StringToNat(s: string): nat
    requires AllDigits(s)
  {
    if |s| == 0 then 0 else 10 * StringToNat(s[..|s| - 1]) + DigitValue(s[|s| - 1])
  }

  /** Reading back a rendered number gives the number. */
  lemma {:induction false} NatToStringRoundTrip(n: nat)
    ensures StringToNat(NatToString(n)) == n
    decreases n
  {
    var r := NatToString(n);
    if n >= 10 {
      NatToStringRoundTrip(n / 10);
      assert r[..|r| - 1] == NatToString(n / 10);
    }
  }

  /** Distinct numbers render as distinct strings. */
  lemma NatToStringInjective(m: nat, n: nat)
    requires NatToString(m) == NatToString(n)
    ensures m == n
  {
    NatToStringRoundTrip(m);
    NatToStringRoundTrip(n);
  }

  /** Every number from 10^9 up renders with at least ten digits: the lower
      bound of the timestamp pattern `\d{10,}`. */
  lemma TenDigits(n: nat)
    requires n >= 1000000000
    ensures |NatToString(n)| >= 10
  {
    assert Pow10(9) == 1000000000;
    AtLeastDigits(n, 10);
  }

  /** `n >= 10^(d-1)` renders with at least `d` digits. */
  lemma {:induction false} AtLeastDigits(n: nat, d: nat)
    requires d >= 1 && n >= Pow10(d - 1)
    ensures |NatToString(n)| >= d
    decreases d
  {
    if d > 1 {
      assert n >= 10;
      assert n / 10 >= Pow10(d - 2);
      AtLeastDigits(n / 10, d - 1);
    }
  }

  function Pow10(k: nat): (p: nat)
    ensures p >= 1
  {
    if k == 0 then 1 else 10 * Pow10(k - 1)
  }
}
