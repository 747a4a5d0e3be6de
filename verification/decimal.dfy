/**
 * Decimal rendering and reading of integers: Python's `str(n)` and
 * `format(n, '0<w>d')` for the index and timestamp fields of an SRT file,
 * and the inverse used to read them back.
 */
module Decimal {
  import opened Wrappers

  predicate IsDigit(c: char) {
    '0' <= c <= '9'
  }

  predicate AllDigits(s: string) {
    forall i :: 0 <= i < |s| ==> IsDigit(s[i])
  }

  function DigitChar(d: nat): (c: char)
    requires d < 10
    ensures IsDigit(c) && DigitValue(c) == d
  {
    ('0' as int + d) as char
  }

  function DigitValue(c: char): (d: nat)
    requires IsDigit(c)
    ensures d < 10
  {
    c as int - '0' as int
  }

  function Pow10(k: nat): (p: nat)
    ensures p >= 1
  {
    if k == 0 then 1 else 10 * Pow10(k - 1)
  }

  /**
   * Python's `str(n)` for `n >= 0`: the decimal digits denoting `n`, with no
   * leading zero unless `n` is zero itself.
   */
  function NatToDigits(n: nat): (s: string)
    ensures 1 <= |s| && AllDigits(s)
    ensures DigitsValue(s) == n
    ensures n > 0 ==> s[0] != '0'
    decreases n
  {
    if n < 10 then [DigitChar(n)]
    else
      var init := NatToDigits(n / 10);
      DigitsValueSnoc(init, DigitChar(n % 10));
      init + [DigitChar(n % 10)]
  }

  /** The number a string of decimal digits denotes (leading zeros allowed). */
  function DigitsValue(s: string): nat
    requires AllDigits(s)
    decreases |s|
  {
    if s == [] then 0 else 10 * DigitsValue(s[..|s| - 1]) + DigitValue(s[|s| - 1])
  }

  function Zeros(k: nat): (z: string)
    ensures |z| == k && AllDigits(z)
    ensures forall i :: 0 <= i < k ==> z[i] == '0'
  {
    seq(k, _ => '0')
  }

  /** Left-pads a digit string with '0' up to `width` characters; longer strings are kept whole. */
  function ZeroPad(s: string, width: nat): (r: string)
    requires AllDigits(s)
    ensures AllDigits(r)
    ensures |r| == if |s| >= width then |s| else width
    ensures DigitsValue(r) == DigitsValue(s)
  {
    LeadingZerosValue(if |s| >= width then 0 else width - |s|, s);
    if |s| >= width then s else Zeros(width - |s|) + s
  }

  /**
   * Python's `format(n, '0<width>d')`: zero padding to `width` characters,
   * counting the sign of a negative number; never truncates.
   */
  function PadInt(n: int, width: nat): (r: string)
    ensures n >= 0 ==> AllDigits(r) && DigitsValue(r) == n
    ensures n >= 0 ==> |r| == if |NatToDigits(n)| >= width then |NatToDigits(n)| else width
    ensures n < 0 ==> 2 <= |r| && r[0] == '-' && AllDigits(r[1..]) && DigitsValue(r[1..]) == -n
    ensures n < 0 ==> |r| == if |NatToDigits(-n)| + 1 >= width then |NatToDigits(-n)| + 1 else width
  {
    if n >= 0 then ZeroPad(NatToDigits(n), width)
    else ['-'] + ZeroPad(NatToDigits(-n), if width == 0 then 0 else width - 1)
  }

  /** Reads an optionally negative decimal integer; the inverse of `PadInt`. */
  function ParseInt(s: string): (r: Option<int>)
    ensures r.Some? ==> 1 <= |s|
  {
    if 2 <= |s| && s[0] == '-' && AllDigits(s[1..]) then Some(0 - DigitsValue(s[1..]) as int)
    else if 1 <= |s| && AllDigits(s) then Some(DigitsValue(s))
    else None
  }

  lemma {:induction false} DigitsValueSnoc(s: string, c: char)
    requires AllDigits(s) && IsDigit(c)
    ensures AllDigits(s + [c]) && DigitsValue(s + [c]) == 10 * DigitsValue(s) + DigitValue(c)
  {
    assert (s + [c])[..|s|] == s;
  }

  /** Leading zeros do not change the value of a digit string. */
  lemma {:induction false} LeadingZerosValue(k: nat, s: string)
    requires AllDigits(s)
    ensures AllDigits(Zeros(k) + s) && DigitsValue(Zeros(k) + s) == DigitsValue(s)
    decreases |s|
  {
    if s == [] {
      assert Zeros(k) + s == Zeros(k);
      ZerosValue(k);
    } else {
      var init := s[..|s| - 1];
      LeadingZerosValue(k, init);
      assert (Zeros(k) + s)[..|Zeros(k) + s| - 1] == Zeros(k) + init;
    }
  }

  lemma {:induction false} ZerosValue(k: nat)
    ensures DigitsValue(Zeros(k)) == 0
  {
    if k > 0 {
      assert Zeros(k)[..k - 1] == Zeros(k - 1);
      ZerosValue(k - 1);
    }
  }

  /** A number below 10^k has at most k digits. */
  lemma {:induction false} DigitsLength(n: nat, k: nat)
    requires 1 <= k && n < Pow10(k)
    ensures |NatToDigits(n)| <= k
    decreases n
  {
    if n >= 10 {
      DigitsLength(n / 10, k - 1);
    }
  }

  /** `PadInt` is inverted by `ParseInt`, for every integer and width. */
  lemma PadIntRoundTrip(n: int, width: nat)
    ensures ParseInt(PadInt(n, width)) == Some(n)
  {
    var r := PadInt(n, width);
    if n >= 0 {
      assert !(2 <= |r| && r[0] == '-');
    }
  }

  /** `format(n, '02d')` for `n` below 100 is its tens digit then its units digit. */
  lemma PadTwo(n: int)
    requires 0 <= n < 100
    ensures PadInt(n, 2) == [DigitChar(n / 10), DigitChar(n % 10)]
  {
    hide DigitsValue;
    if n < 10 {
      assert Zeros(1) == [DigitChar(0)];
    } else {
      assert NatToDigits(n) == NatToDigits(n / 10) + [DigitChar(n % 10)];
    }
  }

  /** `format(n, '03d')` for `n` below 1000 is its hundreds, tens and units digits. */
  lemma PadThree(n: int)
    requires 0 <= n < 1000
    ensures PadInt(n, 3) == [DigitChar(n / 100), DigitChar(n / 10 % 10), DigitChar(n % 10)]
  {
    hide DigitsValue;
    if n < 10 {
      assert Zeros(2) == [DigitChar(0), DigitChar(0)];
    } else if n < 100 {
      assert NatToDigits(n) == [DigitChar(n / 10), DigitChar(n % 10)];
      assert Zeros(1) == [DigitChar(0)];
    } else {
      var q := n / 10;
      assert q / 10 == n / 100;
      assert NatToDigits(q) == [DigitChar(q / 10), DigitChar(q % 10)];
      assert NatToDigits(n) == NatToDigits(q) + [DigitChar(n % 10)];
    }
  }
}
