/** Decimal numerals as Python renders integers: `str(n)` for a counter and
    `format(v, "0w")` (the `{v:0w}` field of an f-string) for a zero-padded
    clock field, together with the parsers that read such numerals back. */
module Decimal {

  import opened Wrappers

  predicate IsDigit(c: char) {
    '0' <= c <= '9'
  }

  predicate AllDigits(s: string) {
    forall i :: 0 <= i < |s| ==> IsDigit(s[i])
  }

  function DigitChar(d: nat): (c: char)
    requires d < 10
    ensures IsDigit(c)
  {
    ('0' as int + d) as char
  }

  function DigitValue(c: char): (d: nat)
    requires IsDigit(c)
    ensures d < 10
  {
    c as int - '0' as int
  }

  function Pow10(k: nat): (p: nat)
    ensures p >= 1
  {
    if k == 0 then 1 else 10 * Pow10(k - 1)
  }

  /** `str(n)` for a non-negative integer: the shortest numeral, so it starts
      with '0' exactly when it is the numeral of zero. */
  function NatToString(n: nat): (r: string)
    ensures 1 <= |r|
    ensures AllDigits(r)
    ensures (r[0] == '0') == (n == 0)
    decreases n
  {
    if n < 10 then [DigitChar(n)] else NatToString(n / 10) + [DigitChar(n % 10)]
  }

  /** The value of a numeral, leading zeros allowed. */
  function ParseDigits(s: string): nat
    requires AllDigits(s)
  {
    if |s| == 0 then 0 else 10 * ParseDigits(s[..|s| - 1]) + DigitValue(s[|s| - 1])
  }

  /** A run of `k` zero characters. */
  function Zeros(k: nat): (z: string)
    ensures |z| == k
    ensures forall i :: 0 <= i < k ==> z[i] == '0'
  {
    seq(k, _ => '0')
  }

  /** Left-pads `s` with '0' up to `width` characters; a minimum width, never a cap. */
  function PadLeft(s: string, width: int): (r: string)
    ensures |r| == if |s| >= width then |s| else width
    ensures r[|r| - |s|..] == s
    ensures forall i :: 0 <= i < |r| - |s| ==> r[i] == '0'
  {
    if |s| >= width then s else Zeros(width - |s|) + s
  }

  function Abs(v: int): nat {
    if v < 0 then -v else v
  }

  /** Python's `format(v, "0" + str(width))`: sign-aware zero padding, so the
      sign counts towards the width and the zeros go between sign and digits.
      The digits of `v` always survive whole, and the width is a minimum. */
  function FormatInt(v: int, width: int): string {
    if v >= 0 then PadLeft(NatToString(v), width)
    else "-" + PadLeft(NatToString(-v), width - 1)
  }

  /** The width is a minimum, never a cap: every digit of `v` survives at
      the end of the rendering, and the sign is printed exactly for negatives. */
  lemma FormatIntKeepsDigits(v: int, width: int)
    ensures |FormatInt(v, width)| >= width
    ensures EndsWith(FormatInt(v, width), NatToString(Abs(v)))
    ensures (FormatInt(v, width)[0] == '-') == (v < 0)
  {
    if v >= 0 {
      NonNegativeKeepsDigits(v, width);
    } else {
      NegativeKeepsDigits(v, width);
    }
  }

  lemma NonNegativeKeepsDigits(v: nat, width: int)
    ensures FormatInt(v, width) == PadLeft(NatToString(v), width)
    ensures FormatInt(v, width)[0] != '-'
  {
    var d := NatToString(v);
    assert FormatInt(v, width) == PadLeft(d, width);
    ParsePadded(v, width);
  }

  lemma NegativeKeepsDigits(v: int, width: int)
    requires v < 0
    ensures |FormatInt(v, width)| >= width
    ensures EndsWith(FormatInt(v, width), NatToString(-v))
    ensures FormatInt(v, width)[0] == '-'
  {
    NegativeFormat(v, width);
    SignedPaddedShape(-v, width - 1);
  }

  /** A minus sign before a padded numeral: one wider than the padding, the
      numeral still at the end, and the sign in front. */
  lemma SignedPaddedShape(n: nat, width: int)
    ensures |"-" + PadLeft(NatToString(n), width)| >= width + 1
    ensures EndsWith("-" + PadLeft(NatToString(n), width), NatToString(n))
    ensures ("-" + PadLeft(NatToString(n), width))[0] == '-'
  {
    EndsWithAppend("-", PadLeft(NatToString(n), width), NatToString(n));
  }

  /** A negative value renders as a minus sign before its padded magnitude. */
  lemma NegativeFormat(v: int, width: int)
    requires v < 0
    ensures FormatInt(v, width) == "-" + PadLeft(NatToString(-v), width - 1)
  {
  }

  /** Reads back an unsigned numeral of at least one digit. */
  function ParseNumeral(s: string): Option<nat> {
    if |s| > 0 && AllDigits(s) then Some(ParseDigits(s)) else None
  }

  /** Reads back an optionally signed numeral such as FormatInt produces. */
  function ParseInt(s: string): Option<int> {
    if |s| > 0 && s[0] == '-' then
      match ParseNumeral(s[1..])
      case Some(n) => Some(0 - n)
      case None => None
    else
      match ParseNumeral(s)
      case Some(n) => Some(n as int)
      case None => None
  }

  lemma {:induction false} ParseNatToString(n: nat)
    ensures ParseDigits(NatToString(n)) == n
    decreases n
  {
    if n >= 10 {
      var r := NatToString(n);
      assert r[..|r| - 1] == NatToString(n / 10);
      ParseNatToString(n / 10);
    }
  }

  /** A numeral has at most `k` digits exactly when the number is below 10^k. */
  lemma {:induction false} NatToStringLength(n: nat, k: nat)
    requires k >= 1
    ensures |NatToString(n)| <= k <==> n < Pow10(k)
    decreases n
  {
    if n >= 10 {
      if k == 1 {
        assert |NatToString(n)| == |NatToString(n / 10)| + 1;
      } else {
        NatToStringLength(n / 10, k - 1);
        assert n / 10 < Pow10(k - 1) <==> n < 10 * Pow10(k - 1);
      }
    } else {
      assert Pow10(k) >= 10 by { Pow10Grows(k); }
    }
  }

  lemma {:induction false} Pow10Grows(k: nat)
    requires k >= 1
    ensures Pow10(k) >= 10
  {
    if k > 1 {
      Pow10Grows(k - 1);
    }
  }

  /** Leading zeros do not change a numeral's value. */
  lemma {:induction false} ParseZerosPrefix(k: nat, s: string)
    requires AllDigits(s)
    ensures AllDigits(Zeros(k) + s)
    ensures ParseDigits(Zeros(k) + s) == ParseDigits(s)
    decreases |s|
  {
    var t := Zeros(k) + s;
    if |s| == 0 {
      ParseZeros(k);
      assert t == Zeros(k);
    } else {
      assert t[..|t| - 1] == Zeros(k) + s[..|s| - 1];
      ParseZerosPrefix(k, s[..|s| - 1]);
    }
  }

  lemma {:induction false} ParseZeros(k: nat)
    ensures AllDigits(Zeros(k))
    ensures ParseDigits(Zeros(k)) == 0
    decreases k
  {
    if k > 0 {
      assert Zeros(k)[..k - 1] == Zeros(k - 1);
      ParseZeros(k - 1);
    }
  }

  /** Zero-padding round-trips: the padded numeral reads back as the value. */
  lemma ParsePadded(n: nat, width: int)
    ensures AllDigits(PadLeft(NatToString(n), width))
    ensures ParseDigits(PadLeft(NatToString(n), width)) == n
  {
    var s := NatToString(n);
    ParseNatToString(n);
    if |s| < width {
      ParseZerosPrefix(width - |s|, s);
    }
  }

  /** An unsigned numeral reads back as its value. */
  lemma ParseUnsigned(p: string, n: nat)
    requires |p| > 0 && AllDigits(p) && ParseDigits(p) == n
    ensures ParseInt(p) == Some(n)
  {
    assert p[0] != '-';
  }

  /** A minus sign before a numeral negates its value. */
  lemma ParseSigned(p: string, n: nat)
    requires |p| > 0 && AllDigits(p) && ParseDigits(p) == n
    ensures ParseInt("-" + p) == Some(-(n as int))
  {
    assert ("-" + p)[1..] == p;
  }

  /** A non-negative rendering reads back as its value. */
  lemma FormatNonNegativeRoundTrip(v: nat, width: int)
    ensures ParseInt(FormatInt(v, width)) == Some(v as int)
  {
    var p := PadLeft(NatToString(v), width);
    assert FormatInt(v, width) == p;
    ParsePadded(v, width);
    ParseUnsigned(p, v);
  }

  /** A negative rendering reads back as its value. */
  lemma FormatNegativeRoundTrip(v: int, width: int)
    requires v < 0
    ensures ParseInt(FormatInt(v, width)) == Some(v)
  {
    var n: nat := -v;
    var d := NatToString(n);
    var p := PadLeft(d, width - 1);
    assert FormatInt(v, width) == "-" + p;
    assert |p| >= |d| >= 1;
    ParsePadded(n, width - 1);
    ParseSigned(p, n);
  }

  /** Every rendering of an integer reads back as that integer. */
  lemma FormatIntRoundTrip(v: int, width: int)
    ensures ParseInt(FormatInt(v, width)) == Some(v)
  {
    if v >= 0 {
      FormatNonNegativeRoundTrip(v, width);
    } else {
      FormatNegativeRoundTrip(v, width);
    }
  }
}
