/**
 Decimal numerals as the formatting and parsing code uses them.

 `ToString` is `to_string`, `Padded` the zero-padded form `{:0w}`, and `ParseUnsigned`
 is `parse` for an unsigned type, which also accepts a leading plus sign and leading
 zeros. Numerals of the same length are ordered as their values are.
 */
module Decimal {
  import opened Common
  import opened Ordering

  const U64_MAX := 0xFFFF_FFFF_FFFF_FFFF
  const U8_MAX := 255

  predicate IsDigit(c: char) { '0' <= c <= '9' }

  predicate AllDigits(s: string) { forall i :: 0 <= i < |s| ==> IsDigit(s[i]) }

  function DigitChar(d: nat): (c: char)
    requires d < 10
  {
    '0' + d as char
  }

  function DigitOf(c: char): nat
    requires IsDigit(c)
  {
    (c - '0') as nat
  }

  function Value(s: string): nat
    requires AllDigits(s)
  {
    if s == "" then 0 else 10 * Value(s[..|s| - 1]) + DigitOf(s[|s| - 1])
  }

  function ToString(n: nat): (s: string)
    ensures AllDigits(s) && s != ""
  {
    if n < 10 then [DigitChar(n)] else ToString(n / 10) + [DigitChar(n % 10)]
  }

  /** `{:0w}`: at least `width` characters, filled with zeros on the left. */
  function Padded(n: nat, width: nat): (s: string)
    ensures AllDigits(s) && s != ""
    ensures |s| >= width
  {
    Zeros(width - |ToString(n)|) + ToString(n)
  }

  function Zeros(k: int): (s: string)
    ensures |s| == if k < 0 then 0 else k
    ensures forall i :: 0 <= i < |s| ==> s[i] == '0'
  {
    if k <= 0 then "" else ['0'] + Zeros(k - 1)
  }

  /** `str::parse` for an unsigned type whose greatest value is `max`. */
  function ParseUnsigned(s: string, max: nat): Option<nat> {
    var digits := if s != "" && s[0] == '+' then s[1..] else s;
    if digits == "" || !AllDigits(digits) || Value(digits) > max then None else Some(Value(digits))
  }

  lemma {:induction false} ValueOfToString(n: nat)
    ensures Value(ToString(n)) == n
  {
    if n >= 10 {
      ValueOfToString(n / 10);
      assert ToString(n)[..|ToString(n)| - 1] == ToString(n / 10);
    }
  }

  lemma {:induction false} LeadingZeros(k: int, s: string)
    requires AllDigits(s)
    ensures AllDigits(Zeros(k) + s) && Value(Zeros(k) + s) == Value(s)
  {
    if s != "" {
      LeadingZeros(k, s[..|s| - 1]);
      assert (Zeros(k) + s)[..|Zeros(k) + s| - 1] == Zeros(k) + s[..|s| - 1];
    } else {
      assert Zeros(k) + s == Zeros(k);
      ZeroValue(Zeros(k));
    }
  }

  lemma {:induction false} ZeroValue(z: string)
    requires forall i :: 0 <= i < |z| ==> z[i] == '0'
    ensures Value(z) == 0
  {
    if z != "" {
      ZeroValue(z[..|z| - 1]);
    }
  }

  lemma ValueOfPadded(n: nat, width: nat)
    ensures Value(Padded(n, width)) == n
  {
    ValueOfToString(n);
    LeadingZeros(width - |ToString(n)|, ToString(n));
  }

  lemma {:induction false} FirstDigit(n: nat)
    ensures n > 0 ==> ToString(n)[0] != '0'
    ensures n == 0 ==> ToString(n) == "0"
  {
    if n >= 10 {
      FirstDigit(n / 10);
    }
  }

  /** A numeral longer than the width it is padded to has no leading zero. */
  lemma PaddedFirst(n: nat, width: nat)
    requires width >= 1
    ensures |Padded(n, width)| > width ==> Padded(n, width)[0] != '0'
  {
    FirstDigit(n);
  }

  /** Printing then parsing is the identity, with or without padding. */
  lemma ParsePrinted(n: nat, max: nat, width: nat)
    requires n <= max
    ensures ParseUnsigned(ToString(n), max) == Some(n)
    ensures ParseUnsigned(Padded(n, width), max) == Some(n)
  {
    ValueOfToString(n);
    ParseDigits(ToString(n), max);
    ValueOfPadded(n, width);
    ParseDigits(Padded(n, width), max);
  }

  lemma ParseDigits(s: string, max: nat)
    requires AllDigits(s) && s != "" && Value(s) <= max
    ensures ParseUnsigned(s, max) == Some(Value(s))
  {
    assert IsDigit(s[0]);
  }

  function Pow10(k: nat): nat { if k == 0 then 1 else 10 * Pow10(k - 1) }

  lemma {:induction false} ToStringLength(n: nat, k: nat)
    requires k >= 1 && n < Pow10(k)
    ensures |ToString(n)| <= k
  {
    if n >= 10 {
      assert k >= 2;
      ToStringLength(n / 10, k - 1);
    }
  }

  lemma PaddedLength(n: nat, width: nat)
    requires width >= 1 && n < Pow10(width)
    ensures |Padded(n, width)| == width
  {
    ToStringLength(n, width);
  }

  lemma {:induction false} ValueInjective(a: string, b: string)
    requires |a| == |b| && AllDigits(a) && AllDigits(b) && Value(a) == Value(b)
    ensures a == b
  {
    if a != "" {
      var n := |a| - 1;
      ValueInjective(a[..n], b[..n]);
      assert a == a[..n] + [a[n]] && b == b[..n] + [b[n]];
    }
  }

  /** Comparing sequences whose first parts have the same length. */
  lemma {:induction false} LexAppend(a: string, b: string, u: string, v: string)
    requires |a| == |b|
    ensures StringLeq(a + u, b + v) <==> if a == b then StringLeq(u, v) else StringLeq(a, b)
  {
    if a == "" {
      assert a + u == u && b + v == v;
    } else {
      assert a == [a[0]] + a[1..] && b == [b[0]] + b[1..];
      assert (a + u)[1..] == a[1..] + u && (b + v)[1..] == b[1..] + v;
      if a[0] == b[0] {
        LexAppend(a[1..], b[1..], u, v);
      }
    }
  }

  lemma SingletonOrder(x: char, y: char)
    ensures StringLeq([x], [y]) <==> x <= y
  {
    var a, b := [x], [y];
    assert a[0] == x && b[0] == y && a[1..] == "" && b[1..] == "";
    assert LexLeq(CharLeq, a, b) <==> if x == y then LexLeq(CharLeq, a[1..], b[1..]) else CharLeq(x, y);
  }

  /** For numerals of the same length, string order is numeric order. */
  lemma {:induction false} NumeralOrder(a: string, b: string)
    requires |a| == |b| && AllDigits(a) && AllDigits(b)
    ensures StringLeq(a, b) <==> Value(a) <= Value(b)
  {
    if a != "" {
      var n := |a| - 1;
      NumeralOrder(a[..n], b[..n]);
      assert a == a[..n] + [a[n]] && b == b[..n] + [b[n]];
      LexAppend(a[..n], b[..n], [a[n]], [b[n]]);
      SingletonOrder(a[n], b[n]);
      if Value(a[..n]) == Value(b[..n]) {
        ValueInjective(a[..n], b[..n]);
      }
    }
  }
}
