/** Decimal digit strings, as produced by Java's `Integer.toString` and `BigInteger.toString`
    on non-negative values, and their inverse. */
module Digits {

  predicate IsDigit(c: char) {
    '0' <= c <= '9'
  }

  predicate AllDigits(s: string) {
    forall i :: 0 <= i < |s| ==> IsDigit(s[i])
  }

  function DigitChar(d: nat): (c: char)
    requires d < 10
    ensures IsDigit(c)
  {
    ('0' as int + d) as char
  }

  function DigitValue(c: char): (d: nat)
    requires IsDigit(c)
    ensures d < 10 && DigitChar(d) == c
  {
    c as int - '0' as int
  }

  function Pow10(k: nat): (p: nat)
    ensures p >= 1
  {
    if k == 0 then 1 else 10 * Pow10(k - 1)
  }

  /** `k` copies of '0'. */
  function Zeros(k: nat): (s: string)
    ensures |s| == k && AllDigits(s)
    ensures forall i :: 0 <= i < k ==> s[i] == '0'
  {
    if k == 0 then "" else "0" + Zeros(k - 1)
  }

  /** The shortest decimal representation of `n` (no sign, no leading zeros). */
  function NatToString(n: nat): (s: string)
    ensures |s| >= 1 && AllDigits(s)
    ensures s[0] == '0' <==> n == 0
    ensures |s| == 1 <==> n < 10
  {
    if n < 10 then [DigitChar(n)] else NatToString(n / 10) + [DigitChar(n % 10)]
  }

  /** The value of a digit string, read most significant digit first. */
  function StringToNat(s: string): nat
    requires AllDigits(s)
  {
    if s == [] then 0 else 10 * StringToNat(s[..|s| - 1]) + DigitValue(s[|s| - 1])
  }

  lemma {:induction false} StringToNatOfNatToString(n: nat)
    ensures StringToNat(NatToString(n)) == n
  {
    var s := NatToString(n);
    if n >= 10 {
      StringToNatOfNatToString(n / 10);
      assert s[..|s| - 1] == NatToString(n / 10);
    }
  }

  /** Reading a concatenation shifts the first part by the length of the second. */
  lemma {:induction false} StringToNatConcat(a: string, b: string)
    requires AllDigits(a) && AllDigits(b)
    ensures AllDigits(a + b)
    ensures StringToNat(a + b) == StringToNat(a) * Pow10(|b|) + StringToNat(b)
  {
    if b == [] {
      assert a + b == a;
    } else {
      var ab := a + b;
      var b' := b[..|b| - 1];
      assert ab[..|ab| - 1] == a + b';
      assert ab[|ab| - 1] == b[|b| - 1];
      StringToNatConcat(a, b');
      var d := DigitValue(b[|b| - 1]);
      calc {
        StringToNat(ab);
        10 * StringToNat(a + b') + d;
        10 * (StringToNat(a) * Pow10(|b'|) + StringToNat(b')) + d;
        { MulAssoc(StringToNat(a), Pow10(|b'|)); }
        StringToNat(a) * Pow10(|b|) + (10 * StringToNat(b') + d);
      }
    }
  }

  lemma MulAssoc(x: nat, p: nat)
    ensures 10 * (x * p) == x * (10 * p)
  {
  }

  lemma {:induction false} StringToNatZeros(k: nat)
    ensures StringToNat(Zeros(k)) == 0
  {
    if k > 0 {
      var z := Zeros(k);
      assert z[..k - 1] == Zeros(k - 1);
      StringToNatZeros(k - 1);
    }
  }

  /** Leading zeros do not change the value read. */
  lemma StringToNatLeadingZeros(k: nat, b: string)
    requires AllDigits(b)
    ensures AllDigits(Zeros(k) + b) && StringToNat(Zeros(k) + b) == StringToNat(b)
  {
    StringToNatConcat(Zeros(k), b);
    StringToNatZeros(k);
  }

  /** Two shortest representations that agree are representations of the same number. */
  lemma NatToStringInjective(m: nat, n: nat)
    requires NatToString(m) == NatToString(n)
    ensures m == n
  {
    StringToNatOfNatToString(m);
    StringToNatOfNatToString(n);
  }

  /** A digit string followed by a non-digit: the non-digit marks where the digits end. */
  lemma DigitsThenStop(a: string, b: string, x: string, y: string, stop: char)
    requires AllDigits(a) && AllDigits(b) && !IsDigit(stop)
    requires a + [stop] + x == b + [stop] + y
    ensures a == b && x == y
  {
    var s := a + [stop] + x;
    StopAfterDigits(a, stop, x);
    StopAfterDigits(b, stop, y);
    assert |a| == |b|;
    assert a == s[..|a|] == b;
    assert x == s[|a| + 1..] == y;
  }

  /** In a digit string followed by a non-digit, the first non-digit is that one. */
  lemma StopAfterDigits(a: string, stop: char, x: string)
    requires AllDigits(a) && !IsDigit(stop)
    ensures (a + [stop] + x)[|a|] == stop
    ensures forall k :: 0 <= k < |a| ==> (a + [stop] + x)[k] != stop
  {
  }

  /** The decimal form of any `int`, with a leading '-' for negative values (`Integer.toString`). */
  function IntToString(i: int): (s: string)
    ensures i >= 0 ==> s == NatToString(i)
    ensures i < 0 ==> s == "-" + NatToString(-i)
  {
    if i < 0 then "-" + NatToString(-i) else NatToString(i)
  }
}
