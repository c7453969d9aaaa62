/** The textual forms of a decimal: `BigDecimal.toPlainString()` and its reading back. */
module DecimalText {
  import opened Wrappers
  import opened Digits
  import opened Decimal

  /** `BigDecimal.toPlainString()`: never exponent notation; a positive scale always shows exactly
      `scale` digits after the point (trailing zeros included); a negative scale appends zeros. */
  function ToPlainString(d: Dec): string {
    var digits := NatToString(Abs(d.unscaled));
    var sign := if d.unscaled < 0 then "-" else "";
    if d.scale == 0 then sign + digits
    else if d.scale < 0 then (if d.unscaled == 0 then "0" else sign + digits + Zeros(-d.scale))
    else
      var point := |digits| - d.scale;
      if point > 0 then sign + digits[..point] + "." + digits[point..]
      else sign + "0." + Zeros(-point) + digits
  }

  predicate IsPlainChar(c: char) {
    IsDigit(c) || c == '-' || c == '.'
  }

  /** The index of the first '.', or |s| when there is none. */
  function PointIndex(s: string): (k: nat)
    ensures k <= |s|
    ensures k < |s| ==> s[k] == '.'
    ensures forall i :: 0 <= i < k ==> s[i] != '.'
  {
    if s == [] then 0 else if s[0] == '.' then 0 else 1 + PointIndex(s[1..])
  }

  /** Reads a decimal in plain notation the way `new BigDecimal(String)` does: an optional '-',
      digits, and optionally '.' followed by digits; the scale is the number of digits after
      the point. */
  function ParsePlainString(s: string): Option<Dec> {
    if |s| > 0 && s[0] == '-' then
      match ParseUnsigned(s[1..])
      case Some(d) => Some(Dec(-d.unscaled, d.scale))
      case None => None
    else ParseUnsigned(s)
  }

  function ParseUnsigned(s: string): Option<Dec> {
    var k := PointIndex(s);
    var whole, fraction := s[..k], if k < |s| then s[k + 1..] else "";
    if whole == [] || !AllDigits(whole) || !AllDigits(fraction) || (k < |s| && fraction == []) then None
    else
      StringToNatConcat(whole, fraction);
      Some(Dec(StringToNat(whole + fraction), |fraction|))
  }

  lemma {:induction false} PointIndexAfter(a: string, t: string)
    requires forall i :: 0 <= i < |a| ==> a[i] != '.'
    ensures PointIndex(a + t) == |a| + PointIndex(t)
  {
    if a == [] {
      assert a + t == t;
    } else {
      assert (a + t)[0] == a[0];
      assert (a + t)[1..] == a[1..] + t;
      PointIndexAfter(a[1..], t);
    }
  }

  lemma {:induction false} ParseUnsignedDigits(a: string, b: string)
    requires AllDigits(a) && AllDigits(b) && a != [] && b != []
    ensures AllDigits(a + b)
    ensures ParseUnsigned(a + "." + b) == Some(Dec(StringToNat(a + b), |b|))
  {
    var s := a + "." + b;
    PointIndexAfter(a, "." + b);
    assert s == a + ("." + b);
    assert s[..|a|] == a && s[|a| + 1..] == b;
    StringToNatConcat(a, b);
  }

  /** The unsigned part of `ToPlainString(d)` for a non-negative scale. */
  function PlainMagnitude(d: Dec): string
    requires d.scale >= 0
  {
    var digits := NatToString(Abs(d.unscaled));
    var point := |digits| - d.scale;
    if d.scale == 0 then digits
    else if point > 0 then digits[..point] + "." + digits[point..]
    else "0" + "." + (Zeros(-point) + digits)
  }

  lemma {:induction false} PlainStringSplits(d: Dec)
    requires d.scale >= 0
    ensures ToPlainString(d) == (if d.unscaled < 0 then "-" else "") + PlainMagnitude(d)
  {
  }

  lemma ParsePlainMagnitude(d: Dec)
    requires d.scale >= 0
    ensures ParseUnsigned(PlainMagnitude(d)) == Some(Dec(Abs(d.unscaled), d.scale))
  {
    var point := |NatToString(Abs(d.unscaled))| - d.scale;
    if d.scale == 0 {
      MagnitudeWhole(d);
    } else if point > 0 {
      MagnitudeSplit(d);
    } else {
      MagnitudeFraction(d);
    }
  }

  lemma MagnitudeWhole(d: Dec)
    requires d.scale == 0
    ensures ParseUnsigned(PlainMagnitude(d)) == Some(Dec(Abs(d.unscaled), d.scale))
  {
    var digits := NatToString(Abs(d.unscaled));
    StringToNatOfNatToString(Abs(d.unscaled));
    assert PlainMagnitude(d) == digits;
    ParseWhole(digits);
  }

  lemma MagnitudeSplit(d: Dec)
    requires d.scale > 0 && |NatToString(Abs(d.unscaled))| > d.scale
    ensures ParseUnsigned(PlainMagnitude(d)) == Some(Dec(Abs(d.unscaled), d.scale))
  {
    var digits := NatToString(Abs(d.unscaled));
    var point := |digits| - d.scale;
    StringToNatOfNatToString(Abs(d.unscaled));
    assert PlainMagnitude(d) == digits[..point] + "." + digits[point..];
    ParseSplit(digits, point);
  }

  lemma MagnitudeFraction(d: Dec)
    requires d.scale > 0 && |NatToString(Abs(d.unscaled))| <= d.scale
    ensures ParseUnsigned(PlainMagnitude(d)) == Some(Dec(Abs(d.unscaled), d.scale))
  {
    var digits := NatToString(Abs(d.unscaled));
    var z := d.scale - |digits|;
    var f := Zeros(z) + digits;
    StringToNatOfNatToString(Abs(d.unscaled));
    assert PlainMagnitude(d) == "0" + "." + f;
    PaddedValue(digits, z, f);
    ParseFraction("0", f, Abs(d.unscaled), d.scale);
  }

  lemma {:induction false} ParseWhole(digits: string)
    requires AllDigits(digits) && digits != []
    ensures ParseUnsigned(digits) == Some(Dec(StringToNat(digits), 0))
  {
    PointIndexAfter(digits, "");
    assert digits + "" == digits;
  }

  lemma {:induction false} ParseSplit(digits: string, point: nat)
    requires AllDigits(digits) && 0 < point < |digits|
    ensures ParseUnsigned(digits[..point] + "." + digits[point..])
      == Some(Dec(StringToNat(digits), |digits| - point))
  {
    var a, b := digits[..point], digits[point..];
    assert AllDigits(a) && AllDigits(b);
    assert a + b == digits;
    ParseUnsignedDigits(a, b);
    var x := ParseUnsigned(a + "." + b);
    assert x == Some(Dec(StringToNat(digits), |b|));
  }

  lemma ParseFraction(a: string, b: string, n: nat, length: nat)
    requires AllDigits(a) && AllDigits(b) && a != [] && b != []
    requires AllDigits(a + b) && StringToNat(a + b) == n && |b| == length
    ensures ParseUnsigned(a + "." + b) == Some(Dec(n, length))
  {
    ParseUnsignedDigits(a, b);
  }

  lemma {:induction false} PaddedValue(digits: string, z: nat, f: string)
    requires AllDigits(digits) && digits != [] && f == Zeros(z) + digits
    ensures AllDigits(f) && AllDigits("0" + f) && StringToNat("0" + f) == StringToNat(digits)
  {
    assert "0" + f == Zeros(z + 1) + digits;
    StringToNatLeadingZeros(z + 1, digits);
  }

  /** Plain notation is read back to the very same decimal whenever the scale is not negative:
      `new BigDecimal(d.toPlainString()).equals(d)`. A negative scale renders as an integer and
      comes back with scale 0. */
  lemma {:induction false} PlainStringRoundTrip(d: Dec)
    requires d.scale >= 0
    ensures ParsePlainString(ToPlainString(d)) == Some(d)
  {
    var m := PlainMagnitude(d);
    PlainStringSplits(d);
    ParsePlainMagnitude(d);
    if d.unscaled < 0 {
      ReadNegative(m);
    } else {
      ReadNonNegative(m);
    }
  }

  lemma {:induction false} ReadNegative(m: string)
    ensures ParsePlainString("-" + m) == match ParseUnsigned(m)
      case Some(d) => Some(Dec(-d.unscaled, d.scale))
      case None => None
  {
    assert ("-" + m)[1..] == m;
  }

  lemma {:induction false} ReadNonNegative(m: string)
    requires m != [] ==> m[0] != '-'
    ensures ParsePlainString("" + m) == ParseUnsigned(m)
  {
    assert "" + m == m;
  }


  /** Plain strings are made of digits, '-' and '.' only: no exponent. */
  lemma {:induction false} PlainStringHasNoExponent(d: Dec)
    ensures forall i :: 0 <= i < |ToPlainString(d)| ==> IsPlainChar(ToPlainString(d)[i])
  {
  }

  /** With a positive scale, exactly `scale` characters follow the first '.'. */
  lemma PlainStringKeepsScaleDigits(d: Dec)
    requires d.scale > 0
    ensures var s := ToPlainString(d); var k := PointIndex(s);
      k < |s| && |s| - (k + 1) == d.scale
  {
    var digits := NatToString(Abs(d.unscaled));
    var sign := if d.unscaled < 0 then "-" else "";
    var point := |digits| - d.scale;
    if point > 0 {
      assert ToPlainString(d) == (sign + digits[..point]) + ("." + digits[point..]);
      PointAfterPrefix(sign + digits[..point], digits[point..]);
    } else {
      assert ToPlainString(d) == (sign + "0") + ("." + (Zeros(-point) + digits));
      PointAfterPrefix(sign + "0", Zeros(-point) + digits);
    }
  }

  /** The first '.' in a + "." + b when `a` has none: exactly |b| characters follow it. */
  lemma PointAfterPrefix(a: string, b: string)
    requires forall i :: 0 <= i < |a| ==> a[i] != '.'
    ensures var s := a + ("." + b); var k := PointIndex(s);
      k < |s| && |s| - (k + 1) == |b|
  {
    PointIndexAfter(a, "." + b);
  }
}
