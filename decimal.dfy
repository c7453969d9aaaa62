/** Java's `BigDecimal` as an unscaled integer and a scale: the number is unscaled * 10^-scale.
    Two decimals are `equals` exactly when both parts agree, so 1 and 1.0 differ. */
module Decimal {
  import opened Wrappers
  import opened Digits

  datatype Dec = Dec(unscaled: int, scale: int)

  /** `BigDecimal.ZERO` and `BigDecimal.ONE`: unscaled 0 and 1, scale 0. */
  const ZERO: Dec := Dec(0, 0)
  const ONE: Dec := Dec(1, 0)

  /** Java's `RoundingMode` constants. */
  datatype RoundingMode = UP | DOWN | CEILING | FLOOR | HALF_UP | HALF_DOWN | HALF_EVEN | UNNECESSARY

  /** Java's `MathContext`: a precision (0 means unlimited) and a rounding mode. The rounding it
      performs is not modelled; it is passed around as a function `(MathContext, Dec) -> Dec`. */
  datatype MathContext = MathContext(precision: nat, roundingMode: RoundingMode)

  function Abs(i: int): nat {
    if i < 0 then -i else i
  }

  /** The exact value a decimal denotes. */
  ghost function ValueOf(d: Dec): real {
    if d.scale >= 0 then d.unscaled as real / Pow10(d.scale) as real
    else (d.unscaled * Pow10(-d.scale)) as real
  }

  /** `BigDecimal.negate()`: the scale is kept, only the sign changes. */
  function Negate(d: Dec): (r: Dec)
    ensures r.scale == d.scale && Abs(r.unscaled) == Abs(d.unscaled)
    ensures ValueOf(r) == -ValueOf(d)
  {
    NegateValue(d);
    Dec(-d.unscaled, d.scale)
  }

  lemma NegateValue(d: Dec)
    ensures ValueOf(Dec(-d.unscaled, d.scale)) == -ValueOf(d)
  {
    if d.scale >= 0 {
      var x, p := d.unscaled as real, Pow10(d.scale) as real;
      assert (-d.unscaled) as real == -x;
      assert (-x) / p == -(x / p);
    } else {
      assert -d.unscaled * Pow10(-d.scale) == -(d.unscaled * Pow10(-d.scale));
    }
  }

  /** Negating twice gives back the original decimal, scale included. */
  lemma NegateTwice(d: Dec)
    ensures Negate(Negate(d)) == d
  {
  }

  /** The same number written with the larger scale `s`. */
  function Align(d: Dec, s: int): (r: Dec)
    requires s >= d.scale
    ensures r.scale == s && ValueOf(r) == ValueOf(d)
  {
    AlignKeepsValue(d, s);
    Dec(d.unscaled * Pow10(s - d.scale), s)
  }

  /** The exact sum computed by `BigDecimal.add` before any `MathContext` rounding: its scale is
      the larger of the two scales. */
  function Sum(a: Dec, b: Dec): (r: Dec)
    ensures r.scale == if a.scale >= b.scale then a.scale else b.scale
    ensures ValueOf(r) == ValueOf(a) + ValueOf(b)
  {
    var s := if a.scale >= b.scale then a.scale else b.scale;
    var x, y := Align(a, s), Align(b, s);
    SameScaleValueAdds(x, y);
    Dec(x.unscaled + y.unscaled, s)
  }

  /** The exact difference computed by `BigDecimal.subtract`, which adds the negated subtrahend. */
  function Difference(a: Dec, b: Dec): (r: Dec)
    ensures r.scale == if a.scale >= b.scale then a.scale else b.scale
    ensures ValueOf(r) == ValueOf(a) - ValueOf(b)
  {
    Sum(a, Negate(b))
  }

  lemma {:induction false} Pow10Add(i: nat, j: nat)
    ensures Pow10(i + j) == Pow10(i) * Pow10(j)
  {
    if i > 0 {
      Pow10Add(i - 1, j);
    }
  }

  lemma AlignKeepsValue(d: Dec, s: int)
    requires s >= d.scale
    ensures ValueOf(Dec(d.unscaled * Pow10(s - d.scale), s)) == ValueOf(d)
  {
    if d.scale >= 0 {
      AlignNonNegative(d.unscaled, s - d.scale, d.scale);
    } else if s >= 0 {
      AlignAcrossZero(d.unscaled, s, -d.scale);
    } else {
      AlignNegative(d.unscaled, -s, s - d.scale);
    }
  }

  /** Scales `j` and `j + k`, both non-negative. */
  lemma AlignNonNegative(u: int, k: nat, j: nat)
    ensures ValueOf(Dec(u * Pow10(k), k + j)) == ValueOf(Dec(u, j))
  {
    Pow10Add(k, j);
    DivideCommonFactor(u, Pow10(k), Pow10(j));
  }

  /** Scales `-j` (negative) and `s` (non-negative). */
  lemma AlignAcrossZero(u: int, s: nat, j: nat)
    requires j > 0
    ensures ValueOf(Dec(u * Pow10(s + j), s)) == ValueOf(Dec(u, -(j as int)))
  {
    Pow10Add(s, j);
    var w := u * Pow10(j);
    assert u * Pow10(s + j) == u * (Pow10(s) * Pow10(j));
    assert u * (Pow10(s) * Pow10(j)) == (u * Pow10(j)) * Pow10(s);
    DivideCommonFactor(w, Pow10(s), 1);
  }

  /** Scales `-(i + k)` and `-i`, both negative. */
  lemma AlignNegative(u: int, i: nat, k: nat)
    requires i > 0
    ensures ValueOf(Dec(u * Pow10(k), -(i as int))) == ValueOf(Dec(u, -((i + k) as int)))
  {
    Pow10Add(k, i);
    var p, q := Pow10(k), Pow10(i);
    assert (u * p) * q == u * (p * q) by {
      forall a: int, b: int, c: int ensures (a * b) * c == a * (b * c) { }
    }
  }

  lemma DivideCommonFactor(u: int, p: nat, q: nat)
    requires p >= 1 && q >= 1
    ensures (u * p) as real / (p * q) as real == u as real / q as real
  {
    var pr, qr := p as real, q as real;
    assert (u * p) as real == u as real * pr;
    assert (p * q) as real == pr * qr;
    CancelReal(u as real, pr, qr);
  }

  lemma CancelReal(x: real, p: real, q: real)
    requires p > 0.0 && q > 0.0
    ensures (x * p) / (p * q) == x / q
  {
    assert (x * p) / (p * q) == (x / q) * ((p * q) / (p * q));
  }

  lemma SameScaleValueAdds(x: Dec, y: Dec)
    requires x.scale == y.scale
    ensures ValueOf(Dec(x.unscaled + y.unscaled, x.scale)) == ValueOf(x) + ValueOf(y)
  {
  }

  /** `1.0` (unscaled 10, scale 1) has the value of ONE but is not `equals` to it. */
  lemma ScaledOneIsNotOne()
    ensures ValueOf(Dec(10, 1)) == ValueOf(ONE) && Dec(10, 1) != ONE
  {
  }
}
