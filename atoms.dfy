/** Atoms: the values an expression evaluates to (numbers, strings and the interruption sentinel). */
module Atoms {
  import opened Decimal

  /** An atom of the evaluator. A boolean atom is a number atom holding ONE (true) or ZERO (false). */
  datatype Atom = Number(number: Dec) | Text(text: string) | Interruption

  /** What `Atom.getValue()` hands out: a BigDecimal, a String or an Integer. */
  datatype Value = DecimalValue(decimal: Dec) | StringValue(chars: string) | IntegerValue(integer: int)

  /** The value an atom carries; the interruption atom carries the Integer -1. */
  function GetValue(a: Atom): (v: Value)
    ensures v.DecimalValue? <==> a.Number?
    ensures v.StringValue? <==> a.Text?
    ensures v.IntegerValue? <==> a.Interruption?
  {
    match a
    case Number(d) => DecimalValue(d)
    case Text(s) => StringValue(s)
    case Interruption => IntegerValue(-1)
  }

  /** `NumberAtom.ZERO`. */
  const NUMBER_ZERO: Atom := Number(ZERO)

  /** `new BooleanAtom(b)`: a number atom holding ONE or ZERO. */
  function BooleanAtom(b: bool): (a: Atom)
    ensures a.Number? && a.number.scale == 0
    ensures GetValue(a) == DecimalValue(ONE) <==> b
  {
    if b then Number(ONE) else NUMBER_ZERO
  }

  /** `new InterruptionAtom()`: the atom returned when an evaluation is interrupted. */
  function NewInterruption(): (a: Atom)
    ensures HasInterruptionType(a)
    ensures GetValue(a) == IntegerValue(-1)
  {
    Interruption
  }

  /** `InterruptionAtom.hasInterruptionType(atom)`. */
  predicate HasInterruptionType(a: Atom) {
    a.Interruption?
  }

  /** `NumberAtom.hasNumberType(atom)`. */
  predicate HasNumberType(a: Atom) {
    a.Number?
  }

  /** `StringAtom.hasStringType(atom)`. */
  predicate HasStringType(a: Atom) {
    a.Text?
  }

  /** `hasSameType` on an interruption receiver; the receiver carries nothing but -1, so it does not
      appear as an argument. */
  predicate InterruptionHasSameType(other: Atom) {
    HasInterruptionType(other)
  }

  /** `InterruptionAtom.copy()`: a new interruption atom. */
  function CopyInterruption(): (a: Atom)
    ensures HasInterruptionType(a) && GetValue(a) == IntegerValue(-1)
    ensures InterruptionHasSameType(a)
  {
    NewInterruption()
  }

  /** An interruption receiver agrees in type exactly with the atoms that carry an Integer value,
      that is with the interruption atom itself and no number or string atom. */
  lemma InterruptionSameTypeExactly(other: Atom)
    ensures InterruptionHasSameType(other) <==> other == NewInterruption()
    ensures InterruptionHasSameType(other) <==> GetValue(other).IntegerValue?
    ensures InterruptionHasSameType(other) ==> GetValue(other) == IntegerValue(-1)
  {
  }

  /** `value.equals(BigDecimal.ONE)`: structural, so the scale counts and only Dec(1, 0) is one. */
  predicate IsOne(v: Value) {
    v == DecimalValue(ONE)
  }

  /** A value counts as one exactly when it comes from the number atom holding Dec(1, 0). */
  lemma IsOneExactly(a: Atom)
    ensures IsOne(GetValue(a)) <==> a == Number(ONE)
  {
  }
}
