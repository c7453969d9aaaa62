/** Expression nodes: additive, unary minus, AND and OR, over leaves whose kinds lie outside
    this model (literals, identifiers, function calls, comparisons, ...). */
module Expressions {
  import opened Decimal
  import opened Atoms

  /** An expression tree. A `Leaf` stands for a node of another kind; `leaf(id)` in `Evaluate`
      gives what that node evaluates to. */
  datatype Expression =
    | Leaf(id: nat)
    | Additive(left: Expression, operator: string, right: Expression)
    | UnaryMinus(expression: Expression)
    | And(left: Expression, right: Expression)
    | Or(left: Expression, right: Expression)

  /** The evaluation context: its MathContext and whether the evaluation has been stopped. */
  datatype EvaluationContext = EvaluationContext(mathContext: MathContext, stopped: bool)

  /** The atom an evaluation returns and the leaves it evaluated, in the order it did so. */
  datatype Evaluation = Evaluation(atom: Atom, visited: seq<nat>)

  /** `AdditiveExpression.evaluate` once both operands are known: "+"/"-" on two numbers (rounded
      by `round` under the context's MathContext), "+" on two strings, ZERO for everything else. */
  function AdditiveOf(l: Atom, operator: string, r: Atom, mc: MathContext,
                      round: (MathContext, Dec) -> Dec): (result: Atom)
    ensures result.Text? <==> l.Text? && r.Text? && operator == "+"
    ensures result.Text? ==> result.text == l.text + r.text
    ensures result.Number? && result != NUMBER_ZERO ==> l.Number? && r.Number?
    ensures HasInterruptionType(l) || HasInterruptionType(r) ==> result == NUMBER_ZERO
  {
    if !HasNumberType(l) || !HasNumberType(r) then
      if HasStringType(l) && HasStringType(r) && operator == "+" then Text(l.text + r.text)
      else NUMBER_ZERO
    else if operator == "+" then Number(round(mc, Sum(l.number, r.number)))
    else if operator == "-" then Number(round(mc, Difference(l.number, r.number)))
    else NUMBER_ZERO
  }

  /** On two numbers, "+" and "-" hand the exact sum or difference (value, and the larger scale)
      to the rounding; any other operator gives ZERO. */
  lemma AdditiveOfNumbers(a: Dec, operator: string, b: Dec, mc: MathContext,
                          round: (MathContext, Dec) -> Dec)
    ensures var result := AdditiveOf(Number(a), operator, Number(b), mc, round);
      && (operator == "+" ==>
            (exists s :: result == Number(round(mc, s)) && ValueOf(s) == ValueOf(a) + ValueOf(b)
                         && s.scale == (if a.scale >= b.scale then a.scale else b.scale)))
      && (operator == "-" ==>
            (exists s :: result == Number(round(mc, s)) && ValueOf(s) == ValueOf(a) - ValueOf(b)
                         && s.scale == (if a.scale >= b.scale then a.scale else b.scale)))
      && (operator != "+" && operator != "-" ==> result == NUMBER_ZERO)
  {
    if operator == "+" {
      var s := Sum(a, b);
      assert AdditiveOf(Number(a), operator, Number(b), mc, round) == Number(round(mc, s));
    } else if operator == "-" {
      var s := Difference(a, b);
      assert AdditiveOf(Number(a), operator, Number(b), mc, round) == Number(round(mc, s));
    }
  }

  /** `UnaryMinusExpression.evaluate` once the operand is known: the exact negation, no rounding. */
  function UnaryMinusOf(a: Atom): (result: Atom)
    ensures result.Number?
    ensures a.Number? ==> ValueOf(result.number) == -ValueOf(a.number) && result.number.scale == a.number.scale
    ensures !a.Number? ==> result == NUMBER_ZERO
  {
    if !HasNumberType(a) then NUMBER_ZERO else Number(Negate(a.number))
  }

  /** Negating a number twice gives back the very same decimal. */
  lemma UnaryMinusTwice(d: Dec)
    ensures UnaryMinusOf(UnaryMinusOf(Number(d))) == Number(d)
  {
    NegateTwice(d);
  }

  /** `AndExpression.evaluate` once both operand values are known. */
  function AndOf(l: Atom, r: Atom): Atom {
    BooleanAtom(IsOne(GetValue(l)) && IsOne(GetValue(r)))
  }

  /** `OrExpression.evaluate` once both operand values are known. */
  function OrOf(l: Atom, r: Atom): Atom {
    BooleanAtom(IsOne(GetValue(l)) || IsOne(GetValue(r)))
  }

  /** AND is true exactly when both operands are the number atom Dec(1, 0), and false otherwise. */
  lemma {:induction false} AndTruth(l: Atom, r: Atom)
    ensures AndOf(l, r) == Number(ONE) <==> l == Number(ONE) && r == Number(ONE)
    ensures AndOf(l, r) != Number(ONE) ==> AndOf(l, r) == NUMBER_ZERO
  {
    IsOneExactly(l);
    IsOneExactly(r);
  }

  /** OR is true exactly when at least one operand is the number atom Dec(1, 0). */
  lemma {:induction false} OrTruth(l: Atom, r: Atom)
    ensures OrOf(l, r) == Number(ONE) <==> l == Number(ONE) || r == Number(ONE)
    ensures OrOf(l, r) != Number(ONE) ==> OrOf(l, r) == NUMBER_ZERO
  {
    IsOneExactly(l);
    IsOneExactly(r);
  }

  /** 1.0 equals one in value but not under `equals`, so it is false in AND and in OR, and so
      are the string "1" and the interruption. */
  lemma {:induction false} OnlyUnscaledOneIsTrue(other: Atom)
    ensures AndOf(Number(Dec(10, 1)), other) == NUMBER_ZERO
    ensures OrOf(Number(Dec(10, 1)), Text("1")) == NUMBER_ZERO
    ensures OrOf(Interruption, Interruption) == NUMBER_ZERO
    ensures ValueOf(Dec(10, 1)) == ValueOf(ONE)
  {
    ScaledOneIsNotOne();
    AndTruth(Number(Dec(10, 1)), other);
  }

  /** Evaluates an expression. Every node evaluates its children directly (left before right),
      with no check of the stop flag; that check is made only by `ExpressionEvaluator.evaluate`. */
  function Evaluate(e: Expression, ctx: EvaluationContext, leaf: nat -> Atom,
                    round: (MathContext, Dec) -> Dec): Evaluation
  {
    match e
    case Leaf(id) => Evaluation(leaf(id), [id])
    case Additive(l, op, r) =>
      var x := Evaluate(l, ctx, leaf, round);
      var y := Evaluate(r, ctx, leaf, round);
      Evaluation(AdditiveOf(x.atom, op, y.atom, ctx.mathContext, round), x.visited + y.visited)
    case UnaryMinus(inner) =>
      var x := Evaluate(inner, ctx, leaf, round);
      Evaluation(UnaryMinusOf(x.atom), x.visited)
    case And(l, r) =>
      var x := Evaluate(l, ctx, leaf, round);
      var y := Evaluate(r, ctx, leaf, round);
      Evaluation(AndOf(x.atom, y.atom), x.visited + y.visited)
    case Or(l, r) =>
      var x := Evaluate(l, ctx, leaf, round);
      var y := Evaluate(r, ctx, leaf, round);
      Evaluation(OrOf(x.atom, y.atom), x.visited + y.visited)
  }

  /** The leaves of an expression from left to right. */
  function Leaves(e: Expression): seq<nat> {
    match e
    case Leaf(id) => [id]
    case Additive(l, _, r) => Leaves(l) + Leaves(r)
    case UnaryMinus(inner) => Leaves(inner)
    case And(l, r) => Leaves(l) + Leaves(r)
    case Or(l, r) => Leaves(l) + Leaves(r)
  }

  /** No node short-circuits: every leaf is evaluated exactly once, the left operand's leaves all
      before the right operand's, whatever the operand atoms turn out to be. */
  lemma {:induction false} EvaluateVisitsEveryLeaf(e: Expression, ctx: EvaluationContext, leaf: nat -> Atom,
                                                  round: (MathContext, Dec) -> Dec)
    ensures Evaluate(e, ctx, leaf, round).visited == Leaves(e)
  {
    match e
    case Leaf(_) =>
    case Additive(l, _, r) =>
      EvaluateVisitsEveryLeaf(l, ctx, leaf, round);
      EvaluateVisitsEveryLeaf(r, ctx, leaf, round);
    case UnaryMinus(inner) =>
      EvaluateVisitsEveryLeaf(inner, ctx, leaf, round);
    case And(l, r) =>
      EvaluateVisitsEveryLeaf(l, ctx, leaf, round);
      EvaluateVisitsEveryLeaf(r, ctx, leaf, round);
    case Or(l, r) =>
      EvaluateVisitsEveryLeaf(l, ctx, leaf, round);
      EvaluateVisitsEveryLeaf(r, ctx, leaf, round);
  }

  /** The four node kinds always produce a number or a string, never the interruption atom:
      an interrupted operand is not passed upwards. */
  lemma {:induction false} NodesDoNotPropagateInterruption(e: Expression, ctx: EvaluationContext,
                                                          leaf: nat -> Atom, round: (MathContext, Dec) -> Dec)
    requires !e.Leaf?
    ensures !HasInterruptionType(Evaluate(e, ctx, leaf, round).atom)
  {
  }

  /** Two unary minuses over an expression that evaluates to a number give back that number,
      scale included. */
  lemma {:induction false} DoubleUnaryMinus(inner: Expression, ctx: EvaluationContext, leaf: nat -> Atom,
                                             round: (MathContext, Dec) -> Dec)
    ensures var a := Evaluate(inner, ctx, leaf, round).atom;
      var b := Evaluate(UnaryMinus(UnaryMinus(inner)), ctx, leaf, round).atom;
      a.Number? ==> b == a
  {
    var a := Evaluate(inner, ctx, leaf, round).atom;
    if a.Number? {
      UnaryMinusTwice(a.number);
    }
  }

  /** `copy()`: a copy of the tree with the same operators and copies of the children. */
  function Copy(e: Expression): (c: Expression)
    ensures c == e
  {
    match e
    case Leaf(id) => Leaf(id)
    case Additive(l, op, r) => Additive(Copy(l), op, Copy(r))
    case UnaryMinus(inner) => UnaryMinus(Copy(inner))
    case And(l, r) => And(Copy(l), Copy(r))
    case Or(l, r) => Or(Copy(l), Copy(r))
  }

  /** The operator token of a binary node: its relation for an additive node, "&&" for AND and
      "||" for OR. */
  function Operator(e: Expression): (token: string)
    requires e.Additive? || e.And? || e.Or?
    ensures e.And? ==> token == "&&"
    ensures e.Or? ==> token == "||"
  {
    match e
    case Additive(_, op, _) => op
    case And(_, _) => "&&"
    case Or(_, _) => "||"
  }

  /** `AndExpression.toLanguage(language)`: the translation the language gives to this node. */
  function AndToLanguage(e: Expression, translateAndExpression: Expression -> string): (text: string)
    requires e.And?
    ensures text == translateAndExpression(e)
  {
    translateAndExpression(e)
  }
}
