/** Statements: the print-variable statement, the ELSE block and the statement tree around them. */
module Statements {
  import opened Wrappers
  import opened Digits
  import opened Decimal
  import opened DecimalText
  import opened Atoms
  import opened Evaluator

  /** The statement kind tag of `PrintVariableStatement`. */
  const PRINT_VARIABLE_ID: int := 7
  /** The statement kind tag of `ElseBlock`. */
  const ELSE_ID: int := 10

  /** A statement of the program tree. The root sections (VARIABLES, BEGINNING, END), line
      comments, and every other simple statement or block are kept only as far as the root checks
      need them. */
  datatype Statement =
    | PrintVariable(identifier: string, message: Option<string>, lineBreak: bool)
    | Else(statements: seq<Statement>)
    | Variables(statements: seq<Statement>)
    | Beginning(statements: seq<Statement>)
    | End(statements: seq<Statement>)
    | LineComment(content: string)
    | OtherBlock(statements: seq<Statement>)
    | OtherSimple

  /** The kind of a statement: the class that `getStatementId()` identifies. */
  datatype Kind = PrintVariableKind | ElseKind | VariablesKind | BeginningKind | EndKind
                | LineCommentKind | OtherBlockKind | OtherSimpleKind

  function KindOf(s: Statement): Kind {
    match s
    case PrintVariable(_, _, _) => PrintVariableKind
    case Else(_) => ElseKind
    case Variables(_) => VariablesKind
    case Beginning(_) => BeginningKind
    case End(_) => EndKind
    case LineComment(_) => LineCommentKind
    case OtherBlock(_) => OtherBlockKind
    case OtherSimple => OtherSimpleKind
  }

  predicate IsBlock(s: Statement) {
    s.Else? || s.Variables? || s.Beginning? || s.End? || s.OtherBlock?
  }

  /** `getStatementId()` for the two statement classes whose tag is part of this model. */
  function StatementId(s: Statement): (id: int)
    requires s.PrintVariable? || s.Else?
    ensures id == PRINT_VARIABLE_ID <==> s.PrintVariable?
    ensures id == ELSE_ID <==> s.Else?
  {
    if s.PrintVariable? then PRINT_VARIABLE_ID else ELSE_ID
  }

  /** `new ElseBlock(statements...)`: the children, in the given order, and nothing else. */
  function NewElseBlock(statements: seq<Statement>): (b: Statement)
    ensures IsBlock(b) && KindOf(b) == ElseKind && StatementId(b) == ELSE_ID
    ensures b.statements == statements
  {
    Else(statements)
  }

  /** `copy()` on any statement: blocks copy their children (`copyStatements()`), simple
      statements keep their fields; the copy equals the original. */
  function Copy(s: Statement): (c: Statement)
    ensures c == s
    decreases s, 0
  {
    match s
    case PrintVariable(identifier, message, lineBreak) => PrintVariable(identifier, message, lineBreak)
    case Else(ss) => NewElseBlock(CopyStatements(ss))
    case Variables(ss) => Variables(CopyStatements(ss))
    case Beginning(ss) => Beginning(CopyStatements(ss))
    case End(ss) => End(CopyStatements(ss))
    case LineComment(content) => LineComment(content)
    case OtherBlock(ss) => OtherBlock(CopyStatements(ss))
    case OtherSimple => OtherSimple
  }

  /** `copyStatements()`: a copy of every child, in order. */
  function CopyStatements(ss: seq<Statement>): (cs: seq<Statement>)
    ensures cs == ss
    decreases ss, 1
  {
    if ss == [] then [] else [Copy(ss[0])] + CopyStatements(ss[1..])
  }

  /** `PrintVariableStatement.validate()`: the statement itself never reports a problem. */
  function ValidatePrintVariable(s: Statement): (error: Option<StatementError>)
    requires s.PrintVariable?
    ensures error == None
  {
    None
  }

  /** The errors `evaluate` can return: an undeclared identifier, a declared variable without a
      value, or whatever the message step (in the superclass) reported. */
  datatype StatementError =
    | InvalidIdentifier(identifier: string)
    | InvalidVariableValue(identifier: string)
    | MessageError(reason: string)

  /** What the superclass's `evaluate` did with the message: the text it sent to the output
      listener and the error it returned, if any. */
  datatype MessageOutcome = MessageOutcome(output: seq<string>, error: Option<StatementError>)

  /** How a variable's value is printed: a decimal by `toPlainString()`, anything else by
      `toString()`. */
  function FormatValue(v: Value): string {
    match v
    case DecimalValue(d) => ToPlainString(d)
    case StringValue(s) => s
    case IntegerValue(i) => IntToString(i)
  }

  /** A printed decimal of non-negative scale reads back as the very same decimal (scale included),
      and shows exactly `scale` digits after its point. */
  lemma {:induction false} PrintedDecimalReadsBack(d: Dec)
    requires d.scale >= 0
    ensures ParsePlainString(FormatValue(DecimalValue(d))) == Some(d)
    ensures d.scale > 0 ==> var s := FormatValue(DecimalValue(d)); var k := PointIndex(s);
      k < |s| && |s| - (k + 1) == d.scale
  {
    PlainStringRoundTrip(d);
    if d.scale > 0 {
      PlainStringKeepsScaleDigits(d);
    }
  }

  /** `PrintVariableStatement.evaluate`. `printMessage(message, lineBreak)` is the superclass's
      message step; the returned `output` is everything sent to the output listener, in order. */
  method EvaluatePrintVariable(s: Statement, evaluator: ExpressionEvaluator,
                               printMessage: (string, bool) -> MessageOutcome, lineSeparator: string)
    returns (output: seq<string>, error: Option<StatementError>)
    requires s.PrintVariable? && evaluator.Valid()
    ensures !evaluator.HasVariable(s.identifier) ==>
      output == [] && error == Some(InvalidIdentifier(s.identifier))
    ensures evaluator.HasVariable(s.identifier) ==>
      var before := if s.message.Some? then printMessage(s.message.value, s.lineBreak).output else [];
      var failed := s.message.Some? && printMessage(s.message.value, s.lineBreak).error.Some?;
      var value := evaluator.variables[s.identifier].value;
      && (failed ==> output == before && error == printMessage(s.message.value, s.lineBreak).error)
      && (!failed && value.None? ==> output == before && error == Some(InvalidVariableValue(s.identifier)))
      && (!failed && value.Some? ==>
            output == before + [FormatValue(value.value) + (if s.lineBreak then lineSeparator else "")]
            && error == None)
  {
    var variable := evaluator.GetVariable(s.identifier);
    if variable.None? {
      return [], Some(InvalidIdentifier(s.identifier));
    }
    output := [];
    if s.message.Some? {
      var step := printMessage(s.message.value, s.lineBreak);
      output := step.output;
      if step.error.Some? {
        return output, step.error;
      }
    }
    var value := variable.value.value;
    if value.None? {
      return output, Some(InvalidVariableValue(s.identifier));
    }
    var text := FormatValue(value.value);
    if s.lineBreak {
      text := text + lineSeparator;
    } else {
      assert text == text + "";
    }
    output := output + [text];
    error := None;
  }

  /** The pre-order list of the statements of `ss` (and of their descendants) of kind `k`:
      `listStatementsById`. */
  function ListByKind(ss: seq<Statement>, k: Kind): seq<Statement>
    decreases ss, 1
  {
    if ss == [] then []
    else ListInStatement(ss[0], k) + ListByKind(ss[1..], k)
  }

  function ListInStatement(s: Statement, k: Kind): seq<Statement>
    decreases s, 0
  {
    (if KindOf(s) == k then [s] else [])
    + (if IsBlock(s) then ListByKind(s.statements, k) else [])
  }

  /** Every listed statement has the requested kind. */
  lemma {:induction false} ListByKindMatches(ss: seq<Statement>, k: Kind)
    ensures forall i :: 0 <= i < |ListByKind(ss, k)| ==> KindOf(ListByKind(ss, k)[i]) == k
    decreases ss, 1
  {
    if ss != [] {
      ListInStatementMatches(ss[0], k);
      ListByKindMatches(ss[1..], k);
    }
  }

  lemma {:induction false} ListInStatementMatches(s: Statement, k: Kind)
    ensures forall i :: 0 <= i < |ListInStatement(s, k)| ==> KindOf(ListInStatement(s, k)[i]) == k
    decreases s, 0
  {
    if IsBlock(s) {
      ListByKindMatches(s.statements, k);
    }
  }

  /** Listing distributes over concatenation of statement sequences. */
  lemma {:induction false} ListByKindAppend(a: seq<Statement>, b: seq<Statement>, k: Kind)
    ensures ListByKind(a + b, k) == ListByKind(a, k) + ListByKind(b, k)
  {
    if a == [] {
      assert a + b == b;
    } else {
      assert (a + b)[1..] == a[1..] + b;
      ListByKindAppend(a[1..], b, k);
    }
  }
}
