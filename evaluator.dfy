/** The expression evaluator: the registries of variables and functions and the stop check. */
module Evaluator {
  import opened Wrappers
  import opened Decimal
  import opened Atoms
  import opened Expressions

  datatype VariableType = NUMBER | STRING

  /** A variable: its identifier, its declared type and its value (`None` for Java's null). */
  datatype Variable = Variable(identifier: string, variableType: VariableType, value: Option<Value>)

  /** A function of the evaluator, known by its identifier; what it computes is outside this model. */
  datatype Function = Function(identifier: string)

  /** The identifiers of the 26 default functions, in the order the constructor registers them. */
  const DEFAULT_FUNCTION_IDS: seq<string> := [
    "EXP", "LOG", "LOG10", "LOG2",
    "SQRT", "ROOT",
    "ABS", "BERNOULLI", "CEILING", "FACTORIAL", "FLOOR", "MAX", "MIN", "RANDOM",
    "COS", "SIN", "TAN",
    "COSH", "SINH", "TANH",
    "ACOS", "ASIN", "ATAN",
    "ACOSH", "ASINH", "ATANH"]

  /** Every entry of `m` is the function of its own identifier. */
  ghost predicate OwnFunctions(m: map<string, Function>) {
    forall id :: id in m ==> m[id] == Function(id)
  }

  /** `m` after the `putFunction` calls for the exponential and the logarithms. */
  function WithNeperFunctions(m: map<string, Function>): (r: map<string, Function>)
    ensures r.Keys == m.Keys + {"EXP", "LOG", "LOG10", "LOG2"}
    ensures OwnFunctions(m) ==> OwnFunctions(r)
  {
    m
      ["EXP" := Function("EXP")]
      ["LOG" := Function("LOG")]
      ["LOG10" := Function("LOG10")]
      ["LOG2" := Function("LOG2")]
  }

  /** `m` after the `putFunction` calls for the roots. */
  function WithRootFunctions(m: map<string, Function>): (r: map<string, Function>)
    ensures r.Keys == m.Keys + {"SQRT", "ROOT"}
    ensures OwnFunctions(m) ==> OwnFunctions(r)
  {
    m
      ["SQRT" := Function("SQRT")]
      ["ROOT" := Function("ROOT")]
  }

  /** `m` after the `putFunction` calls for the other functions. */
  function WithOtherFunctions(m: map<string, Function>): (r: map<string, Function>)
    ensures r.Keys == m.Keys + {"ABS", "BERNOULLI", "CEILING", "FACTORIAL", "FLOOR", "MAX", "MIN", "RANDOM"}
    ensures OwnFunctions(m) ==> OwnFunctions(r)
  {
    m
      ["ABS" := Function("ABS")]
      ["BERNOULLI" := Function("BERNOULLI")]
      ["CEILING" := Function("CEILING")]
      ["FACTORIAL" := Function("FACTORIAL")]
      ["FLOOR" := Function("FLOOR")]
      ["MAX" := Function("MAX")]
      ["MIN" := Function("MIN")]
      ["RANDOM" := Function("RANDOM")]
  }

  /** `m` after the `putFunction` calls for the trigonometric functions. */
  function WithTrigonometricFunctions(m: map<string, Function>): (r: map<string, Function>)
    ensures r.Keys == m.Keys + {"COS", "SIN", "TAN"}
    ensures OwnFunctions(m) ==> OwnFunctions(r)
  {
    m
      ["COS" := Function("COS")]
      ["SIN" := Function("SIN")]
      ["TAN" := Function("TAN")]
  }

  /** `m` after the `putFunction` calls for the hyperbolic functions. */
  function WithHyperbolicFunctions(m: map<string, Function>): (r: map<string, Function>)
    ensures r.Keys == m.Keys + {"COSH", "SINH", "TANH"}
    ensures OwnFunctions(m) ==> OwnFunctions(r)
  {
    m
      ["COSH" := Function("COSH")]
      ["SINH" := Function("SINH")]
      ["TANH" := Function("TANH")]
  }

  /** `m` after the `putFunction` calls for the inverse trigonometric functions. */
  function WithInverseTrigonometricFunctions(m: map<string, Function>): (r: map<string, Function>)
    ensures r.Keys == m.Keys + {"ACOS", "ASIN", "ATAN"}
    ensures OwnFunctions(m) ==> OwnFunctions(r)
  {
    m
      ["ACOS" := Function("ACOS")]
      ["ASIN" := Function("ASIN")]
      ["ATAN" := Function("ATAN")]
  }

  /** `m` after the `putFunction` calls for the inverse hyperbolic functions. */
  function WithInverseHyperbolicFunctions(m: map<string, Function>): (r: map<string, Function>)
    ensures r.Keys == m.Keys + {"ACOSH", "ASINH", "ATANH"}
    ensures OwnFunctions(m) ==> OwnFunctions(r)
  {
    m
      ["ACOSH" := Function("ACOSH")]
      ["ASINH" := Function("ASINH")]
      ["ATANH" := Function("ATANH")]
  }

  /** `m` after the 26 `putFunction` calls of `addDefaultFunctions`, in their order. */
  function WithDefaultFunctions(m: map<string, Function>): map<string, Function> {
    WithInverseHyperbolicFunctions(WithInverseTrigonometricFunctions(WithHyperbolicFunctions(
      WithTrigonometricFunctions(WithOtherFunctions(WithRootFunctions(WithNeperFunctions(m)))))))
  }

  /** The function registry the constructor leaves behind. */
  function DefaultFunctionMap(): map<string, Function> {
    WithDefaultFunctions(map[])
  }

  /** No two elements of `s` are equal. */
  predicate Distinct<T(==)>(s: seq<T>) {
    forall i, j :: 0 <= i < j < |s| ==> s[i] != s[j]
  }

  /** A sequence without repetitions has as many elements as the set of its elements. */
  lemma {:induction false} DistinctCardinality<T>(s: seq<T>)
    requires Distinct(s)
    ensures |set x | x in s| == |s|
  {
    if s != [] {
      var rest := s[1..];
      assert Distinct(rest) by {
        forall i, j | 0 <= i < j < |rest| ensures rest[i] != rest[j] {
          assert rest[i] == s[i + 1] && rest[j] == s[j + 1];
        }
      }
      DistinctCardinality(rest);
      assert s[0] !in rest by {
        forall i | 0 <= i < |rest| ensures rest[i] != s[0] {
          assert rest[i] == s[i + 1];
        }
      }
      assert (set x | x in s) == (set x | x in rest) + {s[0]} by {
        assert s == [s[0]] + rest;
      }
    }
  }

  /** The identifiers the default registry binds: exactly the 26 default ones. */
  lemma DefaultFunctionKeys()
    ensures DefaultFunctionMap().Keys == {"EXP", "LOG", "LOG10", "LOG2", "SQRT", "ROOT", "ABS", "BERNOULLI", "CEILING", "FACTORIAL", "FLOOR", "MAX", "MIN", "RANDOM", "COS", "SIN", "TAN", "COSH", "SINH", "TANH", "ACOS", "ASIN", "ATAN", "ACOSH", "ASINH", "ATANH"}
  {
  }

  /** Each function of the default registry is stored under its own identifier. */
  lemma DefaultOwnFunctions()
    ensures OwnFunctions(DefaultFunctionMap())
  {
  }

  /** The 26 default identifiers, as a set. */
  lemma DefaultIdentifierSet()
    ensures (set id | id in DEFAULT_FUNCTION_IDS) == {"EXP", "LOG", "LOG10", "LOG2", "SQRT", "ROOT", "ABS", "BERNOULLI", "CEILING", "FACTORIAL", "FLOOR", "MAX", "MIN", "RANDOM", "COS", "SIN", "TAN", "COSH", "SINH", "TANH", "ACOS", "ASIN", "ATAN", "ACOSH", "ASINH", "ATANH"}
  {
  }

  /** The default registry holds exactly the 26 identifiers, each bound to its own function. */
  lemma DefaultFunctionEntries()
    ensures DefaultFunctionMap().Keys == set id | id in DEFAULT_FUNCTION_IDS
    ensures OwnFunctions(DefaultFunctionMap())
  {
    DefaultFunctionKeys();
    DefaultIdentifierSet();
    DefaultOwnFunctions();
  }

  /** The constructor registers 26 different functions, so none of its calls replaces another. */
  lemma DefaultFunctionCount()
    ensures |DefaultFunctionMap()| == 26
  {
    assert Distinct(DEFAULT_FUNCTION_IDS);
    DistinctCardinality(DEFAULT_FUNCTION_IDS);
    DefaultFunctionEntries();
  }

  /** Lookup is an exact, case-sensitive match: the inverse sine is registered as "ASIN" only. */
  lemma DefaultLookupIsCaseSensitive()
    ensures "ASIN" in DefaultFunctionMap() && DefaultFunctionMap()["ASIN"] == Function("ASIN")
    ensures "asin" !in DefaultFunctionMap() && "Asin" !in DefaultFunctionMap()
  {
    DefaultFunctionKeys();
    DefaultOwnFunctions();
    OnlyUpperCaseAsin(DefaultFunctionMap());
  }

  lemma OnlyUpperCaseAsin(m: map<string, Function>)
    requires m.Keys == {"EXP", "LOG", "LOG10", "LOG2", "SQRT", "ROOT", "ABS", "BERNOULLI", "CEILING", "FACTORIAL", "FLOOR", "MAX", "MIN", "RANDOM", "COS", "SIN", "TAN", "COSH", "SINH", "TANH", "ACOS", "ASIN", "ATAN", "ACOSH", "ASINH", "ATANH"}
    ensures "ASIN" in m && "asin" !in m && "Asin" !in m
  {
  }

  class ExpressionEvaluator {
    /** The variables, keyed by identifier. */
    var variables: map<string, Variable>
    /** The functions, keyed by identifier. */
    var functions: map<string, Function>

    /** Every entry is stored under its own identifier. */
    ghost predicate Valid()
      reads this
    {
      && (forall id :: id in variables ==> variables[id].identifier == id)
      && (forall id :: id in functions ==> functions[id].identifier == id)
    }

    /** A new evaluator with the variables "pi" and "e" (whose decimal values come from outside this
        model) and the 26 default functions. */
    constructor (pi: Dec, e: Dec)
      ensures Valid()
      ensures variables == map["pi" := Variable("pi", NUMBER, Some(DecimalValue(pi))),
                               "e" := Variable("e", NUMBER, Some(DecimalValue(e)))]
      ensures functions == DefaultFunctionMap()
    {
      variables := map[];
      functions := map[];
      new;
      AddDefaultVariables(pi, e);
      AddDefaultFunctions();
    }

    /** `evaluate(expression, context)`: a stopped context gives the interruption atom without
        evaluating anything; otherwise the expression's own evaluation. */
    function Evaluate(e: Expression, ctx: EvaluationContext, leaf: nat -> Atom,
                      round: (MathContext, Dec) -> Dec): (r: Evaluation)
      ensures ctx.stopped ==> r.atom == NewInterruption() && r.visited == []
      ensures !ctx.stopped ==> r == Expressions.Evaluate(e, ctx, leaf, round)
      ensures !ctx.stopped ==> r.visited == Leaves(e)
    {
      EvaluateVisitsEveryLeaf(e, ctx, leaf, round);
      if ctx.stopped then Evaluation(NewInterruption(), [])
      else Expressions.Evaluate(e, ctx, leaf, round)
    }

    /** `getVariable(identifier)`; `None` for an identifier without a binding. */
    function GetVariable(identifier: string): (r: Option<Variable>)
      reads this
      requires Valid()
      ensures r.Some? <==> HasVariable(identifier)
      ensures r.Some? ==> r.value.identifier == identifier
    {
      if identifier in variables then Some(variables[identifier]) else None
    }

    function HasVariable(identifier: string): bool
      reads this
    {
      identifier in variables
    }

    /** `putVariable(variable)`: binds it under its identifier, silently replacing any earlier
        binding; the function registry is untouched. */
    method PutVariable(v: Variable)
      requires Valid()
      modifies this
      ensures Valid()
      ensures variables == old(variables)[v.identifier := v]
      ensures functions == old(functions)
      ensures HasVariable(v.identifier) && GetVariable(v.identifier) == Some(v)
    {
      variables := variables[v.identifier := v];
    }

    /** `removeVariable(identifier)`: drops that one binding, if any. */
    method RemoveVariable(identifier: string)
      requires Valid()
      modifies this
      ensures Valid()
      ensures variables == old(variables) - {identifier}
      ensures functions == old(functions)
      ensures !HasVariable(identifier)
      ensures forall id :: id != identifier ==> GetVariable(id) == old(GetVariable(id))
    {
      variables := variables - {identifier};
    }

    /** `clearVariables()`. */
    method ClearVariables()
      requires Valid()
      modifies this
      ensures Valid()
      ensures variables == map[] && functions == old(functions)
    {
      variables := map[];
    }

    /** `getVariables()`: every stored variable once, in some order. */
    method GetVariables() returns (vs: seq<Variable>)
      requires Valid()
      ensures |vs| == |variables|
      ensures forall i :: 0 <= i < |vs| ==> vs[i].identifier in variables && variables[vs[i].identifier] == vs[i]
      ensures forall id :: id in variables ==> variables[id] in vs
      ensures Distinct(vs)
    {
      var pending := variables.Keys;
      vs := [];
      while pending != {}
        invariant pending <= variables.Keys
        invariant |vs| + |pending| == |variables.Keys|
        invariant forall i :: 0 <= i < |vs| ==>
                    vs[i].identifier in variables.Keys - pending && variables[vs[i].identifier] == vs[i]
        invariant forall id :: id in variables.Keys - pending ==> variables[id] in vs
        invariant Distinct(vs)
        decreases |pending|
      {
        var id :| id in pending;
        vs := vs + [variables[id]];
        pending := pending - {id};
      }
    }

    /** `getFunction(identifier)`; `None` for an identifier without a binding. */
    function GetFunction(identifier: string): (r: Option<Function>)
      reads this
      requires Valid()
      ensures r.Some? <==> HasFunction(identifier)
      ensures r.Some? ==> r.value.identifier == identifier
    {
      if identifier in functions then Some(functions[identifier]) else None
    }

    function HasFunction(identifier: string): bool
      reads this
    {
      identifier in functions
    }

    /** `putFunction(function)`: binds it under its identifier, replacing any earlier binding; the
        variable registry is untouched. */
    method PutFunction(f: Function)
      requires Valid()
      modifies this
      ensures Valid()
      ensures functions == old(functions)[f.identifier := f]
      ensures variables == old(variables)
      ensures HasFunction(f.identifier) && GetFunction(f.identifier) == Some(f)
    {
      functions := functions[f.identifier := f];
    }

    /** `removeFunction(identifier)`. */
    method RemoveFunction(identifier: string)
      requires Valid()
      modifies this
      ensures Valid()
      ensures functions == old(functions) - {identifier}
      ensures variables == old(variables)
      ensures !HasFunction(identifier)
      ensures forall id :: id != identifier ==> GetFunction(id) == old(GetFunction(id))
    {
      functions := functions - {identifier};
    }

    /** `clearFunctions()`. */
    method ClearFunctions()
      requires Valid()
      modifies this
      ensures Valid()
      ensures functions == map[] && variables == old(variables)
    {
      functions := map[];
    }

    /** `getFunctions()`: every stored function once, in some order. */
    method GetFunctions() returns (fs: seq<Function>)
      requires Valid()
      ensures |fs| == |functions|
      ensures forall i :: 0 <= i < |fs| ==> fs[i].identifier in functions && functions[fs[i].identifier] == fs[i]
      ensures forall id :: id in functions ==> functions[id] in fs
      ensures Distinct(fs)
    {
      var pending := functions.Keys;
      fs := [];
      while pending != {}
        invariant pending <= functions.Keys
        invariant |fs| + |pending| == |functions.Keys|
        invariant forall i :: 0 <= i < |fs| ==>
                    fs[i].identifier in functions.Keys - pending && functions[fs[i].identifier] == fs[i]
        invariant forall id :: id in functions.Keys - pending ==> functions[id] in fs
        invariant Distinct(fs)
        decreases |pending|
      {
        var id :| id in pending;
        fs := fs + [functions[id]];
        pending := pending - {id};
      }
    }

    /** `addDefaultVariables()`: "pi" and "e" as number variables. */
    method AddDefaultVariables(pi: Dec, e: Dec)
      requires Valid()
      modifies this
      ensures Valid()
      ensures variables == old(variables)["pi" := Variable("pi", NUMBER, Some(DecimalValue(pi)))]
                                         ["e" := Variable("e", NUMBER, Some(DecimalValue(e)))]
      ensures functions == old(functions)
    {
      PutVariable(Variable("pi", NUMBER, Some(DecimalValue(pi))));
      PutVariable(Variable("e", NUMBER, Some(DecimalValue(e))));
    }

    /** `addDefaultFunctions()`: the 26 default functions, one `putFunction` each. */
    method AddDefaultFunctions()
      requires Valid()
      modifies this
      ensures Valid()
      ensures functions == WithDefaultFunctions(old(functions))
      ensures variables == old(variables)
    {
      PutFunction(Function("EXP"));
      PutFunction(Function("LOG"));
      PutFunction(Function("LOG10"));
      PutFunction(Function("LOG2"));
      PutFunction(Function("SQRT"));
      PutFunction(Function("ROOT"));
      PutFunction(Function("ABS"));
      PutFunction(Function("BERNOULLI"));
      PutFunction(Function("CEILING"));
      PutFunction(Function("FACTORIAL"));
      PutFunction(Function("FLOOR"));
      PutFunction(Function("MAX"));
      PutFunction(Function("MIN"));
      PutFunction(Function("RANDOM"));
      PutFunction(Function("COS"));
      PutFunction(Function("SIN"));
      PutFunction(Function("TAN"));
      PutFunction(Function("COSH"));
      PutFunction(Function("SINH"));
      PutFunction(Function("TANH"));
      PutFunction(Function("ACOS"));
      PutFunction(Function("ASIN"));
      PutFunction(Function("ATAN"));
      PutFunction(Function("ACOSH"));
      PutFunction(Function("ASINH"));
      PutFunction(Function("ATANH"));
    }
  }

  /** Stopping is observable for every operator node: it gives the interruption atom, which such a
      node never produces when it runs. */
  lemma {:induction false} StopIsObservable(ev: ExpressionEvaluator, e: Expression, mc: MathContext,
                                           leaf: nat -> Atom, round: (MathContext, Dec) -> Dec)
    requires !e.Leaf?
    ensures ev.Evaluate(e, EvaluationContext(mc, true), leaf, round).atom
         != ev.Evaluate(e, EvaluationContext(mc, false), leaf, round).atom
  {
    NodesDoNotPropagateInterruption(e, EvaluationContext(mc, false), leaf, round);
  }
}
