# Algogo language core and editor helpers, in Dafny

Algogo is an educational pseudo-code environment. This project models its language core and a few editor helpers:

- the interruption atom and the four operator nodes of the expression language: additive, unary minus, AND and OR;
- the expression evaluator, with its variable and function registries and its stop check;
- the print-variable statement and the ELSE block;
- the `Algorithm` root, with its defaults, the section check after parsing and the split of the header credits;
- the editor's line helpers (`AlgoLineUtils`);
- the string utilities `escapeHTML`, `join`, `isAlpha` and `getNodeContent`, in the desktop copy and the mobile copy.

Decimals are `Dec(unscaled, scale)`, as `BigDecimal` stores them. That keeps three things observable:

- `equals(ONE)` compares the scale;
- `toPlainString` keeps trailing zeros;
- `negate` keeps the scale.

Rounding under a `MathContext` is a function parameter `round`. Java strings are sequences of UTF-16 code units. The model reads a Dafny string through `Utf16`, where a character outside the Basic Multilingual Plane is a surrogate pair, so every loop over `charAt` walks code units, as Java does.

Modules, one per file:

- `Wrappers`: `Option` and `Result`.
- `Sequences`: `FlatMap` and its laws.
- `Digits`: decimal digit strings.
- `Decimal`: `Dec` and its value.
- `DecimalText`: `toPlainString` and reading it back.
- `Atoms`.
- `Expressions`.
- `Evaluator`: class `ExpressionEvaluator`.
- `Statements`.
- `Algorithms`: class `Algorithm`.
- `HtmlEscape`: the escaping both copies of `escapeHTML` share.
- `DesktopUtils`: the loops of the desktop utilities, and class `StringBuilder`.
- `MobileUtils`.
- `AlgoLineUtils`.

Four behaviours of the code are worth stating, since a reader of the language might expect otherwise; the model follows the code in each:

- Interruption does not propagate through operators. Every node evaluates both children unconditionally, and only `ExpressionEvaluator.evaluate` checks the stop flag, once, at entry. A child's interruption atom reaches `AdditiveExpression` and the others as an ordinary non-number, and they turn it into `NumberAtom.ZERO` or false. `Expressions.NodesDoNotPropagateInterruption` and `Evaluator.StopIsObservable` state this.
- `+` concatenates only two strings. A string and a number, or anything with an interruption, give `NumberAtom.ZERO` (AdditiveExpression.java:34-39). `Expressions.AdditiveOf` states this.
- A printed number keeps its trailing zeros, because `toPlainString` shows exactly `scale` digits after the point (PrintVariableStatement.java:84). `DecimalText.PlainStringKeepsScaleDigits` states this.
- Function identifiers match exactly, case included, because the registry is a map keyed by the identifier (ExpressionEvaluator.java:179-181). `Evaluator.DefaultLookupIsCaseSensitive` states this.

## Model

| member | source | states |
|---|---|---|
| Atoms.NewInterruption | core/src/main/java/xyz/algogo/core/evaluator/atom/InterruptionAtom.java:14-16 | a new interruption atom has the interruption type and always carries the Integer -1 |
| Atoms.GetValue | core/src/main/java/xyz/algogo/core/evaluator/atom/InterruptionAtom.java:14-15 | an atom's value is a decimal exactly for number atoms, a string exactly for string atoms, and an Integer exactly for the interruption atom |
| Atoms.CopyInterruption | core/src/main/java/xyz/algogo/core/evaluator/atom/InterruptionAtom.java:24-26 | a copy is again an interruption atom, carries -1, and has the same type as its original |
| Atoms.InterruptionSameTypeExactly | core/src/main/java/xyz/algogo/core/evaluator/atom/InterruptionAtom.java:19-21 | `hasSameType(a)` on an interruption holds iff `a` is the interruption atom, iff `a`'s value is an Integer, and then that value is -1; the receiver plays no role |
| Atoms.BooleanAtom | core/src/main/java/xyz/algogo/core/evaluator/expression/AndExpression.java:32 | a boolean atom is a number atom of scale 0 whose value equals ONE iff the boolean is true |
| Atoms.IsOneExactly | core/src/main/java/xyz/algogo/core/evaluator/expression/AndExpression.java:32 | `getValue().equals(BigDecimal.ONE)` holds for exactly one atom, the number Dec(1, 0) |
| Decimal.Negate | core/src/main/java/xyz/algogo/core/evaluator/expression/UnaryMinusExpression.java:60 | `negate()` keeps the scale and the magnitude and gives the opposite value |
| Decimal.NegateTwice | core/src/main/java/xyz/algogo/core/evaluator/expression/UnaryMinusExpression.java:60 | negating twice gives back the same decimal, scale included |
| Decimal.Sum | core/src/main/java/xyz/algogo/core/evaluator/expression/AdditiveExpression.java:47 | the exact sum before rounding has the larger scale and the sum of the values |
| Decimal.Difference | core/src/main/java/xyz/algogo/core/evaluator/expression/AdditiveExpression.java:49 | the exact difference before rounding has the larger scale and left value minus right value |
| Decimal.ScaledOneIsNotOne | core/src/main/java/xyz/algogo/core/evaluator/expression/AndExpression.java:32 | 1.0 has the value of ONE but is not equal to it |
| Expressions.Evaluate | core/src/main/java/xyz/algogo/core/evaluator/expression/AdditiveExpression.java:30-53 | the `evaluate` of the four operator nodes: both children are evaluated, left then right, and their atoms are combined by `AdditiveOf`, `UnaryMinusOf`, `AndOf` or `OrOf`; the lemmas below state what that gives |
| Expressions.AdditiveOf | core/src/main/java/xyz/algogo/core/evaluator/expression/AdditiveExpression.java:34-52 | the result is a string iff both operands are strings and the operator is "+", and then it is left + right; a non-zero number needs two number operands; an interruption operand gives ZERO |
| Expressions.AdditiveOfNumbers | core/src/main/java/xyz/algogo/core/evaluator/expression/AdditiveExpression.java:42-52 | on two numbers, "+" rounds (under the context's MathContext) a decimal whose value is the sum, "-" one whose value is the difference, both at the larger scale; any other operator gives ZERO |
| Expressions.UnaryMinusOf | core/src/main/java/xyz/algogo/core/evaluator/expression/UnaryMinusExpression.java:53-61 | the result is always a number: the exact negation (same scale, no rounding) of a number operand, ZERO for a string or an interruption |
| Expressions.UnaryMinusTwice | core/src/main/java/xyz/algogo/core/evaluator/expression/UnaryMinusExpression.java:60 | two unary minuses over a number atom give back that same atom |
| Expressions.DoubleUnaryMinus | core/src/main/java/xyz/algogo/core/evaluator/expression/UnaryMinusExpression.java:53-61 | evaluating `-(-e)` gives exactly what `e` gives whenever that is a number |
| Expressions.AndOf | core/src/main/java/xyz/algogo/core/evaluator/expression/AndExpression.java:28-33 | AND of two evaluated operands: the boolean atom of "both values equal ONE"; `AndTruth` states what it means |
| Expressions.OrOf | core/src/main/java/xyz/algogo/core/evaluator/expression/OrExpression.java:27-32 | OR of two evaluated operands: the boolean atom of "either value equals ONE"; `OrTruth` states what it means |
| Expressions.AndTruth | core/src/main/java/xyz/algogo/core/evaluator/expression/AndExpression.java:28-33 | AND is true iff both operands are the number Dec(1, 0), and false (ZERO) otherwise |
| Expressions.OrTruth | core/src/main/java/xyz/algogo/core/evaluator/expression/OrExpression.java:27-32 | OR is true iff at least one operand is the number Dec(1, 0), and false (ZERO) otherwise |
| Expressions.OnlyUnscaledOneIsTrue | core/src/main/java/xyz/algogo/core/evaluator/expression/AndExpression.java:32 | 1.0 makes AND false whatever the other operand is; 1.0 with the string "1" makes OR false, and so do two interruptions |
| Expressions.EvaluateVisitsEveryLeaf | core/src/main/java/xyz/algogo/core/evaluator/expression/AdditiveExpression.java:31-32 | no node short-circuits: evaluation visits every leaf exactly once, left operand before right, whatever the atoms are |
| Expressions.NodesDoNotPropagateInterruption | core/src/main/java/xyz/algogo/core/evaluator/expression/AdditiveExpression.java:34-40 | an additive, unary minus, AND or OR node never returns the interruption atom |
| Expressions.Copy | core/src/main/java/xyz/algogo/core/evaluator/expression/AdditiveExpression.java:56-58 | a deep copy is equal to the original: same operators, copied children |
| Expressions.Operator | core/src/main/java/xyz/algogo/core/evaluator/expression/AndExpression.java:23-25 | the operator token of an AND node is "&&" and that of an OR node "\|\|" |
| Expressions.AndToLanguage | core/src/main/java/xyz/algogo/core/evaluator/expression/AndExpression.java:36-38 | `toLanguage` is the language's translation of the AND node itself |
| Evaluator.ExpressionEvaluator.constructor | core/src/main/java/xyz/algogo/core/evaluator/ExpressionEvaluator.java:63-66 | a new evaluator holds exactly the variables "pi" and "e" and the default function registry |
| Evaluator.ExpressionEvaluator.Evaluate | core/src/main/java/xyz/algogo/core/evaluator/ExpressionEvaluator.java:101-107 | a stopped context gives the interruption atom and evaluates no leaf; otherwise the result is the expression's own evaluation, which visits every leaf |
| Evaluator.StopIsObservable | core/src/main/java/xyz/algogo/core/evaluator/ExpressionEvaluator.java:101-107 | for an operator node, the stopped result always differs from the running result |
| Evaluator.ExpressionEvaluator.GetVariable | core/src/main/java/xyz/algogo/core/evaluator/ExpressionEvaluator.java:117-119 | a variable is found iff `hasVariable` holds, and it carries the identifier asked for |
| Evaluator.ExpressionEvaluator.PutVariable | core/src/main/java/xyz/algogo/core/evaluator/ExpressionEvaluator.java:127-129 | binds the variable under its identifier and silently replaces an earlier binding; afterwards `getVariable` returns it; functions are unchanged |
| Evaluator.ExpressionEvaluator.RemoveVariable | core/src/main/java/xyz/algogo/core/evaluator/ExpressionEvaluator.java:149-151 | afterwards `hasVariable(id)` is false, every other lookup is unchanged, and so are the functions |
| Evaluator.ExpressionEvaluator.ClearVariables | core/src/main/java/xyz/algogo/core/evaluator/ExpressionEvaluator.java:157-159 | empties the variables and leaves the functions |
| Evaluator.ExpressionEvaluator.GetVariables | core/src/main/java/xyz/algogo/core/evaluator/ExpressionEvaluator.java:167-169 | returns every stored variable exactly once and nothing else |
| Evaluator.ExpressionEvaluator.GetFunction | core/src/main/java/xyz/algogo/core/evaluator/ExpressionEvaluator.java:179-181 | a function is found iff `hasFunction` holds, and it carries the identifier asked for |
| Evaluator.ExpressionEvaluator.PutFunction | core/src/main/java/xyz/algogo/core/evaluator/ExpressionEvaluator.java:189-191 | binds the function under its identifier and replaces an earlier binding; variables are unchanged |
| Evaluator.ExpressionEvaluator.RemoveFunction | core/src/main/java/xyz/algogo/core/evaluator/ExpressionEvaluator.java:211-213 | afterwards `hasFunction(id)` is false; every other lookup and the variables are unchanged |
| Evaluator.ExpressionEvaluator.ClearFunctions | core/src/main/java/xyz/algogo/core/evaluator/ExpressionEvaluator.java:219-221 | empties the functions and leaves the variables |
| Evaluator.ExpressionEvaluator.GetFunctions | core/src/main/java/xyz/algogo/core/evaluator/ExpressionEvaluator.java:229-231 | returns every stored function exactly once and nothing else |
| Evaluator.ExpressionEvaluator.AddDefaultVariables | core/src/main/java/xyz/algogo/core/evaluator/ExpressionEvaluator.java:237-240 | binds "pi" and "e" as number variables; functions are unchanged |
| Evaluator.ExpressionEvaluator.AddDefaultFunctions | core/src/main/java/xyz/algogo/core/evaluator/ExpressionEvaluator.java:246-279 | the 26 `putFunction` calls, in their order; variables are unchanged |
| Evaluator.DefaultFunctionEntries | core/src/main/java/xyz/algogo/core/evaluator/ExpressionEvaluator.java:246-279 | the default registry binds exactly the 26 default identifiers, each to its own function |
| Evaluator.DefaultFunctionCount | core/src/main/java/xyz/algogo/core/evaluator/ExpressionEvaluator.java:246-279 | the default registry has 26 entries, so none of the calls replaces another |
| Evaluator.DefaultLookupIsCaseSensitive | core/src/main/java/xyz/algogo/core/evaluator/ExpressionEvaluator.java:179-181 | the inverse sine is found under "ASIN" but not under "asin" or "Asin" |
| DecimalText.ToPlainString | core/src/main/java/xyz/algogo/core/statement/simple/io/PrintVariableStatement.java:84 | `BigDecimal.toPlainString()` on the unscaled value and the scale; the three lemmas below state its properties |
| DecimalText.PlainStringRoundTrip | core/src/main/java/xyz/algogo/core/statement/simple/io/PrintVariableStatement.java:84 | plain notation of a decimal of non-negative scale reads back as the very same decimal, scale included |
| DecimalText.PlainStringHasNoExponent | core/src/main/java/xyz/algogo/core/statement/simple/io/PrintVariableStatement.java:84 | plain notation contains only digits, '-' and '.' |
| DecimalText.PlainStringKeepsScaleDigits | core/src/main/java/xyz/algogo/core/statement/simple/io/PrintVariableStatement.java:84 | with a positive scale, exactly `scale` characters follow the point, trailing zeros included |
| Statements.StatementId | core/src/main/java/xyz/algogo/core/statement/simple/io/PrintVariableStatement.java:99-101 | the tag is 7 iff the statement prints a variable, and 10 iff it is an ELSE block |
| Statements.NewElseBlock | core/src/main/java/xyz/algogo/core/statement/block/conditional/ElseBlock.java:24-26 | an ELSE block holds the given children, in order, and has tag 10 |
| Statements.Copy | core/src/main/java/xyz/algogo/core/statement/block/conditional/ElseBlock.java:34-36 | a copy of any statement equals it: the same ELSE block from copied children, and the same identifier, message and line-break flag for a print statement |
| Statements.CopyStatements | core/src/main/java/xyz/algogo/core/statement/block/conditional/ElseBlock.java:35 | `copyStatements()` equals the children, in order |
| Statements.ValidatePrintVariable | core/src/main/java/xyz/algogo/core/statement/simple/io/PrintVariableStatement.java:94-96 | `validate()` never reports an error |
| Statements.EvaluatePrintVariable | core/src/main/java/xyz/algogo/core/statement/simple/io/PrintVariableStatement.java:65-91 | an undeclared identifier prints nothing and gives InvalidIdentifier; a message step that fails is returned after its output; a null value gives InvalidVariableValue after the message; otherwise the formatted value, with the separator iff line break is set, is printed once and there is no error |
| Statements.FormatValue | core/src/main/java/xyz/algogo/core/statement/simple/io/PrintVariableStatement.java:84 | a decimal value prints in plain notation, any other value by its `toString()`; `PrintedDecimalReadsBack` states what a printed decimal keeps |
| Statements.PrintedDecimalReadsBack | core/src/main/java/xyz/algogo/core/statement/simple/io/PrintVariableStatement.java:84 | a printed decimal of non-negative scale reads back as the same decimal and shows `scale` digits after its point |
| Statements.ListByKindMatches | core/src/main/java/xyz/algogo/core/Algorithm.java:235-236 | every statement `listStatementsById` returns has the requested kind |
| Statements.ListByKindAppend | core/src/main/java/xyz/algogo/core/Algorithm.java:235-236 | the listing of a concatenation is the concatenation of the listings |
| Algorithms.Algorithm.constructor | core/src/main/java/xyz/algogo/core/Algorithm.java:72-75 | a null title becomes "Untitled" and a null author "Anonymous"; the root is VARIABLES, BEGINNING, END |
| Algorithms.Algorithm.SetTitle | core/src/main/java/xyz/algogo/core/Algorithm.java:93-99 | null stores "Untitled"; any other title, "" included, is stored as given |
| Algorithms.Algorithm.SetAuthor | core/src/main/java/xyz/algogo/core/Algorithm.java:117-123 | null stores "Anonymous"; any other author is stored as given |
| Algorithms.Algorithm.Evaluate | core/src/main/java/xyz/algogo/core/Algorithm.java:191-193 | the result is the root block's evaluation |
| Algorithms.Algorithm.ToLanguage | core/src/main/java/xyz/algogo/core/Algorithm.java:203-205 | the result is the language's translation of the whole algorithm |
| Algorithms.Algorithm.Parse | core/src/main/java/xyz/algogo/core/Algorithm.java:217-256 | fails with the fixed message iff the root lacks exactly one VARIABLES and exactly one BEGINNING; a matching header sets title and author; a non-matching header becomes the first statement and the defaults stay; without a header the defaults stay |
| Algorithms.HasRootSections | core/src/main/java/xyz/algogo/core/Algorithm.java:235-240 | the check after parsing: exactly one VARIABLES block and exactly one BEGINNING block in the root; `DefaultRootHasSections`, `EndIsNotChecked` and `CommentKeepsSections` state its properties |
| Algorithms.MatchCredits | core/src/main/java/xyz/algogo/core/Algorithm.java:245-246 | the `(.*) by (.*)` match of the credits: none when a line terminator occurs, otherwise the split at the last " by "; `CreditsMatchSplits`, `SplittableCreditsMatch` and `CreditsSplitIsGreedy` state what it means |
| Algorithms.LastSeparator | core/src/main/java/xyz/algogo/core/Algorithm.java:245 | finds the last " by " in the credits, and finds none iff there is none |
| Algorithms.CreditsMatchSplits | core/src/main/java/xyz/algogo/core/Algorithm.java:245-249 | a match splits the credits as title + " by " + author, with no line terminator in either and no " by " starting after the title |
| Algorithms.SplittableCreditsMatch | core/src/main/java/xyz/algogo/core/Algorithm.java:245-246 | any title and author without line terminators, joined by " by ", match |
| Algorithms.CreditsSplitIsGreedy | core/src/main/java/xyz/algogo/core/Algorithm.java:245-248 | of all splits around a " by ", the match keeps the longest title |
| Algorithms.DefaultRootHasSections | core/src/main/java/xyz/algogo/core/Algorithm.java:45 | the default root passes the section check |
| Algorithms.EndIsNotChecked | core/src/main/java/xyz/algogo/core/Algorithm.java:235-240 | the section check ignores END blocks: with none or with several, it passes |
| Algorithms.CommentKeepsSections | core/src/main/java/xyz/algogo/core/Algorithm.java:250-252 | inserting the header comment in front changes nothing for the section check |
| HtmlEscape.CodeUnits | src/fr/skyost/algo/desktop/utils/Utils.java:44-45 | a character is one code unit (itself) iff it is in the Basic Multilingual Plane, and otherwise a high and a low surrogate |
| HtmlEscape.EscapeUnit | src/fr/skyost/algo/desktop/utils/Utils.java:46-53 | the output for one code unit starts with '&' iff that unit needs escaping |
| HtmlEscape.Escape | src/fr/skyost/algo/desktop/utils/Utils.java:42-56 | the escaped form of a string, character by character; the lemmas below state that it is safe, injective, length-increasing and equal to the code-unit walk |
| HtmlEscape.UnitwiseIsCharwise | src/fr/skyost/algo/desktop/utils/Utils.java:44-54 | escaping the code units one by one is escaping the characters one by one |
| HtmlEscape.EscapeAppend | src/fr/skyost/algo/desktop/utils/Utils.java:44-54 | escaping distributes over concatenation |
| HtmlEscape.EscapeIsSafe | src/fr/skyost/algo/desktop/utils/Utils.java:46-53 | the output is pure ASCII and holds no `<`, `>` or `"` |
| HtmlEscape.PlainIsUnchanged | src/fr/skyost/algo/desktop/utils/Utils.java:51-53 | a string of ASCII characters other than `"` `<` `>` `&` (the apostrophe included) is returned unchanged |
| HtmlEscape.EscapeLength | mobile/src/main/java/xyz/algogo/mobile/utils/Utils.java:82-92 | the output is never shorter than the input, counted in UTF-16 code units as `length()` counts them |
| HtmlEscape.AstralCharIsTwoUnits | mobile/src/main/java/xyz/algogo/mobile/utils/Utils.java:82-92 | a character outside the Basic Multilingual Plane is two code units long, so counting characters would undercount `length()` |
| HtmlEscape.EscapeIsInjective | src/fr/skyost/algo/desktop/utils/Utils.java:44-54 | two strings with the same escaped form are equal |
| HtmlEscape.CharPrefix | src/fr/skyost/algo/desktop/utils/Utils.java:46-49 | the escaped form of one character is never a proper prefix of that of another: each "&#digits;" group ends at its ';' |
| DesktopUtils.EscapeHtml | src/fr/skyost/algo/desktop/utils/Utils.java:42-56 | the loop over the code units returns the escaped form of the string, which is safe |
| MobileUtils.EscapeHtml | mobile/src/main/java/xyz/algogo/mobile/utils/Utils.java:80-94 | the mobile loop returns the same escaped form as the desktop copy, and it is no shorter than the input in UTF-16 code units |
| DesktopUtils.Join | src/fr/skyost/algo/desktop/utils/Utils.java:67-74 | fails with index -1 iff there are no strings; otherwise gives the strings with the joiner between each two |
| DesktopUtils.JoinSpec | src/fr/skyost/algo/desktop/utils/Utils.java:67-74 | the strings with the joiner between each two; `SplitJoin` gives its inverse and `JoinLength` its length |
| DesktopUtils.TerminatedIsJoined | src/fr/skyost/algo/desktop/utils/Utils.java:69-72 | the loop's output is the joined strings plus one joiner, which `setLength` removes |
| DesktopUtils.SplitJoin | src/fr/skyost/algo/desktop/utils/Utils.java:67-74 | splitting at the joiner gives back the strings when none of them contains it |
| DesktopUtils.JoinLength | src/fr/skyost/algo/desktop/utils/Utils.java:67-74 | the joined length is the strings' total length plus one less than their number |
| DesktopUtils.IsAlpha | src/fr/skyost/algo/desktop/utils/Utils.java:137-144 | true iff every UTF-16 code unit of the string is a letter, so "" gives true |
| DesktopUtils.Alpha | src/fr/skyost/algo/desktop/utils/Utils.java:137-144 | every UTF-16 code unit of the string is a letter; `IsAlpha` is proved to compute it |
| DesktopUtils.AlphaByCharacter | src/fr/skyost/algo/desktop/utils/Utils.java:137-144 | with a letter test that rejects surrogates, a string is alpha iff every character is in the Basic Multilingual Plane and is a letter |
| DesktopUtils.StringBuilder.Append | src/fr/skyost/algo/desktop/utils/Utils.java:160 | `append` adds the text at the end |
| DesktopUtils.StringBuilder.Delete | src/fr/skyost/algo/desktop/utils/Utils.java:164 | `delete(start, end)` removes that range, with an end past the length stopping at the length |
| DesktopUtils.StringBuilder.ToString | src/fr/skyost/algo/desktop/utils/Utils.java:162 | `toString` returns the buffer's contents |
| DesktopUtils.GetNodeContent | src/fr/skyost/algo/desktop/utils/Utils.java:155-167 | returns the node's dump, each child prefixed by the shared buffer as the earlier children left it; the buffer ends shifted by two blanks per node with children |
| DesktopUtils.Out | src/fr/skyost/algo/desktop/utils/Utils.java:155-167 | the dump of a node for a given starting buffer: its text, the separator, then each child after the buffer as the earlier children left it; `GetNodeContent` is proved to compute it and `NodeContentLines` relates it to a pre-order listing |
| DesktopUtils.NodeContentLines | src/fr/skyost/algo/desktop/utils/Utils.java:155-167 | with a blank buffer the dump is one line per node in pre-order, ending in the separator: the root unprefixed, a node at depth k >= 1 after the buffer and 2k blanks |
| DesktopUtils.BlankBufferIsRestored | src/fr/skyost/algo/desktop/utils/Utils.java:160-164 | a buffer of blanks is left exactly as it was found |
| AlgoLineUtils.IfFollowedByElse | src/xyz/algogo/desktop/utils/AlgoLineUtils.java:26-28 | true iff the line is an IF whose second argument is "true" in any case; an IF with fewer than two arguments faults at index 1; other lines are false |
| AlgoLineUtils.TrueInAnyCase | src/xyz/algogo/desktop/utils/AlgoLineUtils.java:27 | "TRUE" and "tRuE" count as true; "1" and "trues" do not; a WHILE line is never followed by ELSE |
| AlgoLineUtils.KeywordColor | src/xyz/algogo/desktop/utils/AlgoLineUtils.java:91-93 | every keyword is coloured "#D35400" |
| AlgoLineUtils.InstructionColor | src/xyz/algogo/desktop/utils/AlgoLineUtils.java:103-114 | "#22313F" iff the instruction is one of the five simple ones, "#3498DB" iff it is IF, ELSE, WHILE or FOR, and never the keyword colour |
| AlgoLineUtils.Validate | src/xyz/algogo/desktop/utils/AlgoLineUtils.java:126-160 | the method, with its loop over the FOR arguments, returns the decision table of `validate` |
| AlgoLineUtils.Validation | src/xyz/algogo/desktop/utils/AlgoLineUtils.java:126-160 | the decision table of `validate`, one case per instruction, FOR falling through to the existence check, faults for missing arguments; `Validate` is proved to compute it |
| AlgoLineUtils.ExistenceCheck | src/xyz/algogo/desktop/utils/AlgoLineUtils.java:149-159 | with a non-null list, "variabledoesnotexist" iff the first argument is not in it; nothing with a null list |
| AlgoLineUtils.NameCheckComesFirst | src/xyz/algogo/desktop/utils/AlgoLineUtils.java:128-131 | a reserved, non-alphabetic or empty name gives "notalpha" even when the list already holds it; "" gives "notalpha" although it is alphabetic |
| AlgoLineUtils.CreateVariableChecksDuplicates | src/xyz/algogo/desktop/utils/AlgoLineUtils.java:132-135 | with a valid name, "alreadyexists" iff a non-null list holds the name; a null list accepts it |
| AlgoLineUtils.FirstArgumentRequired | src/xyz/algogo/desktop/utils/AlgoLineUtils.java:136-142 | SHOW_MESSAGE, IF and WHILE give "fillfields" iff the first argument is empty, and are otherwise valid |
| AlgoLineUtils.ForEmptyArgument | src/xyz/algogo/desktop/utils/AlgoLineUtils.java:143-148 | an empty FOR argument, at any position, gives "fillfields" before any existence check |
| AlgoLineUtils.ForFallsThrough | src/xyz/algogo/desktop/utils/AlgoLineUtils.java:143-155 | with every argument filled, FOR falls through to the existence check: "variabledoesnotexist" iff the list lacks the loop variable |
| AlgoLineUtils.NullListSkipsExistence | src/xyz/algogo/desktop/utils/AlgoLineUtils.java:149-159 | a null list never yields "alreadyexists" or "variabledoesnotexist"; the variable instructions and ELSE are then accepted |
| AlgoLineUtils.Put | src/xyz/algogo/desktop/utils/AlgoLineUtils.java:176 | `LinkedHashMap.put` keeps each key once, replaces the value and never reorders or drops a key |
| AlgoLineUtils.VariablesMap | src/xyz/algogo/desktop/utils/AlgoLineUtils.java:172-179 | the `LinkedHashMap` built by one `put` per (name, value) pair in order; the three lemmas below state its keys, values and key order |
| AlgoLineUtils.VariablesMapKeys | src/xyz/algogo/desktop/utils/AlgoLineUtils.java:172-179 | the table holds each name once, and its keys are exactly the children's names |
| AlgoLineUtils.VariablesMapLastValue | src/xyz/algogo/desktop/utils/AlgoLineUtils.java:176 | a repeated name keeps the value of its last child |
| AlgoLineUtils.VariablesMapOrder | src/xyz/algogo/desktop/utils/AlgoLineUtils.java:174-177 | the keys after the first n children are a prefix of the final keys, so a name keeps its first position |
| AlgoLineUtils.FirstSeenIsAppended | src/xyz/algogo/desktop/utils/AlgoLineUtils.java:176 | a name seen for the first time goes right after the keys already there |
| AlgoLineUtils.GetVariables | src/xyz/algogo/desktop/utils/AlgoLineUtils.java:172-179 | succeeds iff every child has two arguments, with the table of (name, args[1] == "0") pairs in child order; otherwise faults at the first short child with the index it read |
| AlgoLineUtils.GetCustomMessage | src/xyz/algogo/desktop/utils/AlgoLineUtils.java:189-195 | the second argument, only for a READ_VARIABLE line with more than one argument and a non-empty second one; otherwise none |

## Left out

- Lexing and parsing (ANTLR) in `Algorithm.parse`: `Parse` takes the visitor's root block and the header comment's content as inputs.
- `BigDecimalMath.pi` and `e`: the constructor takes their decimal values as parameters.
- `MathContext` rounding: a function parameter of the evaluation, not arithmetic.
- The default functions themselves (including `ASinFunction` and `ACosFunction`): a function is only its identifier. The 26 identifiers are written in upper case after their class names. Only "ASIN" and "ACOS" appear in the source shown.
- Leaf expressions (literals, identifiers, function calls, comparisons): their evaluation is a parameter `leaf`.
- Statement tags other than 7 (print variable) and 10 (ELSE): the VARIABLES, BEGINNING, END and comment classes are not part of this model. They are told apart by kind, and `listStatementsById` is taken to search the whole tree in pre-order.
- `Algorithm.evaluate(inputListener, outputListener, ...)`: these overloads build an evaluator through a two-argument constructor that `ExpressionEvaluator` does not have. Only `evaluate(evaluator, context)` is modelled.
- `Algorithm.getRootBlock`, `getVariablesBlock` and `getBeginningBlock`: the root block class is not part of this model. The title, author and `rootBlock` fields are read directly.
- `ExpressionEvaluator.evaluate(String)` and `evaluate(Expression)`: they parse a string, or create a default context, before the modelled overload.
- The cross-thread stop flag: `isStopped()` is a boolean field of the context.
- `setExpression` and `setIdentifier`: expressions and statements are values, so these setters are not modelled.
- The message step of `PrintStatement`: a parameter that returns the text it printed and its error.
- The output listener: modelled as the list of texts sent to it. `System.getProperty("line.separator")` and `System.lineSeparator()` are parameters.
- Java's `null` strings and null argument arrays are not modelled, except where an `Option` stands for a null title, author, variable list, value or message.
- `AlgoLineUtils.getLine`: HTML built from localized strings.
- The classes `AlgoLine`, `Instruction` and `Keyword` are not part of this model. `Keyword` is taken to be VARIABLES, BEGINNING and END.
- `Heartbeat.hasConstant` and `Character.isLetter`: parameters of `Validate`. `IsAlpha` calls `isLetter` on each UTF-16 code unit.
- IsTrueText: `Boolean.valueOf` compares with "true" ignoring case. The model folds only ASCII letters, which is enough for that comparison, since no other character folds to a letter of "true" under Java's rules for this text.
- The `xyz.algogo.desktop.utils.Utils` that `AlgoLineUtils` calls is not part of this model. The `fr.skyost` copy of `isAlpha` stands in for it.
- DesktopUtils.StringBuilder.Delete: its precondition is Java's condition for not throwing, and the only call, `delete(0, 2)`, always meets it. The thrown exception is not modelled.
- The buffer of `getNodeContent` is one `StringBuilder` object shared by the recursive calls. `Out` specifies the result for every starting buffer. The pre-order line form, `NodeContentLines`, is proved for a buffer of blanks only, since a buffer with other characters is shifted through by the deletions.
- Atoms.BooleanAtom: the class `BooleanAtom` is not part of this model. It is taken to be a number atom holding `BigDecimal.ONE` for true and `BigDecimal.ZERO` for false, both at scale 0, which is what the `equals(BigDecimal.ONE)` tests of AND and OR rely on. `AndTruth` and `OrTruth` on boolean operands depend on this assumption.
- Lone surrogates: a Java string may hold an unpaired surrogate code unit (`escapeHTML("\uD800")` gives "&#55296;"), but a Dafny string cannot. Only well-formed UTF-16 strings are modelled, so such inputs are outside every string contract here.
- The GUI, file I/O, compression, dialogs and URL helpers of both `Utils` classes; EditorFrame.
