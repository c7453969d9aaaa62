/** The line helpers of the desktop editor: the IF/ELSE test, line colours, the validation of a
    new line, the variable table of the VARIABLES line and the prompt of a READ_VARIABLE line. */
module AlgoLineUtils {
  import opened Wrappers
  import opened DesktopUtils
  import HtmlEscape

  const KEYWORD_COLOR: string := "#D35400"
  const INSTRUCTION_COLOR_1: string := "#22313F"
  const INSTRUCTION_COLOR_2: string := "#3498DB"

  const NOT_ALPHA: string := "addline.createvariable.error.notalpha"
  const ALREADY_EXISTS: string := "addline.createvariable.error.alreadyexists"
  const FILL_FIELDS: string := "joptionpane.fillfields"
  const VARIABLE_DOES_NOT_EXIST: string := "joptionpane.variabledoesnotexist"

  /** The instructions a line of the editor can hold. */
  datatype Instruction =
    | CreateVariable | AssignValueToVariable | ShowVariable | ReadVariable | ShowMessage
    | If | Else | While | For

  /** The keywords that head the sections of an algorithm. */
  datatype Keyword = VariablesKeyword | BeginningKeyword | EndKeyword

  /** A line of the editor's tree: a keyword, or an instruction with its arguments. */
  datatype AlgoLine =
    | KeywordLine(keyword: Keyword, children: seq<AlgoLine>)
    | InstructionLine(instruction: Instruction, args: seq<string>, children: seq<AlgoLine>)

  /** `getArgs()`: a keyword line has none. */
  function Args(line: AlgoLine): seq<string> {
    if line.InstructionLine? then line.args else []
  }

  /** Reading `args[index]` past the end of the array. */
  datatype Fault = ArrayIndexOutOfBounds(index: nat)

  function LowerAscii(c: char): char {
    if 'A' <= c <= 'Z' then (c as int + 32) as char else c
  }

  /** `Boolean.valueOf(s)`: "true" compared without regard to case. */
  predicate IsTrueText(s: string) {
    |s| == 4 && forall i :: 0 <= i < 4 ==> LowerAscii(s[i]) == "true"[i]
  }

  /** `ifFollowedByElse`: an IF line whose second argument reads "true" in any case; `args[1]` is
      only read for an IF line. */
  function IfFollowedByElse(line: AlgoLine): (r: Result<bool, Fault>)
    ensures r.Failure? <==> line.InstructionLine? && line.instruction == If && |line.args| < 2
    ensures r.Failure? ==> r.error == ArrayIndexOutOfBounds(1)
    ensures r == Success(true) <==>
      line.InstructionLine? && line.instruction == If && |line.args| >= 2 && IsTrueText(line.args[1])
  {
    if !line.InstructionLine? || line.instruction != If then Success(false)
    else if |line.args| < 2 then Failure(ArrayIndexOutOfBounds(1))
    else Success(IsTrueText(line.args[1]))
  }

  /** Any capitalisation of "true" makes an IF line need an ELSE; other texts, "1" and "yes"
      included, do not. */
  lemma TrueInAnyCase(condition: string)
    ensures IfFollowedByElse(InstructionLine(If, [condition, "TRUE"], [])) == Success(true)
    ensures IfFollowedByElse(InstructionLine(If, [condition, "tRuE"], [])) == Success(true)
    ensures IfFollowedByElse(InstructionLine(If, [condition, "1"], [])) == Success(false)
    ensures IfFollowedByElse(InstructionLine(If, [condition, "trues"], [])) == Success(false)
    ensures IfFollowedByElse(InstructionLine(While, [condition, "true"], [])) == Success(false)
  {
    assert IsTrueText("TRUE") by {
      assert LowerAscii('T') == 't' && LowerAscii('R') == 'r' && LowerAscii('U') == 'u' && LowerAscii('E') == 'e';
    }
    assert IsTrueText("tRuE") by {
      assert LowerAscii('t') == 't' && LowerAscii('R') == 'r' && LowerAscii('u') == 'u' && LowerAscii('E') == 'e';
    }
  }

  /** `getLineColor(keyword)`. */
  function KeywordColor(keyword: Keyword): (color: string)
    ensures color == KEYWORD_COLOR
  {
    KEYWORD_COLOR
  }

  /** `getLineColor(instruction)`: the five simple instructions in one colour, the others in a
      second one; neither is the keyword colour. */
  function InstructionColor(instruction: Instruction): (color: string)
    ensures color == INSTRUCTION_COLOR_1 <==>
      instruction in {CreateVariable, AssignValueToVariable, ShowVariable, ReadVariable, ShowMessage}
    ensures color == INSTRUCTION_COLOR_2 <==> instruction in {If, Else, While, For}
    ensures color != KEYWORD_COLOR
  {
    match instruction
    case CreateVariable | AssignValueToVariable | ShowVariable | ReadVariable | ShowMessage => INSTRUCTION_COLOR_1
    case _ => INSTRUCTION_COLOR_2
  }

  /** The existence check shared by ASSIGN_VALUE_TO_VARIABLE, SHOW_VARIABLE, READ_VARIABLE and FOR:
      `None` (Java's null list) skips it before `args[0]` is read. */
  function ExistenceCheck(variables: Option<seq<string>>, args: seq<string>): Result<Option<string>, Fault> {
    if variables.None? then Success(None)
    else if |args| == 0 then Failure(ArrayIndexOutOfBounds(0))
    else if args[0] !in variables.value then Success(Some(VARIABLE_DOES_NOT_EXIST))
    else Success(None)
  }

  /** What `validate` returns: a message key, `None` for a valid line (Java's null), or the fault
      of reading a missing argument. */
  function Validation(variables: Option<seq<string>>, instruction: Instruction, args: seq<string>,
                      hasConstant: string -> bool, isLetter: nat -> bool): Result<Option<string>, Fault>
  {
    match instruction
    case CreateVariable =>
      if |args| == 0 then Failure(ArrayIndexOutOfBounds(0))
      else if hasConstant(args[0]) || !Alpha(args[0], isLetter) || args[0] == "" then Success(Some(NOT_ALPHA))
      else if variables.Some? && args[0] in variables.value then Success(Some(ALREADY_EXISTS))
      else Success(None)
    case ShowMessage | If | While =>
      if |args| == 0 then Failure(ArrayIndexOutOfBounds(0))
      else if args[0] == "" then Success(Some(FILL_FIELDS))
      else Success(None)
    case For =>
      if exists i :: 0 <= i < |args| && args[i] == "" then Success(Some(FILL_FIELDS))
      else ExistenceCheck(variables, args)
    case AssignValueToVariable | ShowVariable | ReadVariable => ExistenceCheck(variables, args)
    case Else => Success(None)
  }

  /** `validate(variables, instruction, args...)`. `hasConstant` is the expression library's test
      for a reserved constant and `isLetter` Java's `Character.isLetter`. */
  method Validate(variables: Option<seq<string>>, instruction: Instruction, args: seq<string>,
                  hasConstant: string -> bool, isLetter: nat -> bool) returns (r: Result<Option<string>, Fault>)
    ensures r == Validation(variables, instruction, args, hasConstant, isLetter)
  {
    match instruction {
      case CreateVariable =>
        if |args| == 0 {
          return Failure(ArrayIndexOutOfBounds(0));
        }
        var alpha := IsAlpha(args[0], isLetter);
        if hasConstant(args[0]) || !alpha || args[0] == "" {
          return Success(Some(NOT_ALPHA));
        }
        if variables.Some? && args[0] in variables.value {
          return Success(Some(ALREADY_EXISTS));
        }
      case ShowMessage | If | While =>
        if |args| == 0 {
          return Failure(ArrayIndexOutOfBounds(0));
        }
        if args[0] == "" {
          return Success(Some(FILL_FIELDS));
        }
      case For =>
        for i := 0 to |args|
          invariant forall j :: 0 <= j < i ==> args[j] != ""
        {
          if args[i] == "" {
            return Success(Some(FILL_FIELDS));
          }
        }
        // No break: FOR goes on to the existence check of the next cases.
        return ExistenceCheck(variables, args);
      case AssignValueToVariable | ShowVariable | ReadVariable =>
        return ExistenceCheck(variables, args);
      case Else =>
    }
    return Success(None);
  }

  /** The name check comes first: a reserved, non-alphabetic or empty name is refused as such even
      when the list already holds it, and "" is refused although it is alphabetic. */
  lemma NameCheckComesFirst(variables: Option<seq<string>>, name: string, rest: seq<string>,
                            hasConstant: string -> bool, isLetter: nat -> bool)
    requires hasConstant(name) || !Alpha(name, isLetter) || name == ""
    ensures Validation(variables, CreateVariable, [name] + rest, hasConstant, isLetter) == Success(Some(NOT_ALPHA))
    ensures Alpha("", isLetter)
  {
    assert HtmlEscape.Utf16("") == [];
  }

  /** With a valid name, CREATE_VARIABLE fails exactly when a given list already holds the name. */
  lemma CreateVariableChecksDuplicates(variables: seq<string>, name: string, rest: seq<string>,
                                       hasConstant: string -> bool, isLetter: nat -> bool)
    requires !hasConstant(name) && Alpha(name, isLetter) && name != ""
    ensures Validation(Some(variables), CreateVariable, [name] + rest, hasConstant, isLetter) ==
      (if name in variables then Success(Some(ALREADY_EXISTS)) else Success(None))
    ensures Validation(None, CreateVariable, [name] + rest, hasConstant, isLetter) == Success(None)
  {
    assert ([name] + rest)[0] == name;
  }

  /** SHOW_MESSAGE, IF and WHILE only ask for a first argument: "fillfields" exactly when it is
      empty, and never an existence error. */
  lemma FirstArgumentRequired(variables: Option<seq<string>>, instruction: Instruction, args: seq<string>,
                              hasConstant: string -> bool, isLetter: nat -> bool)
    requires instruction in {ShowMessage, If, While} && |args| >= 1
    ensures Validation(variables, instruction, args, hasConstant, isLetter) ==
      (if args[0] == "" then Success(Some(FILL_FIELDS)) else Success(None))
  {
  }

  /** FOR falls through: with every argument filled in, it is refused exactly when a given list
      lacks the loop variable. */
  lemma ForFallsThrough(variables: seq<string>, args: seq<string>,
                        hasConstant: string -> bool, isLetter: nat -> bool)
    requires |args| >= 1 && forall i :: 0 <= i < |args| ==> args[i] != ""
    ensures Validation(Some(variables), For, args, hasConstant, isLetter) ==
      (if args[0] in variables then Success(None) else Success(Some(VARIABLE_DOES_NOT_EXIST)))
  {
  }

  /** An empty FOR argument, wherever it is, is reported before the existence check. */
  lemma ForEmptyArgument(variables: Option<seq<string>>, args: seq<string>, k: nat,
                         hasConstant: string -> bool, isLetter: nat -> bool)
    requires k < |args| && args[k] == ""
    ensures Validation(variables, For, args, hasConstant, isLetter) == Success(Some(FILL_FIELDS))
  {
  }

  /** A null list skips every existence check: no "alreadyexists" or "variabledoesnotexist", and
      the variable instructions are always accepted; ELSE is always accepted. */
  lemma NullListSkipsExistence(instruction: Instruction, args: seq<string>,
                               hasConstant: string -> bool, isLetter: nat -> bool)
    ensures var r := Validation(None, instruction, args, hasConstant, isLetter);
      r != Success(Some(ALREADY_EXISTS)) && r != Success(Some(VARIABLE_DOES_NOT_EXIST))
    ensures instruction in {AssignValueToVariable, ShowVariable, ReadVariable, Else} ==>
      Validation(None, instruction, args, hasConstant, isLetter) == Success(None)
  {
  }

  /** A table that keeps its keys in insertion order: `keys` lists each key once, in the order it
      was first put, and `values` holds the value last put for it. */
  datatype LinkedMap = LinkedMap(keys: seq<string>, values: map<string, bool>)

  ghost predicate WellFormed(m: LinkedMap) {
    && (forall i, j :: 0 <= i < j < |m.keys| ==> m.keys[i] != m.keys[j])
    && (forall k :: k in m.values <==> k in m.keys)
  }

  /** `LinkedHashMap.put`: a new key goes to the end, a present key keeps its place; either way
      the value is replaced. */
  function Put(m: LinkedMap, k: string, v: bool): (r: LinkedMap)
    ensures WellFormed(m) ==> WellFormed(r)
    ensures r.values == m.values[k := v]
    ensures m.keys <= r.keys
  {
    if k in m.values then LinkedMap(m.keys, m.values[k := v]) else LinkedMap(m.keys + [k], m.values[k := v])
  }

  /** The table `getVariables` builds from (name, is-string) pairs, in order. */
  function VariablesMap(entries: seq<(string, bool)>): LinkedMap {
    if entries == [] then LinkedMap([], map[])
    else
      var last := entries[|entries| - 1];
      Put(VariablesMap(entries[..|entries| - 1]), last.0, last.1)
  }

  /** Some pair carries the name `k`. */
  ghost predicate Named(entries: seq<(string, bool)>, k: string) {
    exists i :: 0 <= i < |entries| && entries[i].0 == k
  }

  /** Each name is a key exactly once, and the names are exactly the keys. */
  lemma {:induction false} VariablesMapKeys(entries: seq<(string, bool)>)
    ensures WellFormed(VariablesMap(entries))
    ensures forall k :: k in VariablesMap(entries).values <==> Named(entries, k)
  {
    if entries != [] {
      var prefix := entries[..|entries| - 1];
      VariablesMapKeys(prefix);
      forall k ensures Named(entries, k) <==> Named(prefix, k) || k == entries[|entries| - 1].0 {
        if Named(entries, k) {
          var i :| 0 <= i < |entries| && entries[i].0 == k;
          if i < |prefix| {
            assert prefix[i] == entries[i];
          }
        }
        if Named(prefix, k) {
          var i :| 0 <= i < |prefix| && prefix[i].0 == k;
          assert entries[i] == prefix[i];
        }
        if k == entries[|entries| - 1].0 {
          assert entries[|entries| - 1].0 == k;
        }
      }
    }
  }

  /** A repeated name keeps its last value: the value of a name is that of its last pair. */
  lemma {:induction false} VariablesMapLastValue(entries: seq<(string, bool)>, i: nat)
    requires i < |entries|
    requires forall j :: i < j < |entries| ==> entries[j].0 != entries[i].0
    ensures entries[i].0 in VariablesMap(entries).values
    ensures VariablesMap(entries).values[entries[i].0] == entries[i].1
  {
    if i < |entries| - 1 {
      var prefix := entries[..|entries| - 1];
      assert prefix[i] == entries[i];
      VariablesMapLastValue(prefix, i);
    }
  }

  /** A repeated name keeps its first position: the keys after the first `n` pairs are the
      beginning of the final keys, and a name first seen at pair `n` comes right after them. */
  lemma {:induction false} VariablesMapOrder(entries: seq<(string, bool)>, n: nat)
    requires n <= |entries|
    ensures VariablesMap(entries[..n]).keys <= VariablesMap(entries).keys
    decreases |entries| - n
  {
    if n < |entries| {
      var grown := entries[..n + 1];
      assert grown[..n] == entries[..n];
      assert VariablesMap(entries[..n]).keys <= VariablesMap(grown).keys;
      VariablesMapOrder(entries, n + 1);
    } else {
      assert entries[..n] == entries;
    }
  }

  lemma FirstSeenIsAppended(entries: seq<(string, bool)>, n: nat)
    requires n < |entries|
    requires forall j :: 0 <= j < n ==> entries[j].0 != entries[n].0
    ensures VariablesMap(entries[..n + 1]).keys == VariablesMap(entries[..n]).keys + [entries[n].0]
  {
    var prefix := entries[..n];
    assert entries[..n + 1][..n] == prefix;
    VariablesMapKeys(prefix);
    assert !Named(prefix, entries[n].0) by {
      forall i | 0 <= i < |prefix| ensures prefix[i].0 != entries[n].0 {
        assert prefix[i] == entries[i];
      }
    }
  }

  /** Every child has both arguments `getVariables` reads. */
  predicate AllHaveTwoArgs(children: seq<AlgoLine>) {
    forall i :: 0 <= i < |children| ==> |Args(children[i])| >= 2
  }

  /** The (name, is-string) pair of each child: `args[1].equals("0")` means the string type. */
  function Pairs(children: seq<AlgoLine>): (pairs: seq<(string, bool)>)
    requires AllHaveTwoArgs(children)
    ensures |pairs| == |children|
  {
    if children == [] then []
    else Pairs(children[..|children| - 1]) + [(Args(children[|children| - 1])[0], Args(children[|children| - 1])[1] == "0")]
  }

  lemma PairsStep(children: seq<AlgoLine>, i: nat)
    requires i < |children| && AllHaveTwoArgs(children[..i]) && |Args(children[i])| >= 2
    ensures AllHaveTwoArgs(children[..i + 1])
    ensures Pairs(children[..i + 1]) == Pairs(children[..i]) + [(Args(children[i])[0], Args(children[i])[1] == "0")]
  {
    var prefix := children[..i + 1];
    assert prefix[..i] == children[..i] && prefix[i] == children[i];
  }

  /** `getVariables(variables)`: puts each child's name and type, in order; the first child that
      lacks an argument stops it with the index it tried to read. */
  method GetVariables(variables: AlgoLine) returns (r: Result<LinkedMap, Fault>)
    ensures r.Success? <==> AllHaveTwoArgs(variables.children)
    ensures r.Success? ==> r.value == VariablesMap(Pairs(variables.children))
    ensures r.Failure? ==>
      (exists k :: 0 <= k < |variables.children| && AllHaveTwoArgs(variables.children[..k])
                   && |Args(variables.children[k])| < 2 && r.error == ArrayIndexOutOfBounds(|Args(variables.children[k])|))
  {
    var children := variables.children;
    var variablesMap := LinkedMap([], map[]);
    for i := 0 to |children|
      invariant AllHaveTwoArgs(children[..i])
      invariant variablesMap == VariablesMap(Pairs(children[..i]))
    {
      var args := Args(children[i]);
      if |args| < 2 {
        assert !AllHaveTwoArgs(children) by {
          assert |Args(children[i])| < 2;
        }
        return Failure(ArrayIndexOutOfBounds(|args|));
      }
      PairsStep(children, i);
      variablesMap := Put(variablesMap, args[0], args[1] == "0");
    }
    assert children[..|children|] == children;
    return Success(variablesMap);
  }

  /** `getCustomMessage`: the second argument of a READ_VARIABLE line, when there is a non-empty
      one; a prompt, when there is one, is never empty. */
  function GetCustomMessage(line: AlgoLine): (message: Option<string>)
    ensures message.Some? <==>
      line.InstructionLine? && line.instruction == ReadVariable && |line.args| > 1 && line.args[1] != ""
    ensures message.Some? ==> message.value == line.args[1] && |message.value| > 0
  {
    if line.KeywordLine? || line.instruction != ReadVariable then None
    else
      var args := line.args;
      if |args| > 1 && args[1] != "" then Some(args[1]) else None
  }
}
