/** The string helpers of the desktop editor: HTML escaping, joining, the letter check and the
    indented dump of an algorithm tree. */
module DesktopUtils {
  import opened Wrappers
  import opened HtmlEscape
  import opened Digits
  import opened Sequences

  /** `escapeHTML`: walks the UTF-16 code units of `s`, appending "&#" + code + ";" for each one
      that needs escaping and the unit itself otherwise. */
  method EscapeHtml(s: string) returns (r: string)
    ensures r == Escape(s)
    ensures IsSafe(r)
  {
    var units := Utf16(s);
    var builder := "";
    for i := 0 to |units|
      invariant builder == FlatMap(EscapeUnit, units[..i])
    {
      var unit := units[i];
      ghost var done := builder;
      if NeedsEscape(unit) {
        builder := builder + "&#";
        builder := builder + NatToString(unit);
        builder := builder + ";";
        EntityAppended(done, unit);
      } else {
        builder := builder + [unit as char];
      }
      FlatMapPrefixStep(EscapeUnit, units, i);
    }
    assert units[..|units|] == units;
    UnitwiseIsCharwise(s);
    EscapeIsSafe(s);
    return builder;
  }

  /** Every string followed by the joiner: what the loop of `join` builds before trimming. */
  function Terminated(joiner: char, strings: seq<string>): string {
    if strings == [] then "" else strings[0] + [joiner] + Terminated(joiner, strings[1..])
  }

  lemma {:induction false} TerminatedSnoc(joiner: char, strings: seq<string>, s: string)
    ensures Terminated(joiner, strings + [s]) == Terminated(joiner, strings) + s + [joiner]
  {
    if strings == [] {
      assert [] + [s] == [s];
      assert [s][1..] == [];
    } else {
      assert (strings + [s])[1..] == strings[1..] + [s];
      TerminatedSnoc(joiner, strings[1..], s);
    }
  }

  /** The strings with the joiner between each two of them. */
  function JoinSpec(joiner: char, strings: seq<string>): string
    requires strings != []
  {
    if |strings| == 1 then strings[0] else strings[0] + [joiner] + JoinSpec(joiner, strings[1..])
  }

  /** The trimming of `join` removes exactly the last joiner. */
  lemma {:induction false} TerminatedIsJoined(joiner: char, strings: seq<string>)
    requires strings != []
    ensures Terminated(joiner, strings) == JoinSpec(joiner, strings) + [joiner]
  {
    if |strings| == 1 {
      assert strings[1..] == [];
    } else {
      TerminatedIsJoined(joiner, strings[1..]);
    }
  }

  /** The exception `setLength` throws for a negative length. */
  datatype JoinError = StringIndexOutOfBounds(index: int)

  /** `join(joiner, strings...)`: every string followed by the joiner, then the last character cut
      off by `setLength(length() - 1)`; with no strings that length is -1 and `setLength` throws. */
  method Join(joiner: char, strings: seq<string>) returns (r: Result<string, JoinError>)
    ensures r.Failure? <==> strings == []
    ensures r.Failure? ==> r.error == StringIndexOutOfBounds(-1)
    ensures r.Success? ==> r.value == JoinSpec(joiner, strings)
  {
    var builder := "";
    for i := 0 to |strings|
      invariant builder == Terminated(joiner, strings[..i])
    {
      builder := builder + (strings[i] + [joiner]);
      assert strings[..i + 1] == strings[..i] + [strings[i]];
      TerminatedSnoc(joiner, strings[..i], strings[i]);
    }
    assert strings[..|strings|] == strings;
    var newLength := |builder| - 1;
    if newLength < 0 {
      return Failure(StringIndexOutOfBounds(newLength));
    }
    TerminatedIsJoined(joiner, strings);
    return Success(builder[..newLength]);
  }

  /** The joiner-separated pieces of `t`, as a split that keeps empty pieces. */
  function Split(joiner: char, t: string): (pieces: seq<string>)
    ensures |pieces| >= 1
  {
    if t == [] then [""]
    else
      var rest := Split(joiner, t[1..]);
      if t[0] == joiner then [""] + rest else [[t[0]] + rest[0]] + rest[1..]
  }

  predicate Excludes(joiner: char, s: string) {
    forall i :: 0 <= i < |s| ==> s[i] != joiner
  }

  /** A piece without the joiner is glued to whatever piece follows it. */
  lemma {:induction false} SplitPrefix(joiner: char, a: string, t: string)
    requires Excludes(joiner, a)
    ensures Split(joiner, a + t) == [a + Split(joiner, t)[0]] + Split(joiner, t)[1..]
  {
    if a == [] {
      var pieces := Split(joiner, t);
      assert a + t == t && a + pieces[0] == pieces[0];
      assert [pieces[0]] + pieces[1..] == pieces;
    } else {
      var pieces := Split(joiner, t);
      assert (a + t)[1..] == a[1..] + t;
      SplitPrefix(joiner, a[1..], t);
      var rest := Split(joiner, a[1..] + t);
      assert rest[0] == a[1..] + pieces[0] && rest[1..] == pieces[1..];
      assert (a + t)[0] == a[0];
      assert [a[0]] + (a[1..] + pieces[0]) == a + pieces[0];
    }
  }

  /** Splitting undoes joining when no string contains the joiner. */
  lemma {:induction false} SplitJoin(joiner: char, strings: seq<string>)
    requires strings != []
    requires forall i :: 0 <= i < |strings| ==> Excludes(joiner, strings[i])
    ensures Split(joiner, JoinSpec(joiner, strings)) == strings
  {
    var a := strings[0];
    if |strings| == 1 {
      SplitPrefix(joiner, a, "");
      assert a + "" == a;
    } else {
      var t := JoinSpec(joiner, strings[1..]);
      SplitJoin(joiner, strings[1..]);
      assert a + [joiner] + t == a + ([joiner] + t);
      SplitPrefix(joiner, a, [joiner] + t);
      assert ([joiner] + t)[0] == joiner && ([joiner] + t)[1..] == t;
      var pieces := Split(joiner, [joiner] + t);
      assert pieces == [""] + strings[1..];
      assert pieces[0] == "" && pieces[1..] == strings[1..];
      assert a + "" == a;
      assert strings == [a] + strings[1..];
    }
  }

  /** The joined length: every string, plus one joiner fewer than there are strings. */
  lemma {:induction false} JoinLength(joiner: char, strings: seq<string>)
    requires strings != []
    ensures |JoinSpec(joiner, strings)| == TotalLength(strings) + |strings| - 1
  {
    if |strings| > 1 {
      JoinLength(joiner, strings[1..]);
    }
  }

  function TotalLength(strings: seq<string>): nat {
    if strings == [] then 0 else |strings[0]| + TotalLength(strings[1..])
  }

  /** `isLetter` (Java's `Character.isLetter`) holds for every UTF-16 code unit of `s`. */
  predicate Alpha(s: string, isLetter: nat -> bool) {
    forall i :: 0 <= i < |Utf16(s)| ==> isLetter(Utf16(s)[i])
  }

  /** `isAlpha`: the loop returns false at the first code unit that is not a letter. */
  method IsAlpha(s: string, isLetter: nat -> bool) returns (r: bool)
    ensures r == Alpha(s, isLetter)
  {
    var units := Utf16(s);
    for i := 0 to |units|
      invariant forall j :: 0 <= j < i ==> isLetter(units[j])
    {
      if !isLetter(units[i]) {
        return false;
      }
    }
    return true;
  }

  /** With a letter test that rejects surrogate code units, as `Character.isLetter` does, a string
      is alpha exactly when each of its characters is in the Basic Multilingual Plane and is a
      letter; in particular "" is alpha. */
  lemma {:induction false} AlphaByCharacter(s: string, isLetter: nat -> bool)
    requires forall u :: 0xD800 <= u < 0xE000 ==> !isLetter(u)
    ensures Alpha(s, isLetter) <==> forall i :: 0 <= i < |s| ==> s[i] as int <= 0xFFFF && isLetter(s[i] as int)
  {
    if s != [] {
      var s', c := s[..|s| - 1], s[|s| - 1];
      AlphaByCharacter(s', isLetter);
      var us, us' := Utf16(s), Utf16(s');
      assert us == us' + CodeUnits(c);
      assert forall i :: 0 <= i < |s'| ==> s'[i] == s[i];
      if (forall i :: 0 <= i < |us| ==> isLetter(us[i])) {
        assert forall i :: 0 <= i < |us'| ==> isLetter(us'[i]) by {
          forall i | 0 <= i < |us'| ensures isLetter(us'[i]) {
            assert us[i] == us'[i];
          }
        }
        assert us[|us'|] == CodeUnits(c)[0];
      }
      if (forall i :: 0 <= i < |s| ==> s[i] as int <= 0xFFFF && isLetter(s[i] as int)) {
        assert c as int <= 0xFFFF;
        forall i | 0 <= i < |us| ensures isLetter(us[i]) {
          if i < |us'| {
            assert us[i] == us'[i];
          } else {
            assert us[i] == c as int;
          }
        }
      }
    }
  }

  /** `java.lang.StringBuilder`, as far as `getNodeContent` uses it. */
  class StringBuilder {
    var content: string

    constructor (initial: string)
      ensures content == initial
    {
      content := initial;
    }

    method Append(s: string)
      modifies this
      ensures content == old(content) + s
    {
      content := content + s;
    }

    /** `delete(start, end)`: an end past the length stops at the length. */
    method Delete(start: nat, end: nat)
      requires start <= end && start <= |content|
      modifies this
      ensures content == old(content)[..start] + old(content)[(if end <= |old(content)| then end else |old(content)|)..]
    {
      var stop := if end <= |content| then end else |content|;
      content := content[..start] + content[stop..];
    }

    method ToString() returns (s: string)
      ensures s == content
    {
      return content;
    }
  }

  /** A node of the algorithm tree: the text `toString()` shows and its children. */
  datatype TreeNode = TreeNode(text: string, children: seq<TreeNode>)

  function Blanks(n: nat): string {
    seq(n, _ => ' ')
  }

  predicate IsBlank(c: string) {
    forall i :: 0 <= i < |c| ==> c[i] == ' '
  }

  /** What `n` blanks appended and `n` characters deleted from the front do to a buffer. */
  function Shift(c: string, n: nat): (r: string)
    ensures |r| == |c|
  {
    (c + Blanks(n))[n..]
  }

  lemma ShiftAt(c: string, n: nat, i: nat)
    requires i < |c|
    ensures Shift(c, n)[i] == if i + n < |c| then c[i + n] else ' '
  {
  }

  lemma ShiftZero(c: string)
    ensures Shift(c, 0) == c
  {
    assert c + Blanks(0) == c;
  }

  lemma ShiftShift(c: string, a: nat, b: nat)
    ensures Shift(Shift(c, a), b) == Shift(c, a + b)
  {
    forall i | 0 <= i < |c| ensures Shift(Shift(c, a), b)[i] == Shift(c, a + b)[i] {
      ShiftAt(Shift(c, a), b, i);
      ShiftAt(c, a + b, i);
      if i + b < |c| {
        ShiftAt(c, a, i + b);
      }
    }
  }

  /** Two blanks appended, some shifting, then the first two characters deleted. */
  lemma AppendThenDelete(c: string, m: nat)
    ensures Shift(c + "  ", m)[2..] == Shift(c, m + 2)
  {
    var x := Shift(c + "  ", m);
    forall i | 0 <= i < |c| ensures x[2..][i] == Shift(c, m + 2)[i] {
      ShiftAt(c + "  ", m, i + 2);
      ShiftAt(c, m + 2, i);
    }
  }

  /** A buffer of blanks is left as it is by any shift. */
  lemma ShiftBlank(c: string, n: nat)
    requires IsBlank(c)
    ensures Shift(c, n) == c
  {
    forall i | 0 <= i < |c| ensures Shift(c, n)[i] == c[i] {
      ShiftAt(c, n, i);
    }
  }

  /** The number of nodes with at least one child: each of them appends two blanks to the shared
      buffer and deletes two characters from its front. */
  function Internal(node: TreeNode): nat
    decreases node, 1
  {
    (if node.children == [] then 0 else 1) + InternalSum(node.children)
  }

  function InternalSum(cs: seq<TreeNode>): nat
    decreases cs, 0
  {
    if cs == [] then 0 else InternalSum(cs[..|cs| - 1]) + Internal(cs[|cs| - 1])
  }

  /** What `getNodeContent(node, spaces)` returns when `spaces` holds `c`: the node's line, then each
      child prefixed by the buffer as it is when that child is reached. */
  function Out(node: TreeNode, c: string, sep: string): string
    decreases node, 1
  {
    node.text + sep + (if node.children == [] then "" else OutChildren(node.children, c + "  ", sep))
  }

  function OutChildren(cs: seq<TreeNode>, c: string, sep: string): string
    decreases cs, 0
  {
    if cs == [] then ""
    else
      var before := Shift(c, 2 * InternalSum(cs[..|cs| - 1]));
      OutChildren(cs[..|cs| - 1], c, sep) + before + Out(cs[|cs| - 1], before, sep)
  }

  /** One more child: its prefix is the buffer as the children before it left it. */
  lemma SumStep(cs: seq<TreeNode>, i: nat)
    requires i < |cs|
    ensures InternalSum(cs[..i + 1]) == InternalSum(cs[..i]) + Internal(cs[i])
  {
    assert cs[..i + 1][..i] == cs[..i];
    assert cs[..i + 1][i] == cs[i];
  }

  lemma OutStep(cs: seq<TreeNode>, i: nat, c: string, sep: string)
    requires i < |cs|
    ensures var before := Shift(c, 2 * InternalSum(cs[..i]));
      OutChildren(cs[..i + 1], c, sep) == OutChildren(cs[..i], c, sep) + before + Out(cs[i], before, sep)
  {
    assert cs[..i + 1][..i] == cs[..i];
    assert cs[..i + 1][i] == cs[i];
  }

  /** What one turn of the loop of `getNodeContent` does to the buffer. */
  lemma BufferStep(cs: seq<TreeNode>, i: nat, entry: string, prefix: string, buffer: string)
    requires i < |cs|
    requires prefix == Shift(entry, 2 * InternalSum(cs[..i]))
    requires buffer == Shift(prefix, 2 * Internal(cs[i]))
    ensures buffer == Shift(entry, 2 * InternalSum(cs[..i + 1]))
  {
    SumStep(cs, i);
    ShiftShift(entry, 2 * InternalSum(cs[..i]), 2 * Internal(cs[i]));
  }

  /** What one turn of the loop of `getNodeContent` does to the output. */
  lemma OutputStep(cs: seq<TreeNode>, i: nat, entry: string, sep: string, head: string,
                   built: string, prefix: string, child: string)
    requires i < |cs|
    requires built == head + OutChildren(cs[..i], entry, sep)
    requires prefix == Shift(entry, 2 * InternalSum(cs[..i]))
    requires child == Out(cs[i], prefix, sep)
    ensures built + (prefix + child) == head + OutChildren(cs[..i + 1], entry, sep)
  {
    var done := OutChildren(cs[..i], entry, sep);
    OutStep(cs, i, entry, sep);
    ConcatAssoc(head, done, prefix + child);
    ConcatAssoc(done, prefix, child);
  }

  /** The buffer after the last child, once the node deletes its two characters. */
  lemma BufferRestored(node: TreeNode, start: string, buffer: string)
    requires node.children != []
    requires buffer == Shift(start + "  ", 2 * InternalSum(node.children))
    ensures |buffer| >= 2 && buffer[2..] == Shift(start, 2 * Internal(node))
  {
    AppendThenDelete(start, 2 * InternalSum(node.children));
  }

  /** `getNodeContent(node, spaces)`. The buffer `spaces` is shared by all the recursive calls. */
  method GetNodeContent(node: TreeNode, spaces: StringBuilder, lineSeparator: string) returns (content: string)
    modifies spaces
    ensures spaces.content == Shift(old(spaces.content), 2 * Internal(node))
    ensures content == Out(node, old(spaces.content), lineSeparator)
    decreases node
  {
    var builder := node.text + lineSeparator;
    var childCount := |node.children|;
    if childCount > 0 {
      ghost var start := spaces.content;
      spaces.Append("  ");
      ghost var entry := spaces.content;
      var i := 0;
      ShiftZero(entry);
      while i != childCount
        invariant 0 <= i <= childCount
        invariant spaces.content == Shift(entry, 2 * InternalSum(node.children[..i]))
        invariant builder == node.text + lineSeparator + OutChildren(node.children[..i], entry, lineSeparator)
      {
        var prefix := spaces.ToString();
        var child := GetNodeContent(node.children[i], spaces, lineSeparator);
        BufferStep(node.children, i, entry, prefix, spaces.content);
        OutputStep(node.children, i, entry, lineSeparator, node.text + lineSeparator, builder, prefix, child);
        builder := builder + (prefix + child);
        i := i + 1;
      }
      assert node.children[..childCount] == node.children;
      ghost var before := spaces.content;
      BufferRestored(node, start, before);
      spaces.Delete(0, 2);
      assert spaces.content == before[2..];
    } else {
      ShiftZero(spaces.content);
    }
    return builder;
  }

  /** A line of the dump: the node's depth below the root and its text. */
  datatype Line = Line(depth: nat, text: string)

  /** The nodes in pre-order with their depths. */
  function Preorder(node: TreeNode, depth: nat): seq<Line>
    decreases node, 1
  {
    [Line(depth, node.text)] + PreorderChildren(node.children, depth + 1)
  }

  function PreorderChildren(cs: seq<TreeNode>, depth: nat): seq<Line>
    decreases cs, 0
  {
    if cs == [] then [] else PreorderChildren(cs[..|cs| - 1], depth) + Preorder(cs[|cs| - 1], depth)
  }

  /** The dump as intended: the root's line as it is, a line at depth k >= 1 prefixed by the
      initial buffer and 2k blanks, every line ending in the separator. */
  function Emit(lines: seq<Line>, c: string, sep: string): string {
    FlatMap(LineRenderer(c, sep), lines)
  }

  function LineRenderer(c: string, sep: string): Line -> string {
    l => LineText(l, c, sep)
  }

  function LineText(l: Line, c: string, sep: string): string {
    Indent(l.depth, c) + l.text + sep
  }

  /** No prefix at depth 0; the initial buffer and 2k blanks at depth k >= 1. */
  function Indent(depth: nat, c: string): string {
    if depth == 0 then "" else c + Blanks(2 * depth)
  }

  lemma EmitAppend(a: seq<Line>, b: seq<Line>, c: string, sep: string)
    ensures Emit(a + b, c, sep) == Emit(a, c, sep) + Emit(b, c, sep)
  {
    FlatMapAppend(LineRenderer(c, sep), a, b);
  }

  lemma EmitOne(l: Line, c: string, sep: string)
    ensures Emit([l], c, sep) == LineText(l, c, sep)
  {
    FlatMapSnoc(LineRenderer(c, sep), [], l);
    assert [] + [l] == [l];
  }

  lemma BlanksAppend(c: string, a: nat, b: nat)
    ensures c + Blanks(a) + Blanks(b) == c + Blanks(a + b)
  {
    assert Blanks(a) + Blanks(b) == Blanks(a + b);
  }

  /** With a buffer of blanks, `getNodeContent` emits one line per node in pre-order: the root
      without prefix, a node at depth k >= 1 after the initial buffer and 2k blanks. */
  lemma {:induction false} NodeContentLines(node: TreeNode, c: string, sep: string)
    requires IsBlank(c)
    ensures Out(node, c, sep) == Emit(Preorder(node, 0), c, sep)
  {
    NodeLines(node, c, 0, sep);
    assert c + Blanks(0) == c;
    assert Indent(0, c) + Out(node, c, sep) == Out(node, c, sep);
  }

  lemma {:induction false} NodeLines(node: TreeNode, c: string, depth: nat, sep: string)
    requires IsBlank(c)
    ensures Indent(depth, c) + Out(node, c + Blanks(2 * depth), sep) == Emit(Preorder(node, depth), c, sep)
    decreases node, 2
  {
    var p := c + Blanks(2 * depth);
    var head := Line(depth, node.text);
    var rest := PreorderChildren(node.children, depth + 1);
    var below := if node.children == [] then "" else OutChildren(node.children, p + "  ", sep);
    BelowLines(node, c, depth, sep);
    assert Preorder(node, depth) == [head] + rest;
    EmitAppend([head], rest, c, sep);
    EmitOne(head, c, sep);
    assert Out(node, p, sep) == node.text + sep + below;
    ConcatAssoc(Indent(depth, c), node.text, sep);
    ConcatAssoc(Indent(depth, c), node.text + sep, below);
  }

  /** The lines below a node at depth `depth`: its children one level deeper. */
  lemma {:induction false} BelowLines(node: TreeNode, c: string, depth: nat, sep: string)
    requires IsBlank(c)
    ensures Emit(PreorderChildren(node.children, depth + 1), c, sep) ==
      if node.children == [] then "" else OutChildren(node.children, c + Blanks(2 * depth) + "  ", sep)
    decreases node, 1
  {
    if node.children != [] {
      BlanksAppend(c, 2 * depth, 2);
      assert Blanks(2) == "  ";
      assert c + Blanks(2 * depth) + "  " == c + Blanks(2 * (depth + 1));
      ChildrenLines(node.children, c, depth + 1, sep);
    }
  }

  lemma {:induction false} ChildrenLines(cs: seq<TreeNode>, c: string, depth: nat, sep: string)
    requires IsBlank(c) && depth >= 1
    ensures OutChildren(cs, c + Blanks(2 * depth), sep) == Emit(PreorderChildren(cs, depth), c, sep)
    decreases cs, 0
  {
    if cs != [] {
      var p := c + Blanks(2 * depth);
      var cs', last := cs[..|cs| - 1], cs[|cs| - 1];
      assert IsBlank(p);
      ShiftBlank(p, 2 * InternalSum(cs'));
      ChildrenLines(cs', c, depth, sep);
      NodeLines(last, c, depth, sep);
      assert Indent(depth, c) == p;
      EmitAppend(PreorderChildren(cs', depth), Preorder(last, depth), c, sep);
      calc {
        OutChildren(cs, p, sep);
        OutChildren(cs', p, sep) + p + Out(last, p, sep);
        Emit(PreorderChildren(cs', depth), c, sep) + (p + Out(last, p, sep));
        Emit(PreorderChildren(cs', depth), c, sep) + Emit(Preorder(last, depth), c, sep);
        Emit(PreorderChildren(cs, depth), c, sep);
      }
    }
  }

  /** Called with a buffer of blanks, as the editor does with an empty one, `getNodeContent` leaves
      the buffer exactly as it found it. */
  lemma BlankBufferIsRestored(node: TreeNode, c: string)
    requires IsBlank(c)
    ensures Shift(c, 2 * Internal(node)) == c
  {
    ShiftBlank(c, 2 * Internal(node));
  }
}
