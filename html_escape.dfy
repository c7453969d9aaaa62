/** The HTML escaping shared by the desktop and mobile `escapeHTML`: every UTF-16 code unit above
    127, and each of `"` `<` `>` `&`, becomes "&#" + its decimal code + ";", every other code unit
    is copied. A character outside the Basic Multilingual Plane is two code units in a Java string,
    so it becomes two such groups. */
module HtmlEscape {
  import opened Digits
  import opened Sequences

  /** The UTF-16 code units of a character, as a Java string holds it. */
  function CodeUnits(c: char): (us: seq<nat>)
    ensures |us| == 1 <==> c as int <= 0xFFFF
    ensures |us| == 1 ==> us[0] == c as int
    ensures |us| == 2 ==> 0xD800 <= us[0] < 0xDC00 && 0xDC00 <= us[1] < 0xE000
    ensures |us| == 1 || |us| == 2
  {
    var n := c as int;
    if n <= 0xFFFF then [n]
    else [0xD800 + (n - 0x10000) / 0x400, 0xDC00 + (n - 0x10000) % 0x400]
  }

  /** The code units `escapeHTML` replaces. */
  predicate NeedsEscape(u: nat) {
    u > 127 || u == '"' as int || u == '<' as int || u == '>' as int || u == '&' as int
  }

  /** "&#" + the decimal code + ";". */
  function Entity(u: nat): string {
    "&#" + NatToString(u) + ";"
  }

  /** What `escapeHTML` appends for one code unit. */
  function EscapeUnit(u: nat): (t: string)
    ensures |t| >= 1
    ensures t[0] == '&' <==> NeedsEscape(u)
  {
    if NeedsEscape(u) then Entity(u) else [u as char]
  }

  /** What `escapeHTML` appends for one character. */
  function EscapeChar(c: char): (t: string)
    ensures |t| >= 1
  {
    var us := CodeUnits(c);
    if |us| == 1 then EscapeUnit(us[0]) else EscapeUnit(us[0]) + EscapeUnit(us[1])
  }

  /** The escaped form of a whole string, character by character. */
  function Escape(s: string): string {
    FlatMap(EscapeChar, s)
  }

  /** The UTF-16 code units of a string: what `charAt` walks through in a Java string. */
  function Utf16(s: string): seq<nat> {
    FlatMap(CodeUnits, s)
  }

  /** Escaping code unit by code unit, as `escapeHTML` does, is escaping character by character. */
  lemma {:induction false} UnitwiseIsCharwise(s: string)
    ensures FlatMap(EscapeUnit, Utf16(s)) == Escape(s)
  {
    if s != [] {
      var s', c := s[..|s| - 1], s[|s| - 1];
      var us := CodeUnits(c);
      calc {
        FlatMap(EscapeUnit, Utf16(s));
        FlatMap(EscapeUnit, Utf16(s') + us);
        { FlatMapAppend(EscapeUnit, Utf16(s'), us); }
        FlatMap(EscapeUnit, Utf16(s')) + FlatMap(EscapeUnit, us);
        { UnitwiseIsCharwise(s'); EscapeCharIsUnitwise(c); }
        Escape(s') + EscapeChar(c);
        Escape(s);
      }
    }
  }

  lemma EscapeCharIsUnitwise(c: char)
    ensures FlatMap(EscapeUnit, CodeUnits(c)) == EscapeChar(c)
  {
    var us := CodeUnits(c);
    if |us| == 1 {
      assert us == [us[0]];
      FlatMapOne(EscapeUnit, us[0]);
    } else {
      assert us == [us[0], us[1]];
      FlatMapTwo(EscapeUnit, us[0], us[1]);
    }
  }

  /** The three appends of an escaped code unit. */
  lemma EntityAppended(b: string, u: nat)
    ensures b + "&#" + NatToString(u) + ";" == b + Entity(u)
  {
  }

  /** Escaping distributes over concatenation. */
  lemma EscapeAppend(a: string, b: string)
    ensures Escape(a + b) == Escape(a) + Escape(b)
  {
    FlatMapAppend(EscapeChar, a, b);
  }

  /** Escaping one leading character, then the rest. */
  lemma {:induction false} EscapeCons(s: string)
    requires s != []
    ensures Escape(s) == EscapeChar(s[0]) + Escape(s[1..])
  {
    assert s == [s[0]] + s[1..];
    EscapeAppend([s[0]], s[1..]);
    assert Escape([s[0]]) == EscapeChar(s[0]) by {
      assert [] + [s[0]] == [s[0]];
      FlatMapSnoc(EscapeChar, [], s[0]);
    }
  }

  /** A string the escaping may produce: ASCII only, and without `<`, `>` or `"`. */
  predicate IsSafe(t: string) {
    forall i :: 0 <= i < |t| ==> t[i] as int <= 127 && t[i] != '<' && t[i] != '>' && t[i] != '"'
  }

  lemma SafeAppend(a: string, b: string)
    requires IsSafe(a) && IsSafe(b)
    ensures IsSafe(a + b)
  {
    forall i | 0 <= i < |a + b|
      ensures (a + b)[i] as int <= 127 && (a + b)[i] != '<' && (a + b)[i] != '>' && (a + b)[i] != '"'
    {
      if i < |a| {
        assert (a + b)[i] == a[i];
      } else {
        assert (a + b)[i] == b[i - |a|];
      }
    }
  }

  lemma EntityIsSafe(u: nat)
    ensures IsSafe(Entity(u))
  {
    var d := NatToString(u);
    assert IsSafe(d) by {
      forall i | 0 <= i < |d| ensures d[i] as int <= 127 && d[i] != '<' && d[i] != '>' && d[i] != '"' {
        assert IsDigit(d[i]);
      }
    }
    SafeAppend("&#", d);
    SafeAppend("&#" + d, ";");
  }

  lemma EscapeCharIsSafe(c: char)
    ensures IsSafe(EscapeChar(c))
  {
    var us := CodeUnits(c);
    EntityIsSafe(us[0]);
    if |us| == 2 {
      EntityIsSafe(us[1]);
      SafeAppend(EscapeUnit(us[0]), EscapeUnit(us[1]));
    }
  }

  /** The escaped form is pure ASCII and holds no `<`, `>` or `"`. */
  lemma {:induction false} EscapeIsSafe(s: string)
    ensures IsSafe(Escape(s))
  {
    if s != [] {
      EscapeIsSafe(s[..|s| - 1]);
      EscapeCharIsSafe(s[|s| - 1]);
      SafeAppend(Escape(s[..|s| - 1]), EscapeChar(s[|s| - 1]));
    }
  }

  /** A character that `escapeHTML` copies unchanged: ASCII and none of the four specials. */
  predicate IsPlain(c: char) {
    c as int <= 127 && !NeedsEscape(c as int)
  }

  /** A string of plain characters only (the apostrophe included) is returned as it is. */
  lemma {:induction false} PlainIsUnchanged(s: string)
    requires forall i :: 0 <= i < |s| ==> IsPlain(s[i])
    ensures Escape(s) == s
  {
    if s != [] {
      PlainIsUnchanged(s[..|s| - 1]);
      assert s == s[..|s| - 1] + [s[|s| - 1]];
    }
  }

  /** Escaping never shortens a string, measured as Java's `length()` measures it: in UTF-16 code
      units, of which there are at least as many as characters. */
  lemma {:induction false} EscapeLength(s: string)
    ensures |Escape(s)| >= |Utf16(s)| >= |s|
  {
    if s != [] {
      EscapeLength(s[..|s| - 1]);
    }
  }

  /** A character outside the Basic Multilingual Plane is one Dafny character but two code units. */
  lemma AstralCharIsTwoUnits()
    ensures |Utf16("\U{1F600}")| == 2 && |"\U{1F600}"| == 1
  {
    FlatMapOne(CodeUnits, '\U{1F600}');
  }

  /** One escaped code unit can be told apart from whatever follows it. */
  lemma UnitPrefix(u1: nat, u2: nat, x: string, y: string)
    requires EscapeUnit(u1) + x == EscapeUnit(u2) + y
    ensures u1 == u2 && x == y
  {
    var t1, t2 := EscapeUnit(u1), EscapeUnit(u2);
    assert (t1 + x)[0] == t1[0] && (t2 + y)[0] == t2[0];
    if NeedsEscape(u1) {
      assert NeedsEscape(u2);
      var d1, d2 := NatToString(u1), NatToString(u2);
      var r1, r2 := d1 + [';'] + x, d2 + [';'] + y;
      assert t1 + x == "&#" + r1;
      assert t2 + y == "&#" + r2;
      assert r1 == ("&#" + r1)[2..] && r2 == ("&#" + r2)[2..];
      DigitsThenStop(d1, d2, x, y, ';');
      NatToStringInjective(u1, u2);
    } else {
      assert t1 + x == [u1 as char] + x && t2 + y == [u2 as char] + y;
      assert x == (t1 + x)[1..] && y == (t2 + y)[1..];
    }
  }

  /** A character is determined by its code units. */
  lemma CodeUnitsAreInjective(c1: char, c2: char)
    requires CodeUnits(c1) == CodeUnits(c2)
    ensures c1 == c2
  {
    if c1 as int > 0xFFFF {
      var n1, n2 := c1 as int - 0x10000, c2 as int - 0x10000;
      assert n1 == (n1 / 0x400) * 0x400 + n1 % 0x400;
      assert n2 == (n2 / 0x400) * 0x400 + n2 % 0x400;
    }
  }

  /** One escaped character can be told apart from whatever follows it. */
  lemma CharPrefix(c1: char, c2: char, x: string, y: string)
    requires EscapeChar(c1) + x == EscapeChar(c2) + y
    ensures c1 == c2 && x == y
  {
    var us1, us2 := CodeUnits(c1), CodeUnits(c2);
    var rest1 := if |us1| == 1 then x else EscapeUnit(us1[1]) + x;
    var rest2 := if |us2| == 1 then y else EscapeUnit(us2[1]) + y;
    if |us1| == 2 {
      ConcatAssoc(EscapeUnit(us1[0]), EscapeUnit(us1[1]), x);
    }
    if |us2| == 2 {
      ConcatAssoc(EscapeUnit(us2[0]), EscapeUnit(us2[1]), y);
    }
    UnitPrefix(us1[0], us2[0], rest1, rest2);
    // A first unit in 0xD800..0xDBFF starts a pair; a character is never such a unit.
    assert |us1| == 2 <==> 0xD800 <= us1[0] < 0xDC00;
    assert |us2| == 2 <==> 0xD800 <= us2[0] < 0xDC00;
    if |us1| == 2 {
      UnitPrefix(us1[1], us2[1], x, y);
      assert us1 == [us1[0], us1[1]] && us2 == [us2[0], us2[1]];
    } else {
      assert us1 == [us1[0]] && us2 == [us2[0]];
    }
    CodeUnitsAreInjective(c1, c2);
  }

  /** Escaping is injective: different strings never share an escaped form. */
  lemma {:induction false} EscapeIsInjective(s: string, t: string)
    requires Escape(s) == Escape(t)
    ensures s == t
    decreases |s|
  {
    if s == [] || t == [] {
      EscapeLength(s);
      EscapeLength(t);
    } else {
      EscapeCons(s);
      EscapeCons(t);
      CharPrefix(s[0], t[0], Escape(s[1..]), Escape(t[1..]));
      EscapeIsInjective(s[1..], t[1..]);
      assert s == [s[0]] + s[1..] && t == [t[0]] + t[1..];
    }
  }
}
