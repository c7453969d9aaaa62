/** The helpers of the mobile application that this model covers: its copy of HTML escaping. */
module MobileUtils {
  import opened Digits
  import opened HtmlEscape
  import opened Sequences

  /** `escapeHTML`: the same walk over the UTF-16 code units as the desktop copy, appending to
      `out`. The result is never shorter than the input, in UTF-16 code units. */
  method EscapeHtml(s: string) returns (r: string)
    ensures r == Escape(s)
    ensures |r| >= |Utf16(s)|
  {
    var units := Utf16(s);
    var out := "";
    var i := 0;
    while i < |units|
      invariant 0 <= i <= |units|
      invariant out == FlatMap(EscapeUnit, units[..i])
    {
      var c := units[i];
      ghost var done := out;
      if c > 127 || c == '"' as int || c == '<' as int || c == '>' as int || c == '&' as int {
        out := out + "&#";
        out := out + NatToString(c);
        out := out + ";";
        EntityAppended(done, c);
      } else {
        out := out + [c as char];
      }
      FlatMapPrefixStep(EscapeUnit, units, i);
      i := i + 1;
    }
    assert units[..i] == units;
    UnitwiseIsCharwise(s);
    EscapeLength(s);
    return out;
  }
}
