/**
  ASCII models of the Python string operations the pipeline uses:
  `str.strip()`, `str.lower()`, `str.replace(' ', '_')`, the substring test `in`
  and `sep.join(parts)`.
 */
module Text {

  /** `str.isspace()` on ASCII: tab, line feed, vertical tab, form feed, carriage
      return, the four information separators 0x1C-0x1F, and the space. */
  predicate IsSpace(c: char)
  {
    9 <= c as int <= 13 || 28 <= c as int <= 32
  }

  predicate IsUpper(c: char)
  {
    'A' <= c <= 'Z'
  }

  /** No character of `s` is an upper-case letter. */
  predicate IsLower(s: string)
  {
    forall i :: 0 <= i < |s| ==> !IsUpper(s[i])
  }

  /** Neither end of `s` is whitespace: what `str.strip()` leaves. */
  predicate IsStripped(s: string)
  {
    |s| == 0 || (!IsSpace(s[0]) && !IsSpace(s[|s| - 1]))
  }

  function LowerChar(c: char): (d: char)
    ensures !IsUpper(d)
    ensures IsSpace(d) == IsSpace(c)
    ensures !IsUpper(c) ==> d == c
  {
    if IsUpper(c) then (c as int + 32) as char else c
  }

  /** `str.lower()` on ASCII. */
  function Lower(s: string): (r: string)
    ensures |r| == |s| && IsLower(r)
    ensures forall i :: 0 <= i < |s| ==> IsSpace(r[i]) == IsSpace(s[i])
  {
    seq(|s|, i requires 0 <= i < |s| => LowerChar(s[i]))
  }

  /** Lower-casing a string with no upper-case letter changes nothing. */
  lemma LowerOfLower(s: string)
    requires IsLower(s)
    ensures Lower(s) == s
  {
  }

  /** `str.lower()` keeps a stripped string stripped. */
  lemma LowerKeepsStripped(s: string)
    requires IsStripped(s)
    ensures IsStripped(Lower(s))
  {
  }

  function TrimLeft(s: string): (r: string)
    ensures |r| <= |s| && r == s[|s| - |r|..]
    ensures r == [] || !IsSpace(r[0])
    ensures forall i :: 0 <= i < |s| - |r| ==> IsSpace(s[i])
  {
    if |s| > 0 && IsSpace(s[0]) then TrimLeft(s[1..]) else s
  }

  function TrimRight(s: string): (r: string)
    ensures |r| <= |s| && r == s[..|r|]
    ensures r == [] || !IsSpace(r[|r| - 1])
    ensures forall i :: |r| <= i < |s| ==> IsSpace(s[i])
  {
    if |s| > 0 && IsSpace(s[|s| - 1]) then TrimRight(s[..|s| - 1]) else s
  }

  /** `str.strip()`: whitespace cut from both ends. */
  function Strip(s: string): (r: string)
    ensures IsStripped(r)
    ensures |r| <= |s|
  {
    TrimRight(TrimLeft(s))
  }

  /** Stripping a stripped string changes nothing. */
  lemma StripOfStripped(s: string)
    requires IsStripped(s)
    ensures Strip(s) == s
  {
  }

  /** A leading blank is stripped away. */
  lemma StripLeadingBlank(s: string)
    requires IsStripped(s)
    ensures Strip(" " + s) == s
  {
    var p := " " + s;
    assert p[0] == ' ' && p[1..] == s;
    assert TrimLeft(s) == s;
    assert TrimLeft(p) == s;
    assert TrimRight(s) == s;
  }

  /** A blank on each side is stripped away. */
  lemma StripPadded(s: string)
    requires IsStripped(s) && |s| > 0
    ensures Strip(" " + s + " ") == s
  {
    var p := " " + s + " ";
    assert p[1..] == s + " ";
    assert TrimLeft(p) == s + " ";
    assert (s + " ")[..|s|] == s;
  }

  /** `str.replace(' ', '_')`. */
  function Underscore(s: string): (r: string)
    ensures |r| == |s| && ' ' !in r
    ensures forall i :: 0 <= i < |s| && s[i] != ' ' ==> r[i] == s[i]
  {
    seq(|s|, i requires 0 <= i < |s| => if s[i] == ' ' then '_' else s[i])
  }

  /** `needle in hay` for Python strings: `needle` occurs at some position. */
  predicate Contains(hay: string, needle: string)
  {
    |needle| <= |hay| && (hay[..|needle|] == needle || Contains(hay[1..], needle))
  }

  /** `sep.join(parts)`. */
  function Join(parts: seq<string>, sep: string): (r: string)
    ensures |parts| == 1 ==> r == parts[0]
    ensures parts == [] ==> r == ""
  {
    if parts == [] then ""
    else if |parts| == 1 then parts[0]
    else parts[0] + sep + Join(parts[1..], sep)
  }
}
