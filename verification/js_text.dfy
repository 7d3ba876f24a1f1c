/** The two JavaScript string operations the parser applies itself:
    `String.prototype.trim` and `String.prototype.substring(start)`. */
module JsText {

  /** The characters `trim` removes: the WhiteSpace and LineTerminator
      productions of ECMAScript (tab, line feed, vertical tab, form feed,
      carriage return, space, no-break space, byte order mark, the line and
      paragraph separators, and every Unicode space separator). */
  predicate IsWhitespace(c: char) {
    || c == '\U{0009}' || c == '\U{000A}' || c == '\U{000B}' || c == '\U{000C}' || c == '\U{000D}'
    || c == '\U{0020}' || c == '\U{00A0}' || c == '\U{1680}' || c == '\U{FEFF}'
    || c == '\U{2000}' || c == '\U{2001}' || c == '\U{2002}' || c == '\U{2003}' || c == '\U{2004}' || c == '\U{2005}'
    || c == '\U{2006}' || c == '\U{2007}' || c == '\U{2008}' || c == '\U{2009}' || c == '\U{200A}'
    || c == '\U{2028}' || c == '\U{2029}' || c == '\U{202F}' || c == '\U{205F}' || c == '\U{3000}'
  }

  predicate AllWhitespace(s: string) {
    forall i | 0 <= i < |s| :: IsWhitespace(s[i])
  }

  /** The first index at or after `i` that does not hold whitespace, or
      `|s|` when there is none: everything skipped is whitespace. */
  function SkipWhitespace(s: string, i: nat): (n: nat)
    requires i <= |s|
    ensures i <= n <= |s|
    ensures forall k | i <= k < n :: IsWhitespace(s[k])
    ensures n < |s| ==> !IsWhitespace(s[n])
    decreases |s| - i
  {
    if i == |s| || !IsWhitespace(s[i]) then i else SkipWhitespace(s, i + 1)
  }

  /** Walking back from `j`, but not below `lo`, the end of the last
      character that is not whitespace: everything skipped is whitespace. */
  function SkipWhitespaceBack(s: string, lo: nat, j: nat): (n: nat)
    requires lo <= j <= |s|
    ensures lo <= n <= j
    ensures forall k | n <= k < j :: IsWhitespace(s[k])
    ensures n > lo ==> !IsWhitespace(s[n - 1])
    decreases j
  {
    if j == lo || !IsWhitespace(s[j - 1]) then j else SkipWhitespaceBack(s, lo, j - 1)
  }

  /** `String.prototype.trim`: the text between the leading and the
      trailing whitespace. */
  function Trim(s: string): string {
    var a := SkipWhitespace(s, 0);
    s[a..SkipWhitespaceBack(s, a, |s|)]
  }

  /** `Trim` removes whitespace from both ends and nothing else: the result
      is an infix of `s` with whitespace on either side of it, it neither
      starts nor ends with whitespace, and it is empty exactly when `s` is
      all whitespace. */
  lemma TrimSpec(s: string)
    ensures var r := Trim(s);
      exists a | 0 <= a <= |s| - |r| ::
        r == s[a..a + |r|] && AllWhitespace(s[..a]) && AllWhitespace(s[a + |r|..])
    ensures var r := Trim(s);
      r != [] ==> !IsWhitespace(r[0]) && !IsWhitespace(r[|r| - 1])
    ensures Trim(s) == [] <==> AllWhitespace(s)
  {
    var a := SkipWhitespace(s, 0);
    var b := SkipWhitespaceBack(s, a, |s|);
    assert Trim(s) == s[a..b];
    assert AllWhitespace(s[..a]);
    assert AllWhitespace(s[b..]);
  }

  /** `String.prototype.substring(start)` for a non-negative start: the
      suffix of `s` from `start`, or "" when `start` is past the end. */
  function SubstringFrom(s: string, start: nat): (r: string)
    ensures |r| == if start <= |s| then |s| - start else 0
    ensures r == s[|s| - |r|..]
  {
    if start <= |s| then s[start..] else ""
  }
}
