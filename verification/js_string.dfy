/** The part of JavaScript's `String.prototype.trim` the submit handler relies
    on: strip leading and trailing white space, where white space is the
    ECMAScript WhiteSpace and LineTerminator code points. */
module JsString {

  /** ECMAScript WhiteSpace (tab, vertical tab, form feed, the byte order
      mark and the space separators of Unicode category Zs) and
      LineTerminator (line feed, carriage return, line and paragraph
      separator). */
  predicate IsWhitespace(c: char) {
    IsWhitespaceCode(c as int)
  }

  /** The same set by code point: U+0009, U+000B, U+000C, U+FEFF, U+0020,
      U+00A0, U+1680, U+2000 to U+200A, U+202F, U+205F, U+3000 (WhiteSpace)
      and U+000A, U+000D, U+2028, U+2029 (LineTerminator). */
  predicate IsWhitespaceCode(n: int) {
    || n == 0x09 || n == 0x0B || n == 0x0C || n == 0xFEFF
    || n == 0x20 || n == 0xA0 || n == 0x1680 || (0x2000 <= n <= 0x200A)
    || n == 0x202F || n == 0x205F || n == 0x3000
    || n == 0x0A || n == 0x0D || n == 0x2028 || n == 0x2029
  }

  /** Every character of `s` is white space. */
  predicate IsBlank(s: string) {
    forall i :: 0 <= i < |s| ==> IsWhitespace(s[i])
  }

  /** Where the leading white space of `s[i..]` ends: the first index from
      `i` on that is not white space, or `|s|`. */
  function SkipForward(s: string, i: nat): (a: nat)
    requires i <= |s|
    ensures i <= a <= |s|
    ensures forall k :: i <= k < a ==> IsWhitespace(s[k])
    ensures a < |s| ==> !IsWhitespace(s[a])
    decreases |s| - i
  {
    if i < |s| && IsWhitespace(s[i]) then SkipForward(s, i + 1) else i
  }

  /** Where the trailing white space of `s[lo..j]` starts: the least `b`
      with `lo <= b <= j` such that `s[b..j]` is white space. */
  function SkipBackward(s: string, lo: nat, j: nat): (b: nat)
    requires lo <= j <= |s|
    ensures lo <= b <= j
    ensures forall k :: b <= k < j ==> IsWhitespace(s[k])
    ensures lo < b ==> !IsWhitespace(s[b - 1])
    decreases j
  {
    if lo < j && IsWhitespace(s[j - 1]) then SkipBackward(s, lo, j - 1) else j
  }

  /** `s.trim()`: the slice of `s` between its leading and its trailing
      white space. Everything cut off is white space, and a non-empty result
      neither starts nor ends with white space. */
  function Trim(s: string): (r: string)
    ensures var a := SkipForward(s, 0);
            a + |r| <= |s| && r == s[a..a + |r|] &&
            (forall k :: 0 <= k < a ==> IsWhitespace(s[k])) &&
            (forall k :: a + |r| <= k < |s| ==> IsWhitespace(s[k]))
    ensures r != [] ==> !IsWhitespace(r[0]) && !IsWhitespace(r[|r| - 1])
  {
    var a := SkipForward(s, 0);
    var b := SkipBackward(s, a, |s|);
    s[a..b]
  }

  /** `!s.trim()` holds, that is the trimmed string is empty, exactly when
      `s` consists of white space only. */
  lemma TrimEmptyIffBlank(s: string)
    ensures Trim(s) == [] <==> IsBlank(s)
  {
  }
}
