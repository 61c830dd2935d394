/** JavaScript string primitives the screens rely on: the whitespace class
    shared by String.prototype.trim and the regular-expression class \s, and
    trim itself. Strings are sequences of characters. */
module Text {

  /** ECMAScript WhiteSpace and LineTerminator code points: TAB, LF, VT, FF, CR,
      SPACE, NBSP, OGHAM SPACE MARK, EN QUAD .. HAIR SPACE, LINE and PARAGRAPH
      SEPARATOR, NARROW NBSP, MEDIUM MATHEMATICAL SPACE, IDEOGRAPHIC SPACE and
      the byte-order mark. */
  predicate IsWhitespace(c: char) {
    var n := c as int;
    || (0x09 <= n <= 0x0D)
    || n == 0x20
    || n == 0xA0
    || n == 0x1680
    || (0x2000 <= n <= 0x200A)
    || n == 0x2028
    || n == 0x2029
    || n == 0x202F
    || n == 0x205F
    || n == 0x3000
    || n == 0xFEFF
  }

  /** Every character is whitespace (the empty string included). */
  predicate Blank(s: string) {
    forall k | 0 <= k < |s| :: IsWhitespace(s[k])
  }

  /** Number of whitespace characters at the front of `s`. */
  function LeadingBlanks(s: string): (n: nat)
    ensures n <= |s|
    ensures forall k | 0 <= k < n :: IsWhitespace(s[k])
    ensures n < |s| ==> !IsWhitespace(s[n])
  {
    if |s| > 0 && IsWhitespace(s[0]) then
      var n := 1 + LeadingBlanks(s[1..]);
      assert forall k | 1 <= k < n :: s[k] == s[1..][k - 1];
      n
    else
      0
  }

  /** Number of whitespace characters at the back of `s`. */
  function TrailingBlanks(s: string): (n: nat)
    ensures n <= |s|
    ensures forall k | |s| - n <= k < |s| :: IsWhitespace(s[k])
    ensures n < |s| ==> !IsWhitespace(s[|s| - n - 1])
  {
    if |s| > 0 && IsWhitespace(s[|s| - 1]) then
      var n := 1 + TrailingBlanks(s[..|s| - 1]);
      assert forall k | |s| - n <= k < |s| - 1 :: s[k] == s[..|s| - 1][k];
      n
    else
      0
  }

  /** `r` is `s` with `i` leading characters and some trailing characters cut
      away, all of them whitespace. */
  ghost predicate TrimmedAt(s: string, r: string, i: int) {
    && 0 <= i <= |s| - |r|
    && r == s[i..i + |r|]
    && (forall k | 0 <= k < i :: IsWhitespace(s[k]))
    && (forall k | i + |r| <= k < |s| :: IsWhitespace(s[k]))
  }

  /** String.prototype.trim: drops the leading and trailing whitespace. The
      result is a contiguous slice of the input that neither starts nor ends
      with whitespace, and everything cut away is whitespace. */
  function Trim(s: string): (r: string)
    ensures r == [] || (!IsWhitespace(r[0]) && !IsWhitespace(r[|r| - 1]))
    ensures exists i :: TrimmedAt(s, r, i)
  {
    var i := LeadingBlanks(s);
    var t := s[i..];
    var j := TrailingBlanks(t);
    var r := t[..|t| - j];
    assert forall k | |t| - j <= k < |t| :: t[k] == s[i + k];
    assert TrimmedAt(s, r, i);
    r
  }

  /** `!s.trim()` holds exactly for the blank strings: trimming yields the
      empty string if and only if every character is whitespace. */
  lemma TrimEmptyIffBlank(s: string)
    ensures Trim(s) == [] <==> Blank(s)
  {
    var r := Trim(s);
    var i :| TrimmedAt(s, r, i);
    if r != [] {
      assert r[0] == s[i];
    }
  }
}
