/** The field checks the login and registration screens share. Both screens
    define `isEmailValid` as `/\S+@\S+\.\S+/.test(input)` and
    `isPasswordValid` as `input.length >= 8`, word for word, so they are
    defined once here. */
module Email {
  import opened Text

  const MinPassword := 8

  /** `s[lo..hi]` is a non-empty run of non-whitespace characters: what `\S+`
      can match there. */
  predicate NonBlankRun(s: string, lo: int, hi: int) {
    0 <= lo < hi <= |s| && forall k | lo <= k < hi :: !IsWhitespace(s[k])
  }

  /** The regular expression matches the slice `s[i..e]`, with its `@` at `a`
      and its `.` at `d`. */
  predicate MatchesAt(s: string, i: int, a: int, d: int, e: int) {
    && NonBlankRun(s, i, a)
    && NonBlankRun(s, a + 1, d)
    && NonBlankRun(s, d + 1, e)
    && s[a] == '@'
    && s[d] == '.'
  }

  /** `RegExp.prototype.test` for the unanchored pattern `\S+@\S+\.\S+`: some
      slice of the input matches it. */
  predicate IsEmailValid(s: string) {
    exists i, a, d, e | 0 <= i < a < d < e <= |s| :: MatchesAt(s, i, a, d, e)
  }

  predicate IsPasswordValid(s: string) {
    |s| >= MinPassword
  }

  /** The shortest match: a non-blank character, the `@` at `a`, non-blank
      characters up to the `.` at `d` (at least one), and one non-blank
      character after it. */
  predicate AtDot(s: string, a: int, d: int) {
    && 1 <= a && a + 2 <= d && d + 2 <= |s|
    && !IsWhitespace(s[a - 1])
    && s[a] == '@'
    && (forall k | a < k < d :: !IsWhitespace(s[k]))
    && s[d] == '.'
    && !IsWhitespace(s[d + 1])
  }

  /** Every match can be shrunk to its shortest form and every shortest form
      is a match, so the pattern holds exactly when some `AtDot` does. */
  lemma EmailValidIffAtDot(s: string)
    ensures IsEmailValid(s) <==> exists a, d :: AtDot(s, a, d)
  {
    if IsEmailValid(s) {
      var i, a, d, e :| 0 <= i < a < d < e <= |s| && MatchesAt(s, i, a, d, e);
      assert AtDot(s, a, d);
    }
    if exists a, d :: AtDot(s, a, d) {
      var a, d :| AtDot(s, a, d);
      assert MatchesAt(s, a - 1, a, d, d + 2);
    }
  }

  /** A valid email contains an `@`, a `.` after it, and at least five characters. */
  lemma EmailValidNeedsAtThenDot(s: string)
    requires IsEmailValid(s)
    ensures exists a, d :: 0 <= a < d < |s| && s[a] == '@' && s[d] == '.'
    ensures |s| >= 5
  {
    EmailValidIffAtDot(s);
    var a, d :| AtDot(s, a, d);
  }

  /** A string without `@` is never a valid email. */
  lemma NoAtNotValid(s: string)
    requires forall k | 0 <= k < |s| :: s[k] != '@'
    ensures !IsEmailValid(s)
  {
    if IsEmailValid(s) {
      EmailValidNeedsAtThenDot(s);
    }
  }

  /** A string in which no `.` follows an `@` is never a valid email. */
  lemma NoDotAfterAtNotValid(s: string)
    requires forall a, d | 0 <= a < d < |s| && s[a] == '@' :: s[d] != '.'
    ensures !IsEmailValid(s)
  {
    if IsEmailValid(s) {
      EmailValidNeedsAtThenDot(s);
    }
  }

  /** The pattern is not anchored: a plain address is valid, and so is one
      after other words and spaces. */
  lemma ValidExamples()
    ensures IsEmailValid("a@b.com")
    ensures IsEmailValid("x a@b.c")
  {
    assert MatchesAt("a@b.com", 0, 1, 3, 7);
    assert MatchesAt("x a@b.c", 2, 3, 5, 7);
  }

  /** A space on either side of the `@` breaks the only candidate match. */
  lemma InvalidExamples()
    ensures !IsEmailValid("a @b.c")
    ensures !IsEmailValid("a@ b.c")
  {
    EmailValidIffAtDot("a @b.c");
    EmailValidIffAtDot("a@ b.c");
    assert IsWhitespace("a@ b.c"[2]);
  }

  /** A single left-to-right pass that decides the pattern. It is not the
      regular-expression engine the screens call, but it is proved to agree
      with `IsEmailValid` on every input. It tracks where the current
      whitespace-free run started and the first `@` inside that run that has a
      character before it. */
  method ScanEmail(s: string) returns (ok: bool)
    ensures ok <==> IsEmailValid(s)
  {
    EmailValidIffAtDot(s);
    var run := 0;
    var at := -1;
    var i := 0;
    while i < |s|
      invariant 0 <= run <= i <= |s|
      invariant forall k | run <= k < i :: !IsWhitespace(s[k])
      invariant run == 0 || IsWhitespace(s[run - 1])
      invariant at == -1 ==> forall k | run < k < i :: s[k] != '@'
      invariant at != -1 ==> run < at < i && s[at] == '@'
      invariant at != -1 ==> forall k | run < k < at :: s[k] != '@'
      invariant forall a, d | d < i :: !AtDot(s, a, d)
    {
      var c := s[i];
      if IsWhitespace(c) {
        run, at := i + 1, -1;
      } else if c == '@' && at == -1 && run < i {
        at := i;
      } else if c == '.' && at != -1 && at + 2 <= i && i + 1 < |s| && !IsWhitespace(s[i + 1]) {
        assert AtDot(s, at, i);
        return true;
      }
      i := i + 1;
    }
    return false;
  }
}
