/**
 * The store's case-insensitive `$regex` match of a title against a literal
 * pattern. When the search text holds no regular-expression metacharacter the
 * pattern stands for itself, and it matches wherever it occurs in the title
 * with letters compared regardless of case.
 */
module Text {

  /** Case folding of the ASCII letters: `A`-`Z` compare equal to `a`-`z`. */
  function Fold(c: char): char {
    if 'A' <= c <= 'Z' then (c as int + 32) as char else c
  }

  /** The characters with a special meaning in a regular expression. */
  const Metacharacters: string := "\\^$.|?*+()[]{}"

  /**
   * Characters that are no metacharacter but that the store refuses in a
   * pattern: NUL, which its document encoding does not allow in a pattern, and
   * the line and paragraph separators, which reach it written as `\u` escapes
   * that its engine does not accept.
   */
  const Unencodable: string := "\0\U{2028}\U{2029}"

  /**
   * A pattern in which every character matches only itself, and which the
   * store accepts.
   */
  predicate IsLiteral(p: string) {
    forall i :: 0 <= i < |p| ==> p[i] !in Metacharacters && p[i] !in Unencodable
  }

  type LiteralPattern = p: string | IsLiteral(p) witness ""

  /** Search texts holding NUL or a line or paragraph separator are outside the literal patterns. */
  lemma UnencodableRefused()
    ensures !IsLiteral("a\0b") && !IsLiteral("a\U{2028}") && !IsLiteral("\U{2029}")
    ensures IsLiteral("abc")
  {
    assert "a\0b"[1] in Unencodable;
    assert "a\U{2028}"[1] in Unencodable;
    assert "\U{2029}"[0] in Unencodable;
  }

  /** `p` occurs in `t` at position `i`, ignoring the case of letters. */
  ghost predicate OccursAt(p: string, t: string, i: int) {
    && 0 <= i && i + |p| <= |t|
    && forall j :: 0 <= j < |p| ==> Fold(t[i + j]) == Fold(p[j])
  }

  /** `t` contains `p` as a substring, ignoring the case of letters. */
  ghost predicate ContainsIgnoreCase(t: string, p: string) {
    exists i :: OccursAt(p, t, i)
  }

  /** `t` starts with `p`, ignoring the case of letters. */
  predicate StartsWithIgnoreCase(t: string, p: string) {
    |p| <= |t| && forall j :: 0 <= j < |p| ==> Fold(t[j]) == Fold(p[j])
  }

  /**
   * The store's case-insensitive `$regex` match of `t` against a literal `p`:
   * an unanchored pattern is tried at each start position of `t` in turn.
   */
  predicate TestIgnoreCase(p: LiteralPattern, t: string)
    decreases |t|
  {
    StartsWithIgnoreCase(t, p) || (t != [] && TestIgnoreCase(p, t[1..]))
  }

  /** The regular-expression test succeeds exactly when the title contains the pattern. */
  lemma {:induction false} TestIgnoreCaseContains(p: LiteralPattern, t: string)
    ensures TestIgnoreCase(p, t) <==> ContainsIgnoreCase(t, p)
    decreases |t|
  {
    if StartsWithIgnoreCase(t, p) {
      assert OccursAt(p, t, 0);
    } else if t != [] {
      var u := t[1..];
      TestIgnoreCaseContains(p, u);
      if ContainsIgnoreCase(u, p) {
        var i :| OccursAt(p, u, i);
        assert OccursAt(p, t, i + 1);
      }
      if ContainsIgnoreCase(t, p) {
        var i :| OccursAt(p, t, i);
        assert i != 0;
        assert OccursAt(p, u, i - 1);
      }
    }
  }

  /** Titles "ABCDE" and "xxabcxx" contain "abc" ignoring case; "xyz" does not. */
  lemma SearchExamples()
    ensures ContainsIgnoreCase("ABCDE", "abc")
    ensures ContainsIgnoreCase("xxabcxx", "abc")
    ensures !ContainsIgnoreCase("xyz", "abc")
  {
    assert OccursAt("abc", "ABCDE", 0);
    assert OccursAt("abc", "xxabcxx", 2);
    forall i ensures !OccursAt("abc", "xyz", i) {
      if 0 <= i && i + 3 <= 3 {
        assert Fold("xyz"[i]) != Fold("abc"[0]);
      }
    }
  }
}
