/** The `isMathLike` test that decides whether a bracketed payload becomes a formula. */
module Classifier {

  /** The command names listed after the bare-backslash alternative of the test's regex. */
  const CommandNames: seq<string> :=
    ["frac", "sin", "cos", "tan", "alpha", "beta", "gamma", "sqrt", "sum", "int", "cdot"]

  /** The word w occurs in s at offset i. */
  predicate OccursAt(s: string, i: nat, w: string) {
    i + |w| <= |s| && s[i..i + |w|] == w
  }

  /** Some alternative of `\\|[\^_{}]|\\frac|\\sin|...|\\cdot` matches at offset i. */
  predicate AlternativeAt(s: string, i: nat)
    requires i < |s|
  {
    s[i] == '\\' || s[i] in "^_{}" ||
    exists name :: name in CommandNames && OccursAt(s, i, "\\" + name)
  }

  /** `regex.test(s)`: the regex matches somewhere in s. */
  predicate IsMathLike(s: string)
    ensures IsMathLike(s) ==> s != []
  {
    exists i :: 0 <= i < |s| && AlternativeAt(s, i)
  }

  /** A character that on its own marks a payload as a formula. */
  predicate IsSignal(c: char) {
    c == '\\' || c == '^' || c == '_' || c == '{' || c == '}'
  }

  /** The named commands add nothing to the test: every one starts with a
      backslash, which the first alternative already accepts. So a payload is
      math-like exactly when it holds one of `\ ^ _ { }`. */
  lemma IsMathLikeIff(s: string)
    ensures IsMathLike(s) <==> exists i :: 0 <= i < |s| && IsSignal(s[i])
  {
    if IsMathLike(s) {
      var i :| 0 <= i < |s| && AlternativeAt(s, i);
      assert IsSignal(s[i]);
    }
    if exists i :: 0 <= i < |s| && IsSignal(s[i]) {
      var i :| 0 <= i < |s| && IsSignal(s[i]);
      assert AlternativeAt(s, i);
    }
  }

  /** An empty payload (from `[[]]`) is never math-like. */
  lemma EmptyIsNotMathLike()
    ensures !IsMathLike("")
  {
  }
}
