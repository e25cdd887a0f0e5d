/**
  Character classes and small facts about strings shared by every rewrite
  pass of the editor: the regular-expression class `\s`, two-character
  patterns, and runs of whitespace or newlines.
*/
module Text {

  /** The characters the regular-expression class `\s` matches in
      ECMAScript: the WhiteSpace and LineTerminator code points. */
  predicate IsWhitespace(c: char) {
    var n := c as int;
    || n == 0x09 || n == 0x0A || n == 0x0B || n == 0x0C || n == 0x0D
    || n == 0x20 || n == 0xA0 || n == 0x1680
    || (0x2000 <= n <= 0x200A)
    || n == 0x2028 || n == 0x2029 || n == 0x202F || n == 0x205F
    || n == 0x3000 || n == 0xFEFF
  }

  /** `s` holds the two-character pattern `a b` starting at position `j`. */
  predicate PairAt(s: string, j: nat, a: char, b: char) {
    j + 1 < |s| && s[j] == a && s[j + 1] == b
  }

  /** `s` holds the pattern `a b` nowhere. */
  predicate NoPair(s: string, a: char, b: char) {
    forall j: nat :: j < |s| ==> !PairAt(s, j, a, b)
  }

  /** `s` holds three newlines in a row starting at position `j`. */
  predicate TripleNewlineAt(s: string, j: nat) {
    j + 2 < |s| && s[j] == '\n' && s[j + 1] == '\n' && s[j + 2] == '\n'
  }

  /** `s` holds no run of three or more newlines. */
  predicate NoTripleNewline(s: string) {
    forall j: nat :: j < |s| ==> !TripleNewlineAt(s, j)
  }

  /** Length of the maximal run of whitespace starting at position `i`:
      what the greedy quantifier `\s*` consumes there. */
  function WhitespaceRun(s: string, i: nat): (k: nat)
    requires i <= |s|
    ensures i + k <= |s|
    ensures i + k == |s| || !IsWhitespace(s[i + k])
    decreases |s| - i
  {
    if i < |s| && IsWhitespace(s[i]) then 1 + WhitespaceRun(s, i + 1) else 0
  }

  /** Length of the maximal run of newlines starting at position `i`:
      what the greedy quantifier `\n{3,}` consumes there. */
  function NewlineRun(s: string, i: nat): (k: nat)
    requires i <= |s|
    ensures i + k <= |s|
    ensures i + k == |s| || s[i + k] != '\n'
    decreases |s| - i
  {
    if i < |s| && s[i] == '\n' then 1 + NewlineRun(s, i + 1) else 0
  }

  /** No whitespace character is a backslash. */
  lemma WhitespaceNotBackslash(c: char)
    requires IsWhitespace(c)
    ensures c != '\\'
  {
  }

  /** Every character of the whitespace run is whitespace. */
  lemma {:induction false} InWhitespaceRun(s: string, i: nat, j: nat)
    requires i <= |s| && i <= j < i + WhitespaceRun(s, i)
    ensures IsWhitespace(s[j])
    decreases j - i
  {
    if j > i {
      InWhitespaceRun(s, i + 1, j);
    }
  }

  /** Every character of the newline run is a newline. */
  lemma {:induction false} InNewlineRun(s: string, i: nat, j: nat)
    requires i <= |s| && i <= j < i + NewlineRun(s, i)
    ensures s[j] == '\n'
    decreases j - i
  {
    if j > i {
      InNewlineRun(s, i + 1, j);
    }
  }

  /** Joining two strings free of `a b` creates one only at the seam. */
  lemma NoPairJoin(x: string, y: string, a: char, b: char)
    requires NoPair(x, a, b) && NoPair(y, a, b)
    requires |x| == 0 || |y| == 0 || !(x[|x| - 1] == a && y[0] == b)
    ensures NoPair(x + y, a, b)
  {
    forall j: nat
      ensures !PairAt(x + y, j, a, b)
    {
      if j + 1 < |x| {
        assert !PairAt(x, j, a, b);
      } else if j >= |x| {
        assert !PairAt(y, j - |x|, a, b);
      }
    }
  }

  /** A string none of whose characters is `a` holds no pattern starting with `a`. */
  lemma NoPairWithout(x: string, a: char, b: char)
    requires a !in x
    ensures NoPair(x, a, b)
  {
    forall j: nat
      ensures !PairAt(x, j, a, b)
    {
      if j + 1 < |x| {
        assert x[j] in x;
      }
    }
  }
}
