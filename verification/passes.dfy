/**
  The global regular-expression replacements the editor applies to text
  (src/App.jsx:213-225 and 236-239), each modelled as the left-to-right,
  non-overlapping scan that `String.prototype.replace` with a `g` flag
  performs: at every position the scan tries the pattern (greedily); on a
  match it emits the replacement and resumes after the match, otherwise it
  emits the character and moves on by one.

  Every scan is proved equal to its position-wise description in `Rules`,
  and proved to leave no occurrence of its pattern behind.

  Proof layout. Each equality proof is an induction whose body only calls
  lemmas: a case lemma per branch of the scan, which in turn joins one
  unfolding of the scan (the `...FromMatch` / `...FromMiss` lemmas), one
  step of the reference, and the induction hypothesis, wrapped in an
  `...Agrees` predicate. The unfolding lemmas and `TwoNewlines` state
  facts Dafny proves on its own; they exist so that each proof obligation
  stays small, which keeps the solver's effort low and the same from one
  random seed to the next.
*/
module Passes {
  import opened Text
  import opened Rules

  // .replace(/ab/g, rep) for a two-character literal `a b`

  function ReplacePairFrom(s: string, a: char, b: char, rep: string, i: nat): string
    requires i <= |s|
    decreases |s| - i
  {
    if i == |s| then []
    else if PairAt(s, i, a, b) then rep + ReplacePairFrom(s, a, b, rep, i + 2)
    else [s[i]] + ReplacePairFrom(s, a, b, rep, i + 1)
  }

  /** Replaces every occurrence of `a b` in `s` by `rep`. When `a` and `b`
      differ, occurrences cannot overlap, so every one of them is replaced
      and every other character is kept in place. */
  function ReplacePair(s: string, a: char, b: char, rep: string): string
  {
    ReplacePairFrom(s, a, b, rep, 0)
  }

  lemma {:induction false} ReplacePairMatchesRule(s: string, a: char, b: char, rep: string, i: nat)
    requires a != b
    requires i <= |s|
    requires !(i > 0 && PairAt(s, i - 1, a, b))
    ensures ReplacePairFrom(s, a, b, rep, i) == Rewritten(Literal(a, b, rep), s, i)
    decreases |s| - i
  {
    if i < |s| {
      if PairAt(s, i, a, b) {
        assert Image(Literal(a, b, rep), s, i + 1) == [];
        ReplacePairMatchesRule(s, a, b, rep, i + 2);
      } else {
        ReplacePairMatchesRule(s, a, b, rep, i + 1);
      }
    }
  }

  /** Replacing `a b` by two characters keeps the length and changes only
      the two positions of each occurrence. */
  lemma {:induction false} ReplacePairInPlace(s: string, a: char, b: char, rep: string, i: nat)
    requires a != b && |rep| == 2
    requires i <= |s|
    requires !(i > 0 && PairAt(s, i - 1, a, b))
    ensures |ReplacePairFrom(s, a, b, rep, i)| == |s| - i
    ensures forall j :: i <= j < |s| ==>
      ReplacePairFrom(s, a, b, rep, i)[j - i] == PairImage(s, a, b, rep, j)
    decreases |s| - i
  {
    if i < |s| {
      var r := ReplacePairFrom(s, a, b, rep, i);
      if PairAt(s, i, a, b) {
        ReplacePairInPlace(s, a, b, rep, i + 2);
        var t := ReplacePairFrom(s, a, b, rep, i + 2);
        assert r == rep + t;
        forall j | i <= j < |s|
          ensures r[j - i] == PairImage(s, a, b, rep, j)
        {
          if j >= i + 2 {
            assert r[j - i] == t[j - (i + 2)];
          }
        }
      } else {
        ReplacePairInPlace(s, a, b, rep, i + 1);
        var t := ReplacePairFrom(s, a, b, rep, i + 1);
        assert r == [s[i]] + t;
        forall j | i <= j < |s|
          ensures r[j - i] == PairImage(s, a, b, rep, j)
        {
          if j >= i + 1 {
            assert r[j - i] == t[j - (i + 1)];
          }
        }
      }
    }
  }

  /** The character at position `j` after replacing `a b` in place by the
      two characters of `rep`. */
  function PairImage(s: string, a: char, b: char, rep: string, j: nat): char
    requires j < |s| && |rep| == 2
  {
    if PairAt(s, j, a, b) then rep[0]
    else if j > 0 && PairAt(s, j - 1, a, b) then rep[1]
    else s[j]
  }

  /** The scan leaves no `c d` behind when neither character can come from
      the replacement: either `c d` is the pattern itself, or the input
      had none. */
  lemma {:induction false} ReplacePairFree(s: string, a: char, b: char, rep: string, c: char, d: char, i: nat)
    requires i <= |s|
    requires |rep| > 0 && c !in rep && d !in rep
    requires (c == a && d == b) || NoPair(s, c, d)
    ensures NoPair(ReplacePairFrom(s, a, b, rep, i), c, d)
    decreases |s| - i
  {
    if i < |s| {
      NoPairWithout(rep, c, d);
      if PairAt(s, i, a, b) {
        ReplacePairFree(s, a, b, rep, c, d, i + 2);
        NoPairJoin(rep, ReplacePairFrom(s, a, b, rep, i + 2), c, d);
      } else {
        ReplacePairFree(s, a, b, rep, c, d, i + 1);
        if i + 1 < |s| {
          assert !PairAt(s, i, c, d);
        }
        NoPairJoin([s[i]], ReplacePairFrom(s, a, b, rep, i + 1), c, d);
      }
    }
  }

  /** Without an occurrence of `a b` the text passes through unchanged. */
  lemma {:induction false} ReplacePairIdentity(s: string, a: char, b: char, rep: string, i: nat)
    requires i <= |s|
    requires NoPair(s, a, b)
    ensures ReplacePairFrom(s, a, b, rep, i) == s[i..]
    decreases |s| - i
  {
    if i < |s| {
      ReplacePairIdentity(s, a, b, rep, i + 1);
      assert s[i..] == [s[i]] + s[i + 1..];
    }
  }

  // .replace(/\r/g, '\n'): one character for another

  function ReplaceCharFrom(s: string, c: char, d: char, i: nat): string
    requires i <= |s|
    decreases |s| - i
  {
    if i == |s| then []
    else [if s[i] == c then d else s[i]] + ReplaceCharFrom(s, c, d, i + 1)
  }

  /** Replaces every `c` in `s` by `d`, position by position. */
  function ReplaceChar(s: string, c: char, d: char): (r: string)
    ensures |r| == |s|
    ensures forall j :: 0 <= j < |s| ==> r[j] == if s[j] == c then d else s[j]
  {
    ReplaceCharInPlace(s, c, d, 0);
    ReplaceCharFrom(s, c, d, 0)
  }

  lemma {:induction false} ReplaceCharInPlace(s: string, c: char, d: char, i: nat)
    requires i <= |s|
    ensures |ReplaceCharFrom(s, c, d, i)| == |s| - i
    ensures forall j :: i <= j < |s| ==>
      ReplaceCharFrom(s, c, d, i)[j - i] == if s[j] == c then d else s[j]
    decreases |s| - i
  {
    if i < |s| {
      ReplaceCharInPlace(s, c, d, i + 1);
      var r, t := ReplaceCharFrom(s, c, d, i), ReplaceCharFrom(s, c, d, i + 1);
      assert r == [if s[i] == c then d else s[i]] + t;
      forall j | i < j < |s|
        ensures r[j - i] == if s[j] == c then d else s[j]
      {
        assert r[j - i] == t[j - (i + 1)];
      }
    }
  }

  lemma ReplaceCharSingle(x: char, c: char, d: char)
    ensures ReplaceChar([x], c, d) == [if x == c then d else x]
  {
    assert ReplaceChar([x], c, d)[0] == if x == c then d else x;
  }

  /** Replacing a character commutes with joining strings. */
  lemma ReplaceCharJoin(x: string, y: string, c: char, d: char)
    ensures ReplaceChar(x + y, c, d) == ReplaceChar(x, c, d) + ReplaceChar(y, c, d)
  {
    var l, r := ReplaceChar(x + y, c, d), ReplaceChar(x, c, d) + ReplaceChar(y, c, d);
    assert |l| == |r|;
    forall j | 0 <= j < |l|
      ensures l[j] == r[j]
    {
      if j >= |x| {
        assert (x + y)[j] == y[j - |x|];
      }
    }
  }

  // .replace(/\\\(\s*/g, '$')

  function OpenInlineFrom(s: string, i: nat): string
    requires i <= |s|
    decreases |s| - i
  {
    if i == |s| then []
    else if PairAt(s, i, '\\', '(') then "$" + OpenInlineFrom(s, i + 2 + WhitespaceRun(s, i + 2))
    else [s[i]] + OpenInlineFrom(s, i + 1)
  }

  /** Replaces each `\(`, together with the whitespace right after it, by `$`. */
  function OpenInline(s: string): (r: string)
    ensures NoPair(r, '\\', '(')
  {
    OpenInlineFree(s, '\\', '(', 0);
    OpenInlineFrom(s, 0)
  }

  /** Each `\(` and the whitespace after it become one `$`; every other
      character is kept, in order. */
  lemma OpenInlineRule(s: string)
    ensures OpenInline(s) == Rewritten(InlineOpen, s, 0)
  {
    OpenInlineMatchesRule(s, 0);
  }

  /** The whitespace run after a `\(` is swallowed with it. */
  lemma {:induction false} OpenerRun(s: string, i: nat, j: nat)
    requires PairAt(s, i, '\\', '(')
    requires i + 1 <= j < i + 2 + WhitespaceRun(s, i + 2)
    ensures AfterOpener(s, j)
    decreases j
  {
    if j > i + 1 {
      InWhitespaceRun(s, i + 2, j);
      OpenerRun(s, i, j - 1);
    }
  }

  /** The scan from `i` agrees with the reference from `i`. */
  predicate OpenInlineAgrees(s: string, i: nat)
    requires i <= |s|
  {
    OpenInlineFrom(s, i) == Rewritten(InlineOpen, s, i)
  }

  /** The `\(` scan from a position the reference does not swallow equals
      the reference from there on. */
  lemma {:induction false} OpenInlineMatchesRule(s: string, i: nat)
    requires i <= |s|
    requires i == |s| || !AfterOpener(s, i)
    ensures OpenInlineAgrees(s, i)
    decreases |s| - i
  {
    if i < |s| {
      if PairAt(s, i, '\\', '(') {
        OpenerResume(s, i);
        OpenInlineMatchesRule(s, i + 2 + WhitespaceRun(s, i + 2));
        OpenInlineMatchCase(s, i);
      } else {
        OpenInlineMissResume(s, i);
        OpenInlineMatchesRule(s, i + 1);
        OpenInlineMissCase(s, i);
      }
    }
  }

  /** Where the scan matches, the reference yields one `$` for the whole
      match. */
  lemma OpenInlineMatchCase(s: string, i: nat)
    requires PairAt(s, i, '\\', '(')
    requires OpenInlineAgrees(s, i + 2 + WhitespaceRun(s, i + 2))
    ensures OpenInlineAgrees(s, i)
  {
    OpenInlineFromMatch(s, i);
    OpenInlineMatchStep(s, i);
  }

  /** Where the scan does not match, the reference keeps the character. */
  lemma OpenInlineMissCase(s: string, i: nat)
    requires i < |s| && !AfterOpener(s, i) && !PairAt(s, i, '\\', '(')
    requires OpenInlineAgrees(s, i + 1)
    ensures OpenInlineAgrees(s, i)
  {
    OpenInlineFromMiss(s, i);
    OpenInlineMissStep(s, i);
  }

  /** The scan at a `\(`. */
  lemma OpenInlineFromMatch(s: string, i: nat)
    requires PairAt(s, i, '\\', '(')
    ensures OpenInlineFrom(s, i) == "$" + OpenInlineFrom(s, i + 2 + WhitespaceRun(s, i + 2))
  {
  }

  /** The scan anywhere else. */
  lemma OpenInlineFromMiss(s: string, i: nat)
    requires i < |s| && !PairAt(s, i, '\\', '(')
    ensures OpenInlineFrom(s, i) == [s[i]] + OpenInlineFrom(s, i + 1)
  {
  }

  /** On the reference side, a `\(` and the whitespace after it give one `$`. */
  lemma OpenInlineMatchStep(s: string, i: nat)
    requires PairAt(s, i, '\\', '(')
    ensures Rewritten(InlineOpen, s, i) == "$" + Rewritten(InlineOpen, s, i + 2 + WhitespaceRun(s, i + 2))
  {
    OpenerHead(s, i);
    OpenerSilent(s, i, i + 1);
  }

  /** The `\` of a `\(` yields the `$`. */
  lemma OpenerHead(s: string, i: nat)
    requires PairAt(s, i, '\\', '(')
    ensures Rewritten(InlineOpen, s, i) == "$" + Rewritten(InlineOpen, s, i + 1)
  {
    assert Image(InlineOpen, s, i) == "$";
  }

  /** On the reference side, a character outside a match is kept. */
  lemma OpenInlineMissStep(s: string, i: nat)
    requires i < |s| && !AfterOpener(s, i) && !PairAt(s, i, '\\', '(')
    ensures Rewritten(InlineOpen, s, i) == [s[i]] + Rewritten(InlineOpen, s, i + 1)
  {
    assert Image(InlineOpen, s, i) == [s[i]];
  }

  /** The `(` of a `\(` and the whitespace run after it have empty images:
      from any of those positions on, the reference is what it is past
      the match. */
  lemma {:induction false} OpenerSilent(s: string, i: nat, j: nat)
    requires PairAt(s, i, '\\', '(')
    requires i + 1 <= j <= i + 2 + WhitespaceRun(s, i + 2)
    ensures Rewritten(InlineOpen, s, j) == Rewritten(InlineOpen, s, i + 2 + WhitespaceRun(s, i + 2))
    decreases i + 2 + WhitespaceRun(s, i + 2) - j
  {
    if j < i + 2 + WhitespaceRun(s, i + 2) {
      OpenerSilentAt(s, i, j);
      OpenerSilent(s, i, j + 1);
    }
  }

  lemma OpenerSilentAt(s: string, i: nat, j: nat)
    requires PairAt(s, i, '\\', '(')
    requires i + 1 <= j < i + 2 + WhitespaceRun(s, i + 2)
    ensures Rewritten(InlineOpen, s, j) == Rewritten(InlineOpen, s, j + 1)
  {
    OpenerRun(s, i, j);
    if j >= i + 2 {
      InWhitespaceRun(s, i + 2, j);
      WhitespaceNotBackslash(s[j]);
    }
    assert Image(InlineOpen, s, j) == [];
  }

  /** The character after the swallowed whitespace is not swallowed. */
  lemma OpenerResume(s: string, i: nat)
    requires PairAt(s, i, '\\', '(')
    ensures i + 2 + WhitespaceRun(s, i + 2) == |s| || !AfterOpener(s, i + 2 + WhitespaceRun(s, i + 2))
  {
    var m := i + 2 + WhitespaceRun(s, i + 2);
    if m < |s| {
      if m > i + 2 {
        InWhitespaceRun(s, i + 2, m - 1);
        WhitespaceNotBackslash(s[m - 1]);
      }
      assert !IsWhitespace(s[m]);
    }
  }

  /** A character the scan passes over does not make the reference swallow
      the next one. */
  lemma OpenInlineMissResume(s: string, i: nat)
    requires i < |s| && !AfterOpener(s, i) && !PairAt(s, i, '\\', '(')
    ensures i + 1 == |s| || !AfterOpener(s, i + 1)
  {
  }

  /** No `\(` survives, and no other pattern `c d` free of `$` appears. */
  lemma {:induction false} OpenInlineFree(s: string, c: char, d: char, i: nat)
    requires i <= |s|
    requires c != '$' && d != '$'
    requires (c == '\\' && d == '(') || NoPair(s, c, d)
    ensures NoPair(OpenInlineFrom(s, i), c, d)
    decreases |s| - i
  {
    if i < |s| {
      NoPairWithout("$", c, d);
      if PairAt(s, i, '\\', '(') {
        var m := i + 2 + WhitespaceRun(s, i + 2);
        OpenInlineFree(s, c, d, m);
        NoPairJoin("$", OpenInlineFrom(s, m), c, d);
      } else {
        OpenInlineFree(s, c, d, i + 1);
        if i + 1 < |s| {
          assert !PairAt(s, i, c, d);
        }
        NoPairJoin([s[i]], OpenInlineFrom(s, i + 1), c, d);
      }
    }
  }

  lemma {:induction false} OpenInlineIdentity(s: string, i: nat)
    requires i <= |s|
    requires NoPair(s, '\\', '(')
    ensures OpenInlineFrom(s, i) == s[i..]
    decreases |s| - i
  {
    if i < |s| {
      OpenInlineIdentity(s, i + 1);
      assert s[i..] == [s[i]] + s[i + 1..];
    }
  }

  // .replace(/\s*\\\)/g, '$')

  function CloseInlineFrom(s: string, i: nat): string
    requires i <= |s|
    decreases |s| - i
  {
    if i == |s| then []
    else
      var k := WhitespaceRun(s, i);
      if PairAt(s, i + k, '\\', ')') then "$" + CloseInlineFrom(s, i + k + 2)
      else [s[i]] + CloseInlineFrom(s, i + 1)
  }

  /** Replaces each `\)`, together with the whitespace right before it, by `$`. */
  function CloseInline(s: string): (r: string)
    ensures NoPair(r, '\\', ')')
  {
    CloseInlineFree(s, '\\', ')', 0);
    CloseInlineFrom(s, 0)
  }

  /** Each `\)` and the whitespace before it become one `$`; every other
      character is kept, in order. */
  lemma CloseInlineRule(s: string)
    ensures CloseInline(s) == Rewritten(InlineClose, s, 0)
  {
    CloseInlineMatchesRule(s, 0);
  }

  /** Whitespace that reaches a `\)` is exactly the greedy run before it. */
  lemma {:induction false} CloserReach(s: string, j: nat)
    requires j < |s| && BeforeCloser(s, j)
    ensures PairAt(s, j + WhitespaceRun(s, j), '\\', ')')
    decreases |s| - j
  {
    if !PairAt(s, j + 1, '\\', ')') {
      CloserReach(s, j + 1);
    }
  }

  lemma {:induction false} CloserRun(s: string, i: nat, j: nat)
    requires i <= |s| && PairAt(s, i + WhitespaceRun(s, i), '\\', ')')
    requires i <= j < i + WhitespaceRun(s, i)
    ensures BeforeCloser(s, j)
    decreases i + WhitespaceRun(s, i) - j
  {
    InWhitespaceRun(s, i, j);
    if j + 1 < i + WhitespaceRun(s, i) {
      CloserRun(s, i, j + 1);
    }
  }

  /** The scan from `i` agrees with the reference from `i`. */
  predicate CloseInlineAgrees(s: string, i: nat)
    requires i <= |s|
  {
    CloseInlineFrom(s, i) == Rewritten(InlineClose, s, i)
  }

  lemma {:induction false} CloseInlineMatchesRule(s: string, i: nat)
    requires i <= |s|
    requires !(i > 0 && PairAt(s, i - 1, '\\', ')'))
    ensures CloseInlineAgrees(s, i)
    decreases |s| - i
  {
    if i < |s| {
      if PairAt(s, i + WhitespaceRun(s, i), '\\', ')') {
        CloseInlineMatchesRule(s, i + WhitespaceRun(s, i) + 2);
        CloseInlineMatchCase(s, i);
      } else {
        CloseInlineMissResume(s, i);
        CloseInlineMatchesRule(s, i + 1);
        CloseInlineMissCase(s, i);
      }
    }
  }

  /** Where the scan matches, the reference yields one `$` for the whole
      match. */
  lemma CloseInlineMatchCase(s: string, i: nat)
    requires i < |s| && PairAt(s, i + WhitespaceRun(s, i), '\\', ')')
    requires CloseInlineAgrees(s, i + WhitespaceRun(s, i) + 2)
    ensures CloseInlineAgrees(s, i)
  {
    CloseInlineFromMatch(s, i);
    CloserSilent(s, i, i);
  }

  /** Where the scan does not match, the reference keeps the character. */
  lemma CloseInlineMissCase(s: string, i: nat)
    requires i < |s| && !PairAt(s, i + WhitespaceRun(s, i), '\\', ')')
    requires !(i > 0 && PairAt(s, i - 1, '\\', ')'))
    requires CloseInlineAgrees(s, i + 1)
    ensures CloseInlineAgrees(s, i)
  {
    CloseInlineFromMiss(s, i);
    CloseInlineMissStep(s, i);
  }

  /** The scan where whitespace and a `\)` follow. */
  lemma CloseInlineFromMatch(s: string, i: nat)
    requires i < |s| && PairAt(s, i + WhitespaceRun(s, i), '\\', ')')
    ensures CloseInlineFrom(s, i) == "$" + CloseInlineFrom(s, i + WhitespaceRun(s, i) + 2)
  {
  }

  /** The scan anywhere else. */
  lemma CloseInlineFromMiss(s: string, i: nat)
    requires i < |s| && !PairAt(s, i + WhitespaceRun(s, i), '\\', ')')
    ensures CloseInlineFrom(s, i) == [s[i]] + CloseInlineFrom(s, i + 1)
  {
  }

  /** On the reference side, a character outside a match is kept. */
  lemma CloseInlineMissStep(s: string, i: nat)
    requires i < |s| && !PairAt(s, i + WhitespaceRun(s, i), '\\', ')')
    requires !(i > 0 && PairAt(s, i - 1, '\\', ')'))
    ensures Rewritten(InlineClose, s, i) == [s[i]] + Rewritten(InlineClose, s, i + 1)
  {
    CloseInlineMissResume(s, i);
    if BeforeCloser(s, i) {
      CloserReach(s, i);
    }
    assert Image(InlineClose, s, i) == [s[i]];
  }

  /** On the reference side, the whitespace run before a `\)` has empty
      images and the `\)` yields one `$`: from any position of the run on,
      the reference is `$` followed by what comes after the `\)`. */
  lemma {:induction false} CloserSilent(s: string, i: nat, j: nat)
    requires i < |s| && PairAt(s, i + WhitespaceRun(s, i), '\\', ')')
    requires i <= j <= i + WhitespaceRun(s, i)
    ensures Rewritten(InlineClose, s, j) == "$" + Rewritten(InlineClose, s, i + WhitespaceRun(s, i) + 2)
    decreases i + WhitespaceRun(s, i) - j
  {
    if j < i + WhitespaceRun(s, i) {
      CloserSilentAt(s, i, j);
      CloserSilent(s, i, j + 1);
    } else {
      CloserHead(s, j);
    }
  }

  lemma CloserSilentAt(s: string, i: nat, j: nat)
    requires i < |s| && PairAt(s, i + WhitespaceRun(s, i), '\\', ')')
    requires i <= j < i + WhitespaceRun(s, i)
    ensures Rewritten(InlineClose, s, j) == Rewritten(InlineClose, s, j + 1)
  {
    CloserRun(s, i, j);
    InWhitespaceRun(s, i, j);
    WhitespaceNotBackslash(s[j]);
    assert Image(InlineClose, s, j) == [];
  }

  /** A `\)` itself yields one `$`. */
  lemma CloserHead(s: string, p: nat)
    requires PairAt(s, p, '\\', ')')
    ensures Rewritten(InlineClose, s, p) == "$" + Rewritten(InlineClose, s, p + 2)
  {
    assert Image(InlineClose, s, p) == "$";
    assert Image(InlineClose, s, p + 1) == [];
    assert Rewritten(InlineClose, s, p + 1) == Rewritten(InlineClose, s, p + 2);
  }

  /** A character the scan passes over is not the start of a `\)`. */
  lemma CloseInlineMissResume(s: string, i: nat)
    requires i < |s| && !PairAt(s, i + WhitespaceRun(s, i), '\\', ')')
    ensures !PairAt(s, i, '\\', ')')
  {
    if s[i] == '\\' {
      assert !IsWhitespace(s[i]);
      assert WhitespaceRun(s, i) == 0;
    }
  }

  /** No `\)` survives, and no other pattern `c d` free of `$` appears. */
  lemma {:induction false} CloseInlineFree(s: string, c: char, d: char, i: nat)
    requires i <= |s|
    requires c != '$' && d != '$'
    requires (c == '\\' && d == ')') || NoPair(s, c, d)
    ensures NoPair(CloseInlineFrom(s, i), c, d)
    decreases |s| - i
  {
    if i < |s| {
      NoPairWithout("$", c, d);
      var k := WhitespaceRun(s, i);
      if PairAt(s, i + k, '\\', ')') {
        CloseInlineFree(s, c, d, i + k + 2);
        NoPairJoin("$", CloseInlineFrom(s, i + k + 2), c, d);
      } else {
        CloseInlineFree(s, c, d, i + 1);
        if i + 1 < |s| {
          assert !PairAt(s, i, c, d);
        }
        NoPairJoin([s[i]], CloseInlineFrom(s, i + 1), c, d);
      }
    }
  }

  lemma {:induction false} CloseInlineIdentity(s: string, i: nat)
    requires i <= |s|
    requires NoPair(s, '\\', ')')
    ensures CloseInlineFrom(s, i) == s[i..]
    decreases |s| - i
  {
    if i < |s| {
      CloseInlineIdentity(s, i + 1);
      assert s[i..] == [s[i]] + s[i + 1..];
    }
  }

  // .replace(/\n{3,}/g, '\n\n')

  function CollapseFrom(s: string, i: nat): string
    requires i <= |s|
    decreases |s| - i
  {
    if i == |s| then []
    else
      var k := NewlineRun(s, i);
      if k >= 3 then "\n\n" + CollapseFrom(s, i + k)
      else [s[i]] + CollapseFrom(s, i + 1)
  }

  /** Shrinks every run of three or more newlines to two newlines. */
  function CollapseNewlines(s: string): (r: string)
    ensures NoTripleNewline(r)
  {
    CollapseBounded(s, 0);
    CollapseFrom(s, 0)
  }

  /** Exactly the newlines that follow two newlines are dropped. */
  lemma CollapseNewlinesRule(s: string)
    ensures CollapseNewlines(s) == Rewritten(NewlineRuns, s, 0)
  {
    CollapseMatchesRule(s, 0);
  }

  /** The positions the scan stops at: never the third or later newline of a
      run, and never inside a run of three or more. */
  predicate CollapseReady(s: string, i: nat)
    requires i <= |s|
  {
    || i == 0 || i == |s| || s[i - 1] != '\n' || s[i] != '\n'
    || ((i < 2 || s[i - 2] != '\n') && NewlineRun(s, i) <= 1)
  }

  /** The scan from `i` agrees with the reference from `i`. */
  predicate CollapseAgrees(s: string, i: nat)
    requires i <= |s|
  {
    CollapseFrom(s, i) == Rewritten(NewlineRuns, s, i)
  }

  lemma {:induction false} CollapseMatchesRule(s: string, i: nat)
    requires i <= |s|
    requires CollapseReady(s, i)
    ensures CollapseAgrees(s, i)
    decreases |s| - i
  {
    if i < |s| {
      if NewlineRun(s, i) >= 3 {
        CollapseRunReady(s, i);
        CollapseMatchesRule(s, i + NewlineRun(s, i));
        CollapseMatchCase(s, i);
      } else {
        CollapseMissReady(s, i);
        CollapseMatchesRule(s, i + 1);
        CollapseMissCase(s, i);
      }
    }
  }

  /** A run of three or more newlines the scan reaches keeps its first two. */
  lemma CollapseMatchCase(s: string, i: nat)
    requires i < |s| && CollapseReady(s, i) && NewlineRun(s, i) >= 3
    requires CollapseAgrees(s, i + NewlineRun(s, i))
    ensures CollapseAgrees(s, i)
  {
    CollapseFromMatch(s, i);
    CollapseMatchStep(s, i);
  }

  /** A character the scan passes over is kept by the reference. */
  lemma CollapseMissCase(s: string, i: nat)
    requires i < |s| && CollapseReady(s, i) && NewlineRun(s, i) < 3
    requires CollapseAgrees(s, i + 1)
    ensures CollapseAgrees(s, i)
  {
    CollapseFromMiss(s, i);
    CollapseMissStep(s, i);
  }

  /** The scan at a run of three or more newlines. */
  lemma CollapseFromMatch(s: string, i: nat)
    requires i < |s| && NewlineRun(s, i) >= 3
    ensures CollapseFrom(s, i) == "\n\n" + CollapseFrom(s, i + NewlineRun(s, i))
  {
  }

  /** The scan anywhere else. */
  lemma CollapseFromMiss(s: string, i: nat)
    requires i < |s| && NewlineRun(s, i) < 3
    ensures CollapseFrom(s, i) == [s[i]] + CollapseFrom(s, i + 1)
  {
  }

  /** On the reference side, a run of three or more newlines keeps its
      first two. */
  lemma CollapseMatchStep(s: string, i: nat)
    requires i < |s| && CollapseReady(s, i) && NewlineRun(s, i) >= 3
    ensures Rewritten(NewlineRuns, s, i) == "\n\n" + Rewritten(NewlineRuns, s, i + NewlineRun(s, i))
  {
    CollapseRunHead(s, i);
    CollapseRunSilent(s, i, i + 2);
  }

  /** On the reference side, a character outside a long run is kept. */
  lemma CollapseMissStep(s: string, i: nat)
    requires i < |s| && CollapseReady(s, i) && NewlineRun(s, i) < 3
    ensures Rewritten(NewlineRuns, s, i) == [s[i]] + Rewritten(NewlineRuns, s, i + 1)
  {
    CollapseMissKeeps(s, i);
  }

  /** The scan resumes after a run at a position it may stop at. */
  lemma CollapseRunReady(s: string, i: nat)
    requires i < |s| && NewlineRun(s, i) >= 3
    ensures CollapseReady(s, i + NewlineRun(s, i))
  {
    InNewlineRun(s, i, i + NewlineRun(s, i) - 1);
  }

  /** The first two newlines of a run the scan reaches are kept. */
  lemma CollapseRunHead(s: string, i: nat)
    requires i < |s| && CollapseReady(s, i) && NewlineRun(s, i) >= 3
    ensures Rewritten(NewlineRuns, s, i) == "\n\n" + Rewritten(NewlineRuns, s, i + 2)
  {
    InNewlineRun(s, i, i);
    InNewlineRun(s, i, i + 1);
    assert i == 0 || s[i - 1] != '\n';
    assert Image(NewlineRuns, s, i) == "\n";
    assert Image(NewlineRuns, s, i + 1) == "\n";
    assert Rewritten(NewlineRuns, s, i + 1) == "\n" + Rewritten(NewlineRuns, s, i + 2);
    assert Rewritten(NewlineRuns, s, i) == "\n" + ("\n" + Rewritten(NewlineRuns, s, i + 2));
    TwoNewlines(Rewritten(NewlineRuns, s, i + 2));
  }

  /** Two single newlines in front of a text are the two-newline string in
      front of it (one of the small steps described at the top). */
  lemma TwoNewlines(t: string)
    ensures "\n" + ("\n" + t) == "\n\n" + t
  {
  }

  /** Past its first two newlines, a run contributes nothing to the
      reference. */
  lemma {:induction false} CollapseRunSilent(s: string, i: nat, j: nat)
    requires i < |s| && NewlineRun(s, i) >= 3
    requires i + 2 <= j <= i + NewlineRun(s, i)
    ensures Rewritten(NewlineRuns, s, j) == Rewritten(NewlineRuns, s, i + NewlineRun(s, i))
    decreases i + NewlineRun(s, i) - j
  {
    if j < i + NewlineRun(s, i) {
      CollapseSilentAt(s, i, j);
      CollapseRunSilent(s, i, j + 1);
    }
  }

  lemma CollapseSilentAt(s: string, i: nat, j: nat)
    requires i < |s| && NewlineRun(s, i) >= 3
    requires i + 2 <= j < i + NewlineRun(s, i)
    ensures Rewritten(NewlineRuns, s, j) == Rewritten(NewlineRuns, s, j + 1)
  {
    InNewlineRun(s, i, j - 2);
    InNewlineRun(s, i, j - 1);
    InNewlineRun(s, i, j);
    assert Image(NewlineRuns, s, j) == [];
  }

  /** Outside a long run, the reference keeps the character. */
  lemma CollapseMissKeeps(s: string, i: nat)
    requires i < |s| && CollapseReady(s, i) && NewlineRun(s, i) < 3
    ensures Image(NewlineRuns, s, i) == [s[i]]
  {
    if s[i] == '\n' && i >= 2 && s[i - 1] == '\n' {
      assert NewlineRun(s, i) == 1 + NewlineRun(s, i + 1);
    }
  }

  /** Past a character outside a long run, the scan is at a position it may
      stop at. */
  lemma CollapseMissReady(s: string, i: nat)
    requires i < |s| && CollapseReady(s, i) && NewlineRun(s, i) < 3
    ensures CollapseReady(s, i + 1)
  {
    if s[i] == '\n' {
      assert NewlineRun(s, i) == 1 + NewlineRun(s, i + 1);
      if i + 1 < |s| && s[i + 1] == '\n' {
        assert NewlineRun(s, i + 1) == 1 + NewlineRun(s, i + 2);
      }
    }
  }

  /** The scan's output holds no triple newline; it starts with the
      character it starts at, and with two newlines only at a run of two or
      more. */
  lemma {:induction false} CollapseBounded(s: string, i: nat)
    requires i <= |s|
    ensures NoTripleNewline(CollapseFrom(s, i))
    ensures |CollapseFrom(s, i)| > 0 ==> i < |s| && CollapseFrom(s, i)[0] == s[i]
    ensures (|CollapseFrom(s, i)| > 1 && CollapseFrom(s, i)[0] == '\n' && CollapseFrom(s, i)[1] == '\n')
              ==> NewlineRun(s, i) >= 2
    decreases |s| - i
  {
    if i < |s| {
      var r := CollapseFrom(s, i);
      var k := NewlineRun(s, i);
      if k >= 3 {
        CollapseBounded(s, i + k);
        var t := CollapseFrom(s, i + k);
        forall j: nat | j < |r|
          ensures !TripleNewlineAt(r, j)
        {
          if j >= 2 {
            assert r[j..] == t[j - 2..];
            assert !TripleNewlineAt(t, j - 2);
          }
        }
      } else {
        CollapseBounded(s, i + 1);
        var t := CollapseFrom(s, i + 1);
        forall j: nat | j < |r|
          ensures !TripleNewlineAt(r, j)
        {
          if j >= 1 {
            assert !TripleNewlineAt(t, j - 1);
          }
        }
      }
    }
  }

  /** Collapsing introduces no pattern `c d` the input lacks. */
  lemma {:induction false} CollapseKeepsNoPair(s: string, c: char, d: char, i: nat)
    requires i <= |s|
    requires NoPair(s, c, d)
    ensures NoPair(CollapseFrom(s, i), c, d)
    decreases |s| - i
  {
    if i < |s| {
      var k := NewlineRun(s, i);
      if k >= 3 {
        CollapseKeepsNoPair(s, c, d, i + k);
        CollapseBounded(s, i + k);
        InNewlineRun(s, i, i + 1);
        InNewlineRun(s, i, i + k - 1);
        assert !PairAt(s, i, c, d);
        if i + k < |s| {
          assert !PairAt(s, i + k - 1, c, d);
        }
        NoPairJoin("\n\n", CollapseFrom(s, i + k), c, d);
      } else {
        CollapseKeepsNoPair(s, c, d, i + 1);
        CollapseBounded(s, i + 1);
        if i + 1 < |s| {
          assert !PairAt(s, i, c, d);
        }
        NoPairJoin([s[i]], CollapseFrom(s, i + 1), c, d);
      }
    }
  }

  /** Collapsing introduces no character other than the newline. */
  lemma {:induction false} CollapseKeepsAbsent(s: string, c: char, i: nat)
    requires i <= |s|
    requires c != '\n' && c !in s
    ensures c !in CollapseFrom(s, i)
    decreases |s| - i
  {
    if i < |s| {
      if NewlineRun(s, i) >= 3 {
        CollapseKeepsAbsent(s, c, i + NewlineRun(s, i));
        CollapseAbsentMatch(s, c, i);
      } else {
        CollapseKeepsAbsent(s, c, i + 1);
        CollapseAbsentMiss(s, c, i);
      }
    }
  }

  lemma CollapseAbsentMatch(s: string, c: char, i: nat)
    requires i < |s| && NewlineRun(s, i) >= 3
    requires c != '\n' && c !in CollapseFrom(s, i + NewlineRun(s, i))
    ensures c !in CollapseFrom(s, i)
  {
    CollapseFromMatch(s, i);
  }

  lemma CollapseAbsentMiss(s: string, c: char, i: nat)
    requires i < |s| && NewlineRun(s, i) < 3
    requires c !in s && c !in CollapseFrom(s, i + 1)
    ensures c !in CollapseFrom(s, i)
  {
    CollapseFromMiss(s, i);
    assert s[i] in s;
  }

  lemma {:induction false} CollapseIdentity(s: string, i: nat)
    requires i <= |s|
    requires NoTripleNewline(s)
    ensures CollapseFrom(s, i) == s[i..]
    decreases |s| - i
  {
    if i < |s| {
      assert !TripleNewlineAt(s, i);
      CollapseIdentity(s, i + 1);
      assert s[i..] == [s[i]] + s[i + 1..];
    }
  }
}
