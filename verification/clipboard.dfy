/**
  The text the editor hands to the clipboard (`handleCopy`,
  src/App.jsx:234-239): the normalised text with Windows and old Mac line
  endings turned into `\n`, then newline runs shrunk to two again. Writing
  to the clipboard and the notification are left out.
*/
module Clipboard {
  import opened Text
  import opened Rules
  import opened Passes
  import opened Delimiters

  /** `\r\n` becomes `\n`, then every remaining `\r` becomes `\n`: each
      line ending, of either kind, becomes one `\n`. */
  function UnifyLineEndings(s: string): (r: string)
    ensures '\r' !in r
  {
    ReplaceChar(ReplacePair(s, '\r', '\n', "\n"), '\r', '\n')
  }

  /** Each `\r\n` and each lone `\r` becomes one `\n`; every other
      character is kept, in order. */
  lemma UnifyLineEndingsRule(s: string)
    ensures UnifyLineEndings(s) == Rewritten(LineEndings, s, 0)
  {
    UnifyMatchesRule(s, 0);
  }

  /** Both line-ending replacements, applied to the first scan's output
      from `i`, give the reference from `i`. */
  predicate UnifyAgrees(s: string, i: nat)
    requires i <= |s|
  {
    ReplaceChar(ReplacePairFrom(s, '\r', '\n', "\n", i), '\r', '\n') == Rewritten(LineEndings, s, i)
  }

  /** The two line-ending replacements, in source order, agree with the
      position-wise description from any position the first scan stops at. */
  lemma {:induction false} UnifyMatchesRule(s: string, i: nat)
    requires i <= |s|
    requires !(i > 0 && PairAt(s, i - 1, '\r', '\n'))
    ensures UnifyAgrees(s, i)
    decreases |s| - i
  {
    if i < |s| {
      if PairAt(s, i, '\r', '\n') {
        UnifyMatchesRule(s, i + 2);
        UnifyPairCase(s, i);
      } else {
        UnifyMatchesRule(s, i + 1);
        UnifyCharCase(s, i);
      }
    }
  }

  /** A `\r\n` the first scan reaches becomes one `\n`. */
  lemma UnifyPairCase(s: string, i: nat)
    requires PairAt(s, i, '\r', '\n')
    requires UnifyAgrees(s, i + 2)
    ensures UnifyAgrees(s, i)
  {
    var rest := ReplacePairFrom(s, '\r', '\n', "\n", i + 2);
    assert ReplacePairFrom(s, '\r', '\n', "\n", i) == "\n" + rest;
    ReplaceCharJoin("\n", rest, '\r', '\n');
    ReplaceCharSingle('\n', '\r', '\n');
    assert Image(LineEndings, s, i) == "\n";
    assert Image(LineEndings, s, i + 1) == [];
    assert Rewritten(LineEndings, s, i + 1) == Rewritten(LineEndings, s, i + 2);
  }

  /** Any other character the first scan passes over is then kept, or
      turned into `\n` when it is a `\r`. */
  lemma UnifyCharCase(s: string, i: nat)
    requires i < |s|
    requires !(i > 0 && PairAt(s, i - 1, '\r', '\n')) && !PairAt(s, i, '\r', '\n')
    requires UnifyAgrees(s, i + 1)
    ensures UnifyAgrees(s, i)
  {
    var rest := ReplacePairFrom(s, '\r', '\n', "\n", i + 1);
    assert ReplacePairFrom(s, '\r', '\n', "\n", i) == [s[i]] + rest;
    ReplaceCharJoin([s[i]], rest, '\r', '\n');
    ReplaceCharSingle(s[i], '\r', '\n');
    assert Image(LineEndings, s, i) == if s[i] == '\r' then "\n" else [s[i]];
  }

  /** The text put on the clipboard. */
  function CopyText(s: string): (r: string)
    ensures '\r' !in r
    ensures NoTripleNewline(r)
  {
    CollapseKeepsAbsent(UnifyLineEndings(s), '\r', 0);
    CollapseNewlines(UnifyLineEndings(s))
  }

  /** Unifying line endings keeps every two-character pattern that does not
      involve a line-ending character. */
  lemma UnifyKeepsNoPair(s: string, c: char, d: char)
    requires c !in "\r\n" && d !in "\r\n"
    requires NoPair(s, c, d)
    ensures NoPair(UnifyLineEndings(s), c, d)
  {
    var x := ReplacePair(s, '\r', '\n', "\n");
    ReplacePairFree(s, '\r', '\n', "\n", c, d, 0);
    var r := ReplaceChar(x, '\r', '\n');
    forall j: nat | j < |r|
      ensures !PairAt(r, j, c, d)
    {
      assert !PairAt(x, j, c, d);
    }
  }

  /** What the clipboard receives from the normalised editor text is still
      normalised, and its only line ending is `\n`. */
  lemma CopiedTextNormalised(s: string)
    ensures Normalised(CopyText(ConvertDelimiters(s)))
    ensures '\r' !in CopyText(ConvertDelimiters(s))
  {
    var t := ConvertDelimiters(s);
    UnifyKeepsNoPair(t, '\\', '[');
    UnifyKeepsNoPair(t, '\\', ']');
    UnifyKeepsNoPair(t, '\\', '(');
    UnifyKeepsNoPair(t, '\\', ')');
    var u := UnifyLineEndings(t);
    CollapseKeepsNoPair(u, '\\', '[', 0);
    CollapseKeepsNoPair(u, '\\', ']', 0);
    CollapseKeepsNoPair(u, '\\', '(', 0);
    CollapseKeepsNoPair(u, '\\', ')', 0);
  }

  /** Text with only `\n` line endings and no run of three newlines is
      copied unchanged, and only such text is. */
  lemma CopyTextFixedPoints(s: string)
    ensures CopyText(s) == s <==> '\r' !in s && NoTripleNewline(s)
  {
    if '\r' !in s && NoTripleNewline(s) {
      NoPairWithout(s, '\r', '\n');
      ReplacePairIdentity(s, '\r', '\n', "\n", 0);
      assert s[0..] == s;
      var u := UnifyLineEndings(s);
      assert u == s;
      CollapseIdentity(s, 0);
    }
  }

  /** Three `\r\n` in a row are already normalised (no delimiter, and no
      three newlines in a row since `\r` separates the newlines), so the
      normaliser returns them unchanged. */
  lemma CrLfRunNormalised()
    ensures Normalised("\r\n\r\n\r\n")
    ensures ConvertDelimiters("\r\n\r\n\r\n") == "\r\n\r\n\r\n"
  {
    var s := "\r\n\r\n\r\n";
    assert '\\' !in s;
    NoPairWithout(s, '\\', '[');
    NoPairWithout(s, '\\', ']');
    NoPairWithout(s, '\\', '(');
    NoPairWithout(s, '\\', ')');
    forall j: nat | j < |s|
      ensures !TripleNewlineAt(s, j)
    {
    }
    ConvertDelimitersFixedPoints(s);
  }

  /** Collapsing before unifying line endings is not enough. Three `\r\n`
      hold no triple newline, so the first collapse leaves them alone
      (`CrLfRunNormalised`); unification turns them into a run of three
      newlines, which the second collapse removes. */
  lemma SecondCollapseNeeded()
    ensures NoTripleNewline("\r\n\r\n\r\n")
    ensures !NoTripleNewline(UnifyLineEndings("\r\n\r\n\r\n"))
    ensures CopyText("\r\n\r\n\r\n") == "\n\n"
  {
    CrLfRunNormalised();
    assert UnifyLineEndings("\r\n\r\n\r\n") == "\n\n\n";
    assert TripleNewlineAt("\n\n\n", 0);
    assert CollapseNewlines("\n\n\n") == "\n\n";
  }
}
