/**
  The worked examples of the normaliser's behaviour, proved on concrete
  strings: a display formula, an inline formula with padding inside its
  delimiters, and blank-line runs.
*/
module Samples {
  import opened Text
  import opened Passes
  import opened Delimiters

  lemma OpenDisplaySample()
    ensures ReplacePairFrom("\\[x\\]", '\\', '[', "$$", 0) == "$$x\\]"
  {
    var s := "\\[x\\]";
    assert ReplacePairFrom(s, '\\', '[', "$$", 5) == [];
    assert ReplacePairFrom(s, '\\', '[', "$$", 3) == "\\]";
    assert ReplacePairFrom(s, '\\', '[', "$$", 2) == "x\\]";
  }

  lemma CloseDisplaySample()
    ensures ReplacePairFrom("$$x\\]", '\\', ']', "$$\n", 0) == "$$x$$\n"
  {
    var u := "$$x\\]";
    assert ReplacePairFrom(u, '\\', ']', "$$\n", 5) == [];
    assert ReplacePairFrom(u, '\\', ']', "$$\n", 3) == "$$\n";
    assert ReplacePairFrom(u, '\\', ']', "$$\n", 2) == "x$$\n";
    assert ReplacePairFrom(u, '\\', ']', "$$\n", 1) == "$x$$\n";
  }

  /** `\[x\]` becomes `$$x$$` and a newline. */
  lemma DisplaySample()
    ensures ConvertDelimiters("\\[x\\]") == "$$x$$\n"
  {
    OpenDisplaySample();
    CloseDisplaySample();
    var t := "$$x$$\n";
    assert '\\' !in t;
    NoPairWithout(t, '\\', '(');
    NoPairWithout(t, '\\', ')');
    OpenInlineIdentity(t, 0);
    CloseInlineIdentity(t, 0);
    CollapseIdentity(t, 0);
    assert t[0..] == t;
  }

  lemma OpenInlineSample()
    ensures OpenInlineFrom("\\( x \\)", 0) == "$x \\)"
  {
    var s := "\\( x \\)";
    assert WhitespaceRun(s, 2) == 1;
    assert WhitespaceRun(s, 3) == 0;
    assert WhitespaceRun(s, 5) == 0;
    assert OpenInlineFrom(s, 7) == [];
    assert OpenInlineFrom(s, 6) == ")";
    assert OpenInlineFrom(s, 5) == "\\)";
    assert OpenInlineFrom(s, 4) == " \\)";
    assert OpenInlineFrom(s, 3) == "x \\)";
  }

  lemma CloseInlineSample()
    ensures CloseInlineFrom("$x \\)", 0) == "$x$"
  {
    var u := "$x \\)";
    assert WhitespaceRun(u, 0) == 0;
    assert WhitespaceRun(u, 1) == 0;
    assert WhitespaceRun(u, 2) == 1;
    assert WhitespaceRun(u, 3) == 0;
    assert CloseInlineFrom(u, 5) == [];
    assert CloseInlineFrom(u, 2) == "$";
    assert CloseInlineFrom(u, 1) == "x$";
  }

  /** `\( x \)` becomes `$x$`: the padding inside the delimiters goes. */
  lemma InlineSample()
    ensures ConvertDelimiters("\\( x \\)") == "$x$"
  {
    var s := "\\( x \\)";
    assert NoPair(s, '\\', '[') && NoPair(s, '\\', ']') by {
      forall j: nat | j < |s|
        ensures !PairAt(s, j, '\\', '[') && !PairAt(s, j, '\\', ']')
      {
      }
    }
    ReplacePairIdentity(s, '\\', '[', "$$", 0);
    ReplacePairIdentity(s, '\\', ']', "$$\n", 0);
    assert s[0..] == s;
    OpenInlineSample();
    CloseInlineSample();
    var t := "$x$";
    assert NoTripleNewline(t);
    CollapseIdentity(t, 0);
    assert t[0..] == t;
  }

  lemma CollapseSample()
    ensures CollapseFrom("a\n\n\n\nb", 0) == "a\n\nb"
  {
    var s := "a\n\n\n\nb";
    assert NewlineRun(s, 0) == 0;
    assert NewlineRun(s, 1) == 4;
    assert NewlineRun(s, 5) == 0;
    assert CollapseFrom(s, 5) == "b";
    assert CollapseFrom(s, 1) == "\n\nb";
  }

  /** Four newlines in a row shrink to two; two in a row are kept. */
  lemma BlankLineSample()
    ensures ConvertDelimiters("a\n\n\n\nb") == "a\n\nb"
    ensures ConvertDelimiters("a\n\nb") == "a\n\nb"
  {
    var s := "a\n\n\n\nb";
    assert '\\' !in s;
    NoPairWithout(s, '\\', '[');
    NoPairWithout(s, '\\', ']');
    NoPairWithout(s, '\\', '(');
    NoPairWithout(s, '\\', ')');
    ReplacePairIdentity(s, '\\', '[', "$$", 0);
    ReplacePairIdentity(s, '\\', ']', "$$\n", 0);
    OpenInlineIdentity(s, 0);
    CloseInlineIdentity(s, 0);
    assert s[0..] == s;
    CollapseSample();
    var t := "a\n\nb";
    assert '\\' !in t;
    NoPairWithout(t, '\\', '[');
    NoPairWithout(t, '\\', ']');
    NoPairWithout(t, '\\', '(');
    NoPairWithout(t, '\\', ')');
    assert NoTripleNewline(t);
    ConvertDelimitersFixedPoints(t);
  }
}
