/**
  The math-delimiter normaliser of the editor (`convertDelimiters`,
  src/App.jsx:213-225): five global replacements applied in order, turning
  `\[ ... \]` into `$$ ... $$` plus a newline, `\( ... \)` into `$ ... $`
  with the whitespace inside the delimiters dropped, and shrinking runs of
  three or more newlines to two.
*/
module Delimiters {
  import opened Text
  import opened Rules
  import opened Passes

  /** The text holds none of `\[`, `\]`, `\(`, `\)` and no run of three or
      more newlines. */
  predicate Normalised(s: string) {
    && NoPair(s, '\\', '[') && NoPair(s, '\\', ']')
    && NoPair(s, '\\', '(') && NoPair(s, '\\', ')')
    && NoTripleNewline(s)
  }

  /** `\[` becomes `$$`: the length is kept, both characters of every `\[`
      become `$`, every other character stays where it was. */
  function OpenDisplay(s: string): (r: string)
    ensures |r| == |s|
    ensures forall j :: 0 <= j < |s| ==>
      r[j] == if PairAt(s, j, '\\', '[') || (j > 0 && PairAt(s, j - 1, '\\', '[')) then '$' else s[j]
    ensures NoPair(r, '\\', '[')
  {
    OpenDisplayInPlace(s);
    ReplacePairFree(s, '\\', '[', "$$", '\\', '[', 0);
    ReplacePair(s, '\\', '[', "$$")
  }

  lemma OpenDisplayInPlace(s: string)
    ensures |ReplacePair(s, '\\', '[', "$$")| == |s|
    ensures forall j :: 0 <= j < |s| ==>
      ReplacePair(s, '\\', '[', "$$")[j] ==
        if PairAt(s, j, '\\', '[') || (j > 0 && PairAt(s, j - 1, '\\', '[')) then '$' else s[j]
  {
    ReplacePairInPlace(s, '\\', '[', "$$", 0);
    var r := ReplacePair(s, '\\', '[', "$$");
    forall j | 0 <= j < |s|
      ensures r[j] == if PairAt(s, j, '\\', '[') || (j > 0 && PairAt(s, j - 1, '\\', '[')) then '$' else s[j]
    {
      // `r[j - 0]` is the term the quantifier of ReplacePairInPlace (at
      // position 0) is triggered on; it names the same character as `r[j]`.
      assert r[j] == r[j - 0] == PairImage(s, '\\', '[', "$$", j);
    }
  }

  /** `\]` becomes `$$` followed by a newline; every other character is kept. */
  function CloseDisplay(s: string): (r: string)
    ensures NoPair(r, '\\', ']')
  {
    ReplacePairFree(s, '\\', ']', "$$\n", '\\', ']', 0);
    ReplacePair(s, '\\', ']', "$$\n")
  }

  /** `\]` becomes `$$` and a newline, everything else is kept in order. */
  lemma CloseDisplayRule(s: string)
    ensures CloseDisplay(s) == Rewritten(Literal('\\', ']', "$$\n"), s, 0)
  {
    ReplacePairMatchesRule(s, '\\', ']', "$$\n", 0);
  }

  /** The normaliser: the five passes in source order. Its result is always
      normalised. */
  function ConvertDelimiters(s: string): (r: string)
    ensures Normalised(r)
  {
    PassesNormalise(s);
    CollapseNewlines(CloseInline(OpenInline(CloseDisplay(OpenDisplay(s)))))
  }

  /** Each pass removes its own delimiter and brings back none of the
      delimiters removed before it. */
  lemma PassesNormalise(s: string)
    ensures Normalised(CollapseNewlines(CloseInline(OpenInline(CloseDisplay(OpenDisplay(s))))))
  {
    var p1 := OpenDisplay(s);
    var p2 := CloseDisplay(p1);
    ReplacePairFree(p1, '\\', ']', "$$\n", '\\', '[', 0);
    var p3 := OpenInline(p2);
    OpenInlineFree(p2, '\\', '[', 0);
    OpenInlineFree(p2, '\\', ']', 0);
    var p4 := CloseInline(p3);
    CloseInlineFree(p3, '\\', '[', 0);
    CloseInlineFree(p3, '\\', ']', 0);
    CloseInlineFree(p3, '\\', '(', 0);
    CollapseKeepsNoPair(p4, '\\', '[', 0);
    CollapseKeepsNoPair(p4, '\\', ']', 0);
    CollapseKeepsNoPair(p4, '\\', '(', 0);
    CollapseKeepsNoPair(p4, '\\', ')', 0);
  }

  /** Normalised text passes through the normaliser unchanged, and only
      normalised text does. */
  lemma ConvertDelimitersFixedPoints(s: string)
    ensures ConvertDelimiters(s) == s <==> Normalised(s)
  {
    if Normalised(s) {
      ReplacePairIdentity(s, '\\', '[', "$$", 0);
      ReplacePairIdentity(s, '\\', ']', "$$\n", 0);
      OpenInlineIdentity(s, 0);
      CloseInlineIdentity(s, 0);
      CollapseIdentity(s, 0);
      assert s[0..] == s;
    }
  }

  /** Normalising twice is normalising once. */
  lemma ConvertDelimitersIdempotent(s: string)
    ensures ConvertDelimiters(ConvertDelimiters(s)) == ConvertDelimiters(s)
  {
    ConvertDelimitersFixedPoints(ConvertDelimiters(s));
  }

}
