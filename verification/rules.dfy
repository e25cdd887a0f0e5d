/**
  Position-wise reference descriptions of the editor's rewrite passes.

  Each pass of the editor is a left-to-right regular-expression scan. The
  descriptions here say instead, for every position of the input on its own,
  what that position turns into (a replacement, nothing, or itself); the
  output is the concatenation of these images. They carry no scanning state,
  so they serve as the independent definitions the scans are proved against.
*/
module Rules {
  import opened Text

  datatype Rule =
    | Literal(a: char, b: char, rep: string)  // the two characters `a b` become `rep`
    | InlineOpen                              // `\(` and the whitespace after it become `$`
    | InlineClose                             // the whitespace before `\)`, and `\)`, become `$`
    | NewlineRuns                             // runs of three or more newlines become two
    | LineEndings                             // `\r\n` and a lone `\r` become `\n`

  /** Position `j` is the `(` of a `\(` or whitespace directly after one
      (possibly through more whitespace). */
  predicate AfterOpener(s: string, j: nat)
    requires j < |s|
    decreases j
  {
    j > 0 && (PairAt(s, j - 1, '\\', '(') || (IsWhitespace(s[j]) && AfterOpener(s, j - 1)))
  }

  /** Position `j` is whitespace that reaches a `\)` through whitespace only. */
  predicate BeforeCloser(s: string, j: nat)
    requires j < |s|
    decreases |s| - j
  {
    IsWhitespace(s[j]) && (PairAt(s, j + 1, '\\', ')') || (j + 1 < |s| && BeforeCloser(s, j + 1)))
  }

  /** What position `j` of `s` becomes under `rule`. */
  function Image(rule: Rule, s: string, j: nat): string
    requires j < |s|
  {
    match rule
    case Literal(a, b, rep) =>
      if PairAt(s, j, a, b) then rep
      else if j > 0 && PairAt(s, j - 1, a, b) then []
      else [s[j]]
    case InlineOpen =>
      if PairAt(s, j, '\\', '(') then "$"
      else if AfterOpener(s, j) then []
      else [s[j]]
    case InlineClose =>
      if PairAt(s, j, '\\', ')') then "$"
      else if j > 0 && PairAt(s, j - 1, '\\', ')') then []
      else if BeforeCloser(s, j) then []
      else [s[j]]
    case NewlineRuns =>
      if j >= 2 && s[j - 2] == '\n' && s[j - 1] == '\n' && s[j] == '\n' then []
      else [s[j]]
    case LineEndings =>
      if s[j] == '\r' then "\n"
      else if j > 0 && s[j - 1] == '\r' && s[j] == '\n' then []
      else [s[j]]
  }

  /** The images of positions `i`, `i + 1`, ... of `s`, joined in order. */
  function Rewritten(rule: Rule, s: string, i: nat): string
    requires i <= |s|
    decreases |s| - i
  {
    if i == |s| then [] else Image(rule, s, i) + Rewritten(rule, s, i + 1)
  }
}
