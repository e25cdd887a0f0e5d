# Math-delimiter normaliser of the Markdown editor

This project models the text-rewriting core of a browser Markdown editor
with LaTeX math support, and proves properties of that model in Dafny.

- `convertDelimiters` (`src/App.jsx:213-225`) prepares the editor text
  for rendering. It runs five global regular-expression replacements in
  order:
  1. `\[` becomes `$$`.
  2. `\]` becomes `$$` plus a newline.
  3. `\(` and the whitespace after it become `$`.
  4. The whitespace before `\)`, and the `\)`, become `$`.
  5. Every run of three or more newlines becomes two newlines.
- `handleCopy` (`src/App.jsx:234-239`) builds the text put on the
  clipboard. It turns `\r\n` and each remaining `\r` into `\n`, then
  shrinks newline runs again. Here that chain is its own function,
  `Clipboard.CopyText`.

Strings are `seq<char>`. Each replacement is a recursive scan that works
like `String.prototype.replace` with the `g` flag. At each position it
tries the pattern, matching greedily. On a match it emits the
replacement and continues after the match. Otherwise it emits the
character and moves on by one. The JavaScript replacement strings
`'$$$$'` and `'$'` produce the literal text `$$` and `$`, and the model
uses those literals. The class `\s` is `Text.IsWhitespace`: the
ECMAScript WhiteSpace and LineTerminator code points.

Each scan has a partner: a description in `Rules` that says, for each
input position on its own, what that position becomes. The output is
those images joined in order. For example, the newline pass drops exactly
the newlines that follow two newlines. Lemmas prove each scan equal to its
description. Other lemmas prove that each pass leaves none of its own
pattern behind and brings back none that an earlier pass removed. Together
these give the results for the whole normaliser:

- its output is always normalised: no `\[`, `\]`, `\(`, `\)`, and no
  three newlines in a row;
- it returns its input unchanged exactly when the input is normalised;
- it is idempotent.

Files:

- `text.dfy`: character classes, patterns and runs.
- `rules.dfy`: the position-wise descriptions.
- `passes.dfy`: the regular-expression scans.
- `delimiters.dfy`: `convertDelimiters`.
- `clipboard.dfy`: the copy chain.
- `samples.dfy`: worked examples.

## Model

| member | source | states |
|---|---|---|
| `Text.WhitespaceRun` | src/App.jsx:220-221 | how far greedy `\s*` reaches from a position: the reach stays inside the text and stops at its end or at a non-whitespace character (that everything inside is whitespace is `Text.InWhitespaceRun`) |
| `Text.NewlineRun` | src/App.jsx:223 | how far the newline run `\n{3,}` inspects reaches from a position: the reach stays inside the text and stops at its end or at a character other than a newline (that everything inside is a newline is `Text.InNewlineRun`) |
| `Passes.ReplacePairMatchesRule` | src/App.jsx:217-218 | replacing a two-character literal whose characters differ replaces every occurrence by the replacement and keeps every other character, in order |
| `Passes.ReplacePairFree` | src/App.jsx:217-218 | for a non-empty replacement: no occurrence of the literal is left, and no two-character pattern the input lacked appears, provided neither of its characters occurs in the replacement |
| `Passes.ReplacePairIdentity` | src/App.jsx:217-218 | text without the literal passes through unchanged |
| `Passes.ReplaceChar` | src/App.jsx:238 | replacing `\r` by `\n` keeps the length and changes exactly the `\r` positions |
| `Text.InWhitespaceRun` | src/App.jsx:220-221 | every character of the run greedy `\s*` consumes is whitespace |
| `Text.InNewlineRun` | src/App.jsx:223 | every character of the run `\n{3,}` inspects is a newline |
| `Passes.OpenInline` | src/App.jsx:220 | no `\(` is left in the output |
| `Passes.OpenInlineRule` | src/App.jsx:220 | each `\(` and the maximal whitespace run after it become one `$`; every other character is kept, in order |
| `Passes.OpenInlineMatchesRule` | src/App.jsx:220 | from every position the scan can resume at (one not inside a swallowed run), the scan equals the position-wise description |
| `Passes.OpenInlineFree` | src/App.jsx:220 | no `\(` survives, and no pattern without `$` that the input lacked appears |
| `Passes.OpenInlineIdentity` | src/App.jsx:220 | text without `\(` passes through unchanged |
| `Passes.CloseInline` | src/App.jsx:221 | no `\)` is left in the output |
| `Passes.CloseInlineRule` | src/App.jsx:221 | each `\)` and the maximal whitespace run before it become one `$`; every other character is kept, in order |
| `Passes.CloseInlineMatchesRule` | src/App.jsx:221 | from every position the scan can resume at (one not just after a `\)`), the scan equals the position-wise description |
| `Passes.CloseInlineFree` | src/App.jsx:221 | no `\)` survives, and no pattern without `$` that the input lacked appears |
| `Passes.CloseInlineIdentity` | src/App.jsx:221 | text without `\)` passes through unchanged |
| `Passes.CollapseNewlines` | src/App.jsx:223 | no three newlines in a row remain in the output |
| `Passes.CollapseNewlinesRule` | src/App.jsx:223 | exactly the newlines that follow two newlines are dropped: each run of three or more becomes two, shorter runs and every other character stay, in order |
| `Passes.CollapseMatchesRule` | src/App.jsx:223 | from every position the scan can resume at (never the third or later newline of a run), the scan equals the position-wise description |
| `Passes.CollapseKeepsNoPair` | src/App.jsx:223 | shrinking newline runs creates no two-character pattern the input lacked |
| `Passes.CollapseKeepsAbsent` | src/App.jsx:239 | shrinking newline runs brings in no character other than the newline |
| `Passes.CollapseIdentity` | src/App.jsx:223 | text without three newlines in a row passes through unchanged |
| `Delimiters.OpenDisplay` | src/App.jsx:217 | `\[` becomes `$$` in place: the length is kept, both characters of each `\[` become `$`, all others stay; no `\[` is left |
| `Delimiters.CloseDisplay` | src/App.jsx:218 | no `\]` is left in the output |
| `Delimiters.CloseDisplayRule` | src/App.jsx:218 | each `\]` becomes `$$` and a newline; every other character is kept, in order |
| `Delimiters.ConvertDelimiters` | src/App.jsx:213-225 | the output holds none of `\[`, `\]`, `\(`, `\)` and no run of three or more newlines |
| `Delimiters.PassesNormalise` | src/App.jsx:215-224 | the five passes, in source order, leave none of the four delimiters and no triple newline |
| `Delimiters.ConvertDelimitersFixedPoints` | src/App.jsx:213-225 | the normaliser returns its input unchanged if and only if the input has none of the four delimiters and no triple newline |
| `Delimiters.ConvertDelimitersIdempotent` | src/App.jsx:213-225 | normalising twice gives the same text as normalising once |
| `Samples.DisplaySample` | src/App.jsx:217-218 | `\[x\]` becomes `$$x$$` and a newline |
| `Samples.InlineSample` | src/App.jsx:220-221 | `\( x \)` becomes `$x$` |
| `Samples.BlankLineSample` | src/App.jsx:223 | `a`, four newlines, `b` becomes `a`, two newlines, `b`; `a`, two newlines, `b` is unchanged |
| `Clipboard.UnifyLineEndings` | src/App.jsx:237-238 | no `\r` remains in the output |
| `Clipboard.UnifyLineEndingsRule` | src/App.jsx:237-238 | each `\r\n` and each lone `\r` becomes one `\n`; every other character is kept, in order |
| `Clipboard.UnifyMatchesRule` | src/App.jsx:237-238 | from every position the first scan can resume at, the two line-ending replacements in source order equal the position-wise description |
| `Clipboard.CopyText` | src/App.jsx:236-239 | the copied text holds no `\r` and no three newlines in a row |
| `Clipboard.UnifyKeepsNoPair` | src/App.jsx:237-238 | unifying line endings creates no two-character pattern without `\r` or `\n` that the input lacked |
| `Clipboard.CopiedTextNormalised` | src/App.jsx:231-239 | the copy of the normalised editor text is still normalised and has only `\n` line endings |
| `Clipboard.CopyTextFixedPoints` | src/App.jsx:236-239 | the copy chain leaves text unchanged if and only if it has no `\r` and no triple newline |
| `Clipboard.SecondCollapseNeeded` | src/App.jsx:237-239 | three `\r\n` hold no triple newline, yet unification turns them into three newlines, and only the final collapse shrinks those to two |
| `Clipboard.CrLfRunNormalised` | src/App.jsx:213-225 | three `\r\n` in a row are normalised, so `convertDelimiters` returns them unchanged and its own newline collapse does nothing to them |

## Left out

- Markdown rendering (`md.render`, `src/App.jsx:29-37,232`) and MathJax
  set-up and loading (`src/App.jsx:9-26,203-207`) are left out. They
  call third-party libraries that are not part of this model.
- `parseContentForPdf` (`src/App.jsx:89-176`) is left out. It works on
  the DOM and nothing calls it.
- `initPdfMake` (`src/App.jsx:181-200`) is left out. It loads and
  configures pdfmake (font files and font table), and nothing calls it.
- `handleExportPDF` (`src/App.jsx:252-420`) is left out. It builds a
  print window, polls timers, waits for images and prints: I/O and async
  code.
- The clipboard write and the notifications in `handleCopy`
  (`src/App.jsx:241-249`) are left out as I/O.
- React state, event handlers and JSX (`src/App.jsx:209-211,227-229,422-450`)
  are left out as UI plumbing.
- `vite.config.js` is left out. It is build configuration with no logic.
- JavaScript strings are UTF-16 code-unit sequences. Here they are
  sequences of Unicode scalar values, so unpaired surrogates cannot be
  expressed. No pattern or `\s` character lies outside the Basic
  Multilingual Plane, so the rewrites work the same way on every string
  the model can express.
