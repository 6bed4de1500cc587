# rst.py: IPython notebook to reStructuredText, modelled in Dafny

`rst.py` turns an IPython notebook (nbformat 3 JSON) into a list of
reStructuredText lines. It has two pieces, and this project models both as
pure functions over immutable values:

- **The escape stripper** `unfunk`, driven by the generator `not_funk`. It
  removes ANSI colour sequences from traceback lines. The generator is a
  two-state character filter:
  - In its first loop it keeps every character except ESC (U+001B), which
    moves it to its second loop.
  - In its second loop it drops everything. The first lowercase ASCII letter
    (the "final byte" of the sequence) is also dropped and moves it back to
    the first loop.

  This is a loose reading of section 5.4 of ECMA-48. There, any byte from
  04/00 to 07/14 can end a control sequence, not only a lowercase letter.
  `EscapeFilter.Send` is one `send`, `EscapeFilter.Run` is the fold of that
  step, and `EscapeFilter.Strip` is an independent definition with no
  explicit state. They are proved equal.
- **The converter** `restify`. It walks the worksheets and skips the first
  cell of each. A code cell becomes a `.. code-block:: python` block with
  its input lines, followed by a `::` literal block of its outputs. A
  markdown cell becomes its lines, each rewritten by one of three rules:
  image, `## ` heading, or backtick doubling. Any other cell emits nothing.
  `Restify.RestifyNotebook` follows the source as written: one accumulated list,
  with the trailing `'::', ''` pair checked on the whole list after each code
  cell. `Restify.RenderWorksheets` renders every cell on its own, and the
  contract of `RestifyNotebook` states that the two are equal.

Files:
- `results.dfy`: `Option` and `Result`.
- `strings.dfy`: the Python string primitives the source uses: `rstrip`,
  `split`, `join`, `replace`, `split(sep, 1)` and slicing.
- `escape_filter.dfy`: `unfunk` / `not_funk`.
- `ipynb.dfy`: notebook, worksheet, cell and output datatypes.
- `restify.dfy`: `restify` and its per-cell reference rendering.

`rstrip` depends on which characters are whitespace. Every function that
uses it takes that set as a parameter `ws: char -> bool`.

## Model

| member | source | states |
|---|---|---|
| Strings.RStrip | rst.py:30 | `line.rstrip()` returns a prefix of the line. The prefix does not end in whitespace, and everything removed is whitespace. |
| Strings.RStripUnique | rst.py:30 | Any prefix with those three properties is the rstripped line, so the contract of `RStrip` determines its result. |
| Strings.Split | rst.py:24 | `s.split('\n')` gives one more piece than `s` has newlines. No piece contains a newline, and joining the pieces with newlines gives `s` back. |
| Strings.SplitOfJoin | rst.py:24 | `split` inverts `join`: pieces with no newline are recovered exactly from their join. |
| Strings.DoubleBackticks | rst.py:39 | Replacing each backtick with two grows the line by one character per backtick and doubles the backtick count. The characters that are not backticks stay the same, in order. |
| Strings.UndoubleDouble | rst.py:39 | Collapsing each doubled backtick gives back the original line, so the rewrite loses nothing. |
| Strings.IndexOf | rst.py:32 | The result is the first index at or after `from` where the pattern occurs, or `None` when it occurs nowhere after `from`. |
| Strings.SplitOnce | rst.py:32 | `split('](', 1)` gives two pieces exactly when `](` occurs. The pieces rebuild the line around the separator, and the separator is the first one. |
| Strings.Repeat | rst.py:44 | `'-' * n` is a string of exactly `n` characters, each of them `-`. |
| Strings.Drop | rst.py:33 | `cap[2:]` is what follows the first two characters, so those two characters plus the result rebuild the string. It is empty when the string is shorter. |
| Strings.DropLast | rst.py:34 | `link[:-1]` is the link without its last character. It is empty for an empty link. |
| EscapeFilter.Send | rst.py:52-64 | One `send` keeps the character exactly when the generator is in its first loop and the character is not ESC. The generator moves to, or stays in, its second loop exactly on an ESC in the first loop, or on a character other than a lowercase letter in the second loop. |
| EscapeFilter.Run | rst.py:50-64 | Whatever state the filter starts in, what it keeps is a subsequence of its input and contains no ESC. |
| EscapeFilter.Unfunk | rst.py:47-50 | `unfunk(s)` is a subsequence of `s`, is never longer than `s`, and has no ESC in it. |
| EscapeFilter.UnfunkStreaming | rst.py:47-50 | Sending the characters one at a time and keeping those answered true computes the fold `Unfunk`. |
| EscapeFilter.RunAppend | rst.py:50 | Filtering `a + b` means filtering `a`, then filtering `b` from the state `a` left behind. |
| EscapeFilter.UnfunkEscFree | rst.py:52-59 | A string with no ESC comes back unchanged. |
| EscapeFilter.UnfunkIdempotent | rst.py:47-50 | `unfunk(unfunk(s)) == unfunk(s)`. |
| EscapeFilter.UnfunkTerminated | rst.py:58-64 | An ESC and everything after it, up to and including the first lowercase letter, is removed. The text before the ESC is kept, and the text after the letter is filtered afresh. |
| EscapeFilter.UnfunkUnterminated | rst.py:60-64 | An ESC that no lowercase letter follows removes the rest of the string. |
| EscapeFilter.EscapeSkipsToFinal | rst.py:61-64 | In the escape state the filter produces exactly what the normal state produces from the text after the first lowercase letter. |
| EscapeFilter.UnfunkIsStrip | rst.py:52-64 | The generator-driven filter equals the stateless definition `Strip` on every string. |
| EscapeFilter.ColouredWord | rst.py:58-64 | `ESC[31mErrorESC[0m` becomes `Error`. |
| EscapeFilter.UppercaseFinalByteNotRecognised | rst.py:63-64 | `ESC[2Kdone` becomes `one`. The uppercase final byte `K` does not end the sequence, so dropping continues through the next lowercase letter. |
| Restify.Later | rst.py:10 | `cells[1:]` is the list without its first element, and is empty for an empty list. |
| Restify.InputLines | rst.py:12-14 | Each emitted input line is indented by four spaces, and none is the indented `##`. There are never more lines than in the input. |
| Restify.InputLinesAppend | rst.py:14 | Input lines are rendered independently: the rendering of a concatenation is the concatenation of the renderings. |
| Restify.InputLine | rst.py:12-14 | One input line yields its indented rstripped form, or nothing when that form is `##`. |
| Restify.TextLines | rst.py:17-20 | Text output lines are indented. Removing the indent gives the rstripped text, minus the first line when that line is `""`. |
| Restify.TextLinesDropsOneBlank | rst.py:18-19 | Only one leading empty string is dropped. A second one survives as a line holding just the indent. |
| Restify.TracebackLines | rst.py:21-24 | Traceback lines are indented and contain neither ESC nor newline. There are at least as many lines as traceback entries. |
| Restify.TracebackLinesAppend | rst.py:22-24 | Traceback entries are rendered one at a time and in order: the lines of `a + b` are the lines of `a` followed by the lines of `b`. |
| Restify.TracebackLineRoundTrip | rst.py:22-24 | Removing the indent and joining a traceback entry's lines with newlines gives exactly `unfunk` of that entry. The entry yields one line more than `unfunk` of it has newlines, so at least one. |
| Restify.OutputLines | rst.py:16-24 | Output lines are indented. An output with `text` yields its text lines, whether or not it also has a `traceback`. Otherwise an output with `traceback` yields its traceback lines. An output with neither yields nothing. |
| Restify.OutputsLines | rst.py:16-24 | A cell's output lines are indented. They are empty exactly when no single output produced a line. |
| Restify.OutputsLinesAppend | rst.py:16 | A cell's outputs are rendered one at a time and in order: the lines of `a + b` are the lines of `a` followed by the lines of `b`. |
| Restify.AppendCode | rst.py:12-26 | Appending a code cell keeps everything emitted before it and adds at least four lines. |
| Restify.TrailingPairOnlyWithoutOutput | rst.py:25-26 | After the `'', '::', ''` header the list ends in `'::', ''` exactly when no output line followed. Removing that pair leaves a single `''`. |
| Restify.MarkerRemovalIsLocal | rst.py:25-26 | Testing the whole accumulated list for the trailing pair affects only the block just appended. |
| Restify.AppendCodeIsCodeBlock | rst.py:13-26 | Appending a code cell to any list is the same as appending its stand-alone block. |
| Restify.CodeBlockMarker | rst.py:13-26 | A code block opens with `'', '.. code-block:: python', ''`. It contains `::` exactly when some output produced a line; otherwise it ends with `''`. |
| Restify.MarkdownLine | rst.py:29-44 | A markdown line yields one or two lines. It fails only when its rstripped form starts with `![`. |
| Restify.HeadingLine | rst.py:38-44 | A line that starts with `## ` after rstrip becomes two lines. The first is the text after the prefix. The second is a line of `-` of the same length. |
| Restify.ImageLine | rst.py:31-36 | `![cap](link...`, split at the first `](`, becomes `.. image:: ` plus the link without its last character, and `   :alt: ` plus the caption. |
| Restify.MarkdownLineFails | rst.py:31-32 | A line fails exactly when it starts with `![` and has no `](`. The error carries the rstripped line. Carrying the line is this model's choice: Python's `ValueError` message does not name it. |
| Restify.PlainLine | rst.py:38-40 | Any other line yields one line. Undoubling its backticks gives the rstripped line back, and the characters that are not backticks are unchanged. |
| Restify.MarkdownLines | rst.py:29-44 | A successful markdown cell with n source lines yields between n and 2n lines. |
| Restify.MarkdownLinesAppend | rst.py:29 | Source lines are rendered one at a time and in order. The lines of `a + b` are the lines of `a` followed by the lines of `b`. When `a` fails, its error is the result. |
| Restify.MarkdownLinesSingle | rst.py:29-44 | A one-line source renders exactly as that line does under the image, heading and backtick rules. |
| Restify.MarkdownLinesFails | rst.py:29-32 | A markdown cell fails exactly when one of its source lines fails. The error is the one from the first failing line. |
| Restify.MarkdownCellOpensBlank | rst.py:27-30 | A markdown cell's rendering opens with `''`, followed by its lines. It fails exactly when one of its source lines fails. |
| Restify.AppendCell | rst.py:11-44 | Appending a cell never changes what was emitted before it. |
| Restify.AppendCells | rst.py:10-44 | Appending a worksheet's cells never changes what was emitted before them. |
| Restify.AppendWorksheets | rst.py:9-44 | Appending worksheets never changes what was emitted before them. |
| Restify.AppendCellIsRenderCell | rst.py:11-44 | Appending one cell is the same as appending its stand-alone rendering, or failing with that rendering's error. |
| Restify.AppendCellsIsRenderCells | rst.py:10-44 | The same holds for a sequence of cells, in order. The first failure wins. |
| Restify.AppendWorksheetsIsRender | rst.py:9-44 | The same holds for a sequence of worksheets. |
| Restify.RestifyNotebook | rst.py:7-45 | `restify`, accumulating one list as the source does, equals the reference rendering `RenderWorksheets`. That is the concatenation of the stand-alone renderings of every cell except each worksheet's first, or the first error. |
| Restify.OtherCellEmitsNothing | rst.py:27 | A cell that is neither `code` nor `markdown` leaves the output unchanged. |
| Restify.OtherCellInvisible | rst.py:11-27 | Removing such a cell from a worksheet does not change the rendering. |
| Restify.FirstCellIgnored | rst.py:9-10 | Replacing the first cell of any worksheet does not change `restify`'s result. |
| Restify.LoneCellEmitsNothing | rst.py:10 | A notebook whose only worksheet has one cell produces no lines. |

## Left out

- Command-line and file handling (rst.py:66-72): reading `sys.argv`, `json.load`, and writing UTF-8 lines. These are I/O around `restify`.
- The generator mechanics of `not_funk` (`next`, `send`). They are modelled as an explicit state (`FilterState`) and a pure step function.
- The exact set of characters `rstrip` removes. It is the parameter `ws` throughout.
- The in-place `del o['text'][0]` (rst.py:19). The notebook is immutable in the model, and dropping the leading `""` affects only the output. A second conversion of the same Python object, which would see the shortened list, is not modelled.
- Malformed notebooks: a missing key raises `KeyError` in the source. The datatypes always have every field, and a cell's unused fields are ignored.
- The difference between byte strings and unicode strings in Python 2. Strings are sequences of characters.
- Strings.Split: models `split` only for a one-character separator, the only kind the source uses.
- Restify.MarkdownLine: its own contract gives only the shape of the result. The full per-rule behaviour is in `HeadingLine`, `ImageLine`, `MarkdownLineFails` and `PlainLine`.
- Restify.AppendCode: its own contract gives only that earlier lines are preserved. The exact block is in `AppendCodeIsCodeBlock` and `CodeBlockMarker`.
