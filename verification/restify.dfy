/** rst.py's restify: a notebook becomes a list of reStructuredText lines.

    The worksheets are walked in order and the first cell of each is
    skipped.  A code cell becomes a python code-block of its input followed
    by a literal block of its outputs; a markdown cell becomes its lines,
    each rewritten by the image, heading or backtick rule.  Every other cell
    contributes nothing.  Which characters rstrip removes is the parameter
    ws throughout. */
module Restify {
  import opened Results
  import opened Strings
  import opened EscapeFilter
  import opened Ipynb

  const Indent: String := "    "
  const CodeHeader: seq<String> := ["", ".. code-block:: python", ""]
  const OutputHeader: seq<String> := ["", "::", ""]

  /** The ValueError that unpacking `line.split('](', 1)` raises when an
      image line has no "](" in it.  Python's message does not name the
      line; carrying the rstripped line here is a choice of this model, so
      that a failure says which line caused it. */
  datatype Error = ImageWithoutLink(line: String)

  /** Every line starts with the four-space indent. */
  predicate Indented(lines: seq<String>) {
    forall i | 0 <= i < |lines| :: StartsWith(lines[i], Indent)
  }

  function IndentAll(lines: seq<String>): (r: seq<String>)
    ensures |r| == |lines|
    ensures forall i | 0 <= i < |r| :: r[i] == Indent + lines[i]
  {
    seq(|lines|, i requires 0 <= i < |lines| => Indent + lines[i])
  }

  /** Removes the four-space indent from every line. */
  function Dedent(lines: seq<String>): (r: seq<String>)
    ensures |r| == |lines|
  {
    seq(|lines|, i requires 0 <= i < |lines| => Drop(lines[i], |Indent|))
  }

  lemma DedentIndentAll(lines: seq<String>)
    ensures Dedent(IndentAll(lines)) == lines
  {
    var d := Dedent(IndentAll(lines));
    forall i | 0 <= i < |lines|
      ensures d[i] == lines[i]
    {
      assert (Indent + lines[i])[|Indent|..] == lines[i];
    }
  }

  function StripAll(lines: seq<String>, ws: char -> bool): (r: seq<String>)
    ensures |r| == |lines|
    ensures forall i | 0 <= i < |r| :: r[i] == RStrip(lines[i], ws)
  {
    seq(|lines|, i requires 0 <= i < |lines| => RStrip(lines[i], ws))
  }

  /** Python's list[1:]. */
  function Later<T>(xs: seq<T>): (r: seq<T>)
    ensures xs != [] ==> [xs[0]] + r == xs
    ensures xs == [] ==> r == []
  {
    if xs == [] then [] else xs[1..]
  }

  // ---------------------------------------------------------------------
  // Code cells
  // ---------------------------------------------------------------------

  /** The input lines of a code cell, rstripped, without the "##" lines,
      each indented. */
  function InputLines(input: seq<String>, ws: char -> bool): (r: seq<String>)
    ensures Indented(r)
    ensures forall i | 0 <= i < |r| :: r[i] != Indent + "##"
    ensures |r| <= |input|
  {
    if input == [] then []
    else
      var line := RStrip(input[0], ws);
      assert line != "##" ==> Indent + line != Indent + "##" by {
        assert (Indent + line)[|Indent|..] == line;
        assert (Indent + "##")[|Indent|..] == "##";
      }
      (if line != "##" then [Indent + line] else []) + InputLines(input[1..], ws)
  }

  /** The input lines are rendered one at a time: the rendering of a
      concatenation is the concatenation of the renderings. */
  lemma {:induction false} InputLinesAppend(a: seq<String>, b: seq<String>, ws: char -> bool)
    ensures InputLines(a + b, ws) == InputLines(a, ws) + InputLines(b, ws)
    decreases |a|
  {
    if a == [] {
      assert a + b == b;
    } else {
      assert (a + b)[1..] == a[1..] + b;
      InputLinesAppend(a[1..], b, ws);
    }
  }

  /** A single input line yields its indented rstripped form, unless that
      form is "##", which yields nothing. */
  lemma InputLine(line: String, ws: char -> bool)
    ensures RStrip(line, ws) == "##" ==> InputLines([line], ws) == []
    ensures RStrip(line, ws) != "##" ==> InputLines([line], ws) == [Indent + RStrip(line, ws)]
  {
    assert [line][1..] == [];
  }

  /** The "text" of a stream output: a leading empty string is dropped,
      then every line is rstripped and indented. */
  function TextLines(text: seq<String>, ws: char -> bool): (r: seq<String>)
    ensures Indented(r)
    ensures |text| > 0 && text[0] == "" ==> Dedent(r) == StripAll(text[1..], ws)
    ensures !(|text| > 0 && text[0] == "") ==> Dedent(r) == StripAll(text, ws)
  {
    var kept := if |text| > 0 && text[0] == "" then text[1..] else text;
    DedentIndentAll(StripAll(kept, ws));
    IndentAll(StripAll(kept, ws))
  }

  /** Only the first line is dropped, and only when it is empty: a second
      empty line survives as a line holding just the indent. */
  lemma TextLinesDropsOneBlank(t: seq<String>, ws: char -> bool)
    ensures var r := TextLines(["", ""] + t, ws);
      |r| == |t| + 1 && r[0] == Indent
  {
    var r := TextLines(["", ""] + t, ws);
    var kept := (["", ""] + t)[1..];
    assert kept[0] == "";
    assert Dedent(r) == StripAll(kept, ws);
    assert Dedent(r)[0] == RStrip("", ws) == "";
    assert StartsWith(r[0], Indent);
    assert r[0] == Indent + r[0][|Indent|..];
  }

  /** The traceback lines of an error output: escape sequences are removed
      from each, the result is split at newlines and every piece indented. */
  function TracebackLines(tb: seq<String>): (r: seq<String>)
    ensures Indented(r)
    ensures forall i | 0 <= i < |r| :: Esc !in r[i] && '\n' !in r[i]
    ensures |r| >= |tb|
  {
    if tb == [] then []
    else
      var pieces := Split(Unfunk(tb[0]), '\n');
      PartsAvoid(pieces, "\n", Esc);
      IndentAll(pieces) + TracebackLines(tb[1..])
  }

  /** A character missing from a join is missing from each of its parts. */
  lemma {:induction false} PartsAvoid(parts: seq<String>, sep: String, c: char)
    requires c !in Join(parts, sep)
    ensures forall i | 0 <= i < |parts| :: c !in parts[i]
    decreases |parts|
  {
    if |parts| > 1 {
      PartsAvoid(parts[1..], sep, c);
      forall i | 1 <= i < |parts|
        ensures c !in parts[i]
      {
        assert parts[i] == parts[1..][i - 1];
      }
    }
  }

  /** The traceback entries are rendered one at a time, in order. */
  lemma {:induction false} TracebackLinesAppend(a: seq<String>, b: seq<String>)
    ensures TracebackLines(a + b) == TracebackLines(a) + TracebackLines(b)
    decreases |a|
  {
    if a == [] {
      assert a + b == b;
    } else {
      assert (a + b)[1..] == a[1..] + b;
      TracebackLinesAppend(a[1..], b);
    }
  }

  /** Removing the indent and joining the lines a traceback line became
      with newlines gives back that line with its escape sequences
      removed: nothing else is lost or added. */
  lemma TracebackLineRoundTrip(line: String)
    ensures Join(Dedent(TracebackLines([line])), "\n") == Unfunk(line)
    ensures |TracebackLines([line])| == Count('\n', Unfunk(line)) + 1
  {
    var pieces := Split(Unfunk(line), '\n');
    assert [line][1..] == [];
    assert TracebackLines([line]) == IndentAll(pieces) + [];
    assert IndentAll(pieces) + [] == IndentAll(pieces);
    DedentIndentAll(pieces);
    assert "\n" == ['\n'];
  }

  /** The lines of one output: its text when it has one, else its
      traceback, else nothing. */
  function OutputLines(o: Output, ws: char -> bool): (r: seq<String>)
    ensures Indented(r)
    ensures o.text.Some? ==> r == TextLines(o.text.value, ws)
    ensures o.text.None? && o.traceback.Some? ==> r == TracebackLines(o.traceback.value)
    ensures o.text.None? && o.traceback.None? ==> r == []
  {
    match o.text
    case Some(text) => TextLines(text, ws)
    case None =>
      match o.traceback
      case Some(tb) => TracebackLines(tb)
      case None => []
  }

  /** The lines of a cell's outputs, in order.  They are empty exactly
      when no single output produced a line, which is when rst.py drops the
      literal-block marker again. */
  function OutputsLines(outputs: seq<Output>, ws: char -> bool): (r: seq<String>)
    ensures Indented(r)
    ensures r == [] <==> forall i | 0 <= i < |outputs| :: OutputLines(outputs[i], ws) == []
  {
    if outputs == [] then []
    else
      assert forall i | 1 <= i < |outputs| :: outputs[i] == outputs[1..][i - 1];
      OutputLines(outputs[0], ws) + OutputsLines(outputs[1..], ws)
  }

  /** The outputs are rendered one at a time, in order. */
  lemma {:induction false} OutputsLinesAppend(a: seq<Output>, b: seq<Output>, ws: char -> bool)
    ensures OutputsLines(a + b, ws) == OutputsLines(a, ws) + OutputsLines(b, ws)
    decreases |a|
  {
    if a == [] {
      assert a + b == b;
    } else {
      assert (a + b)[1..] == a[1..] + b;
      OutputsLinesAppend(a[1..], b, ws);
    }
  }

  /** Python's `lines[-2:] == ['::', '']`. */
  predicate EndsWithLiteralMarker(lines: seq<String>) {
    |lines| >= 2 && lines[|lines| - 2] == "::" && lines[|lines| - 1] == ""
  }

  /** A code cell appended to the lines emitted so far, as rst.py does it:
      the header, the input, the literal-block header and the outputs, after
      which a trailing "::", "" pair of the whole list is removed. */
  function AppendCode(out: seq<String>, c: Cell, ws: char -> bool): (r: seq<String>)
    ensures |out| + 4 <= |r|
    ensures out <= r
  {
    var e := out + CodeHeader + InputLines(c.input, ws) + OutputHeader + OutputsLines(c.outputs, ws);
    if EndsWithLiteralMarker(e) then e[..|e| - 2] else e
  }

  // ---------------------------------------------------------------------
  // Markdown cells
  // ---------------------------------------------------------------------

  /** One line of a markdown cell, rstripped, then rewritten: an image
      becomes an image directive, a level-two heading its text and an
      underline, anything else itself with its backticks doubled. */
  function MarkdownLine(raw: String, ws: char -> bool): (r: Result<seq<String>, Error>)
    ensures r.Err? ==> StartsWith(RStrip(raw, ws), "![")
    ensures r.Ok? ==> |r.value| == 1 || |r.value| == 2
  {
    var line := RStrip(raw, ws);
    if StartsWith(line, "![") then
      match SplitOnce(line, "](")
      case None => Err(ImageWithoutLink(line))
      case Some((cap, link)) => Ok([".. image:: " + DropLast(link), "   :alt: " + Drop(cap, 2)])
    else if !StartsWith(line, "## ") then
      Ok([DoubleBackticks(line)])
    else
      var title := line[3..];
      Ok([title, Repeat('-', |title|)])
  }

  /** The lines of a markdown cell's source in order; the first line that
      fails aborts the whole conversion. */
  function MarkdownLines(source: seq<String>, ws: char -> bool): (r: Result<seq<String>, Error>)
    ensures r.Ok? ==> |source| <= |r.value| <= 2 * |source|
  {
    if source == [] then Ok([])
    else
      match MarkdownLine(source[0], ws)
      case Err(e) => Err(e)
      case Ok(first) =>
        match MarkdownLines(source[1..], ws)
        case Err(e) => Err(e)
        case Ok(rest) => Ok(first + rest)
  }

  /** The source lines are rendered one at a time: a cell's lines are the
      first part's lines followed by the rest's, and the first part's error
      wins. */
  lemma {:induction false} MarkdownLinesAppend(a: seq<String>, b: seq<String>, ws: char -> bool)
    ensures MarkdownLines(a + b, ws)
         == match MarkdownLines(a, ws)
            case Err(e) => Err(e)
            case Ok(x) => Prepend(x, MarkdownLines(b, ws))
    decreases |a|
  {
    if a == [] {
      assert a + b == b;
      match MarkdownLines(b, ws)
      case Err(_) =>
      case Ok(y) => assert [] + y == y;
    } else {
      assert (a + b)[0] == a[0];
      assert (a + b)[1..] == a[1..] + b;
      MarkdownLinesAppend(a[1..], b, ws);
      match MarkdownLine(a[0], ws)
      case Err(_) =>
      case Ok(first) =>
        match MarkdownLines(a[1..], ws)
        case Err(_) =>
        case Ok(x) =>
          PrependTwice(first, x, MarkdownLines(b, ws));
    }
  }

  /** A cell of one source line renders as that line does. */
  lemma MarkdownLinesSingle(raw: String, ws: char -> bool)
    ensures MarkdownLines([raw], ws) == MarkdownLine(raw, ws)
  {
    assert [raw][1..] == [];
    match MarkdownLine(raw, ws)
    case Err(_) =>
    case Ok(x) => assert x + [] == x;
  }

  /** A markdown cell fails exactly when one of its source lines fails,
      and the error is that of the first failing line. */
  lemma {:induction false} MarkdownLinesFails(source: seq<String>, ws: char -> bool)
    ensures MarkdownLines(source, ws).Err?
        <==> exists i | 0 <= i < |source| :: MarkdownLine(source[i], ws).Err?
    ensures MarkdownLines(source, ws).Err? ==>
      exists i | 0 <= i < |source| ::
        && MarkdownLine(source[i], ws).Err?
        && (forall j | 0 <= j < i :: MarkdownLine(source[j], ws).Ok?)
        && MarkdownLines(source, ws).error == MarkdownLine(source[i], ws).error
    decreases |source|
  {
    if source != [] {
      var rest := source[1..];
      MarkdownLinesFails(rest, ws);
      forall i | 1 <= i < |source|
        ensures source[i] == rest[i - 1]
      {
      }
      if MarkdownLine(source[0], ws).Ok? {
        if MarkdownLines(rest, ws).Err? {
          var k :| 0 <= k < |rest| && MarkdownLine(rest[k], ws).Err?
            && (forall j | 0 <= j < k :: MarkdownLine(rest[j], ws).Ok?)
            && MarkdownLines(rest, ws).error == MarkdownLine(rest[k], ws).error;
          assert MarkdownLine(source[k + 1], ws).Err?;
          forall j | 0 <= j < k + 1
            ensures MarkdownLine(source[j], ws).Ok?
          {
            if j > 0 {
              assert MarkdownLine(rest[j - 1], ws).Ok?;
            }
          }
        } else {
          forall i | 0 <= i < |source|
            ensures MarkdownLine(source[i], ws).Ok?
          {
            if i > 0 {
              assert !MarkdownLine(rest[i - 1], ws).Err?;
            }
          }
        }
      } else {
        assert MarkdownLine(source[0], ws).Err?;
      }
    }
  }

  // ---------------------------------------------------------------------
  // The walk over worksheets and cells
  // ---------------------------------------------------------------------

  /** One cell appended to the lines emitted so far. */
  function AppendCell(out: seq<String>, c: Cell, ws: char -> bool): (r: Result<seq<String>, Error>)
    ensures r.Ok? ==> out <= r.value
  {
    if c.cellType == "code" then Ok(AppendCode(out, c, ws))
    else if c.cellType == "markdown" then
      match MarkdownLines(c.source, ws)
      case Err(e) => Err(e)
      case Ok(lines) =>
        Ok(out + [""] + lines)
    else Ok(out)
  }

  function AppendCells(out: seq<String>, cells: seq<Cell>, ws: char -> bool): (r: Result<seq<String>, Error>)
    ensures r.Ok? ==> out <= r.value
    decreases |cells|
  {
    if cells == [] then Ok(out)
    else
      match AppendCell(out, cells[0], ws)
      case Err(e) => Err(e)
      case Ok(next) =>
        AppendCells(next, cells[1..], ws)
  }

  function AppendWorksheets(out: seq<String>, worksheets: seq<Worksheet>, ws: char -> bool): (r: Result<seq<String>, Error>)
    ensures r.Ok? ==> out <= r.value
    decreases |worksheets|
  {
    if worksheets == [] then Ok(out)
    else
      match AppendCells(out, Later(worksheets[0].cells), ws)
      case Err(e) => Err(e)
      case Ok(next) =>
        AppendWorksheets(next, worksheets[1..], ws)
  }

  /** rst.py's restify: the lines are accumulated in one list, and the
      result is the concatenation, worksheet by worksheet and cell by cell,
      of the stand-alone renderings of every cell but the first of each
      worksheet; the first failing cell's error is the result when one
      fails. */
  function RestifyNotebook(nb: Notebook, ws: char -> bool): (r: Result<seq<String>, Error>)
    ensures r == RenderWorksheets(nb.worksheets, ws)
  {
    AppendWorksheetsIsRender([], nb.worksheets, ws);
    assert RenderWorksheets(nb.worksheets, ws).Ok? ==>
      [] + RenderWorksheets(nb.worksheets, ws).value == RenderWorksheets(nb.worksheets, ws).value;
    AppendWorksheets([], nb.worksheets, ws)
  }

  // ---------------------------------------------------------------------
  // A cell-by-cell reference rendering, and its agreement with RestifyNotebook
  // ---------------------------------------------------------------------

  /** The lines of a code cell on their own: the literal block of outputs
      is there exactly when some output produced a line; otherwise the
      input block is closed by a single empty line. */
  function CodeBlock(c: Cell, ws: char -> bool): seq<String> {
    var outs := OutputsLines(c.outputs, ws);
    CodeHeader + InputLines(c.input, ws) + (if outs == [] then [""] else OutputHeader + outs)
  }

  function RenderCell(c: Cell, ws: char -> bool): Result<seq<String>, Error> {
    if c.cellType == "code" then Ok(CodeBlock(c, ws))
    else if c.cellType == "markdown" then
      match MarkdownLines(c.source, ws)
      case Err(e) => Err(e)
      case Ok(lines) => Ok([""] + lines)
    else Ok([])
  }

  function RenderCells(cells: seq<Cell>, ws: char -> bool): Result<seq<String>, Error> {
    if cells == [] then Ok([])
    else
      match RenderCell(cells[0], ws)
      case Err(e) => Err(e)
      case Ok(first) => Prepend(first, RenderCells(cells[1..], ws))
  }

  /** Every worksheet rendered without its first cell, in order. */
  function RenderWorksheets(worksheets: seq<Worksheet>, ws: char -> bool): Result<seq<String>, Error> {
    if worksheets == [] then Ok([])
    else
      match RenderCells(Later(worksheets[0].cells), ws)
      case Err(e) => Err(e)
      case Ok(first) => Prepend(first, RenderWorksheets(worksheets[1..], ws))
  }

  /** out followed by a rendering, or the rendering's error. */
  function Prepend(out: seq<String>, r: Result<seq<String>, Error>): Result<seq<String>, Error> {
    match r
    case Ok(lines) => Ok(out + lines)
    case Err(e) => Err(e)
  }

  /** The check of the whole accumulated list for a trailing "::", ""
      pair fires exactly when the cell itself produced no output line,
      because every output line is indented: appending a code cell is
      appending its stand-alone block, whatever came before. */
  lemma AppendCodeIsCodeBlock(out: seq<String>, c: Cell, ws: char -> bool)
    ensures AppendCode(out, c, ws) == out + CodeBlock(c, ws)
  {
    MarkerRemovalIsLocal(out, InputLines(c.input, ws), OutputsLines(c.outputs, ws));
  }

  /** Removing a trailing "::", "" pair from everything emitted so far
      touches only the block just appended. */
  lemma MarkerRemovalIsLocal(out: seq<String>, ins: seq<String>, outs: seq<String>)
    requires Indented(outs)
    ensures var e := out + CodeHeader + ins + OutputHeader + outs;
      (if EndsWithLiteralMarker(e) then e[..|e| - 2] else e)
      == out + (CodeHeader + ins + (if outs == [] then [""] else OutputHeader + outs))
  {
    var pre := out + CodeHeader + ins;
    TrailingPairOnlyWithoutOutput(pre, outs);
    var e := pre + OutputHeader + outs;
    if outs == [] {
      assert e[..|e| - 2] == pre + [""];
    }
  }

  /** After the literal-block header, the list ends in "::", "" exactly
      when no output line followed it. */
  lemma TrailingPairOnlyWithoutOutput(pre: seq<String>, outs: seq<String>)
    requires Indented(outs)
    ensures EndsWithLiteralMarker(pre + OutputHeader + outs) <==> outs == []
    ensures var e := pre + OutputHeader + outs;
      outs == [] ==> e[..|e| - 2] == pre + [""]
  {
    var e := pre + OutputHeader + outs;
    if outs == [] {
      assert e == (pre + [""]) + ["::", ""];
    } else {
      var last := outs[|outs| - 1];
      assert e[|e| - 1] == last;
      assert StartsWith(last, Indent);
      assert last != "";
    }
  }

  lemma AppendCellIsRenderCell(out: seq<String>, c: Cell, ws: char -> bool)
    ensures AppendCell(out, c, ws) == Prepend(out, RenderCell(c, ws))
  {
    if c.cellType == "code" {
      AppendCodeIsCodeBlock(out, c, ws);
    } else if c.cellType == "markdown" {
      match MarkdownLines(c.source, ws)
      case Err(_) =>
      case Ok(lines) =>
        assert out + [""] + lines == out + ([""] + lines);
    } else {
      assert out + [] == out;
    }
  }

  lemma PrependTwice(out: seq<String>, first: seq<String>, r: Result<seq<String>, Error>)
    ensures Prepend(out + first, r) == Prepend(out, Prepend(first, r))
  {
    if r.Ok? {
      assert out + first + r.value == out + (first + r.value);
    }
  }

  lemma {:induction false} AppendCellsIsRenderCells(out: seq<String>, cells: seq<Cell>, ws: char -> bool)
    ensures AppendCells(out, cells, ws) == Prepend(out, RenderCells(cells, ws))
    decreases |cells|
  {
    if cells == [] {
      assert out + [] == out;
    } else {
      var head := RenderCell(cells[0], ws);
      AppendCellIsRenderCell(out, cells[0], ws);
      if head.Ok? {
        var first := head.value;
        assert AppendCells(out, cells, ws) == AppendCells(out + first, cells[1..], ws);
        assert RenderCells(cells, ws) == Prepend(first, RenderCells(cells[1..], ws));
        AppendCellsIsRenderCells(out + first, cells[1..], ws);
        PrependTwice(out, first, RenderCells(cells[1..], ws));
      }
    }
  }

  lemma {:induction false} AppendWorksheetsIsRender(out: seq<String>, worksheets: seq<Worksheet>, ws: char -> bool)
    ensures AppendWorksheets(out, worksheets, ws) == Prepend(out, RenderWorksheets(worksheets, ws))
    decreases |worksheets|
  {
    if worksheets == [] {
      assert out + [] == out;
    } else {
      var cells := Later(worksheets[0].cells);
      var head := RenderCells(cells, ws);
      AppendCellsIsRenderCells(out, cells, ws);
      if head.Ok? {
        var first := head.value;
        assert AppendWorksheets(out, worksheets, ws) == AppendWorksheets(out + first, worksheets[1..], ws);
        assert RenderWorksheets(worksheets, ws) == Prepend(first, RenderWorksheets(worksheets[1..], ws));
        AppendWorksheetsIsRender(out + first, worksheets[1..], ws);
        PrependTwice(out, first, RenderWorksheets(worksheets[1..], ws));
      }
    }
  }

  // ---------------------------------------------------------------------
  // The per-line markdown rules
  // ---------------------------------------------------------------------

  /** A line that is "## " and a title after rstrip becomes the title and
      an underline of dashes exactly as long. */
  lemma HeadingLine(raw: String, ws: char -> bool)
    requires StartsWith(RStrip(raw, ws), "## ")
    ensures var r := MarkdownLine(raw, ws);
      && r.Ok? && |r.value| == 2
      && "## " + r.value[0] == RStrip(raw, ws)
      && |r.value[1]| == |r.value[0]|
      && forall i | 0 <= i < |r.value[1]| :: r.value[1][i] == '-'
  {
    var line := RStrip(raw, ws);
    assert !StartsWith(line, "![") by {
      assert line[0] == '#';
    }
    assert "## " + line[3..] == line;
  }

  /** A line "![" + cap + "](" + link, where this "](" is the first one,
      becomes an image directive naming the link without its last
      character (the closing parenthesis) and an :alt: option holding the
      caption. */
  lemma ImageLine(raw: String, ws: char -> bool, cap: String, link: String)
    requires RStrip(raw, ws) == "![" + cap + "](" + link
    requires forall j: nat | j < 2 + |cap| :: !OccursAt(RStrip(raw, ws), "](", j)
    ensures MarkdownLine(raw, ws) == Ok([".. image:: " + DropLast(link), "   :alt: " + cap])
  {
    var line := RStrip(raw, ws);
    assert StartsWith(line, "![");
    assert OccursAt(line, "](", 2 + |cap|) by {
      assert line[2 + |cap|..2 + |cap| + 2] == "](";
    }
    var parts := SplitOnce(line, "](");
    assert parts.Some?;
    var (a, b) := parts.value;
    assert |a| == 2 + |cap|;
    assert a == line[..|a|] == "![" + cap;
    assert b == line[|a| + 2..] == link;
    assert Drop(a, 2) == cap;
  }

  /** An image line fails exactly when it has no "](": the error names the
      rstripped line.  No other line fails. */
  lemma MarkdownLineFails(raw: String, ws: char -> bool)
    ensures var line := RStrip(raw, ws);
      MarkdownLine(raw, ws).Err?
      <==> StartsWith(line, "![") && forall j: nat :: !OccursAt(line, "](", j)
    ensures MarkdownLine(raw, ws).Err? ==> MarkdownLine(raw, ws).error == ImageWithoutLink(RStrip(raw, ws))
  {
  }

  /** Any other line is kept, rstripped, with each backtick doubled:
      collapsing the doubled backticks gives the line back, and the
      characters other than backticks are untouched. */
  lemma PlainLine(raw: String, ws: char -> bool)
    requires !StartsWith(RStrip(raw, ws), "![")
    requires !StartsWith(RStrip(raw, ws), "## ")
    ensures var r := MarkdownLine(raw, ws);
      && r.Ok? && |r.value| == 1
      && Undouble(r.value[0]) == RStrip(raw, ws)
      && Without('`', r.value[0]) == Without('`', RStrip(raw, ws))
      && Count('`', r.value[0]) == 2 * Count('`', RStrip(raw, ws))
  {
    UndoubleDouble(RStrip(raw, ws));
  }

  /** A markdown cell's rendering opens with an empty line, which is
      followed by its source lines' renderings. */
  lemma MarkdownCellOpensBlank(c: Cell, ws: char -> bool)
    requires c.cellType == "markdown"
    ensures var r := RenderCell(c, ws);
      r.Ok? ==> (|r.value| > |c.source| && r.value[0] == ""
                 && MarkdownLines(c.source, ws) == Ok(r.value[1..]))
    ensures RenderCell(c, ws).Err? <==> MarkdownLines(c.source, ws).Err?
    ensures RenderCell(c, ws).Err?
        <==> exists i | 0 <= i < |c.source| :: MarkdownLine(c.source[i], ws).Err?
  {
    MarkdownLinesFails(c.source, ws);
    match MarkdownLines(c.source, ws)
    case Err(_) =>
    case Ok(lines) =>
      assert ([""] + lines)[1..] == lines;
  }

  // ---------------------------------------------------------------------
  // Code cells, and the cells that produce nothing
  // ---------------------------------------------------------------------

  /** A code cell's block always opens with the code-block directive; the
      literal-block marker "::" is in it exactly when some output produced
      a line, and otherwise the block ends with an empty line. */
  lemma CodeBlockMarker(c: Cell, ws: char -> bool)
    ensures CodeBlock(c, ws)[..3] == CodeHeader
    ensures "::" in CodeBlock(c, ws) <==> OutputsLines(c.outputs, ws) != []
    ensures OutputsLines(c.outputs, ws) == [] ==> CodeBlock(c, ws)[|CodeBlock(c, ws)| - 1] == ""
  {
    MarkerOnlyWithOutput(InputLines(c.input, ws), OutputsLines(c.outputs, ws));
  }

  lemma MarkerOnlyWithOutput(ins: seq<String>, outs: seq<String>)
    requires Indented(ins)
    ensures var r := CodeHeader + ins + (if outs == [] then [""] else OutputHeader + outs);
      && r[..3] == CodeHeader
      && ("::" in r <==> outs != [])
      && (outs == [] ==> r[|r| - 1] == "")
  {
    var r := CodeHeader + ins + (if outs == [] then [""] else OutputHeader + outs);
    assert r[..3] == CodeHeader;
    if outs == [] {
      forall i | 0 <= i < |r|
        ensures r[i] != "::"
      {
        if 3 <= i < 3 + |ins| {
          assert r[i] == ins[i - 3];
          assert StartsWith(ins[i - 3], Indent);
        }
      }
    } else {
      assert r[3 + |ins| + 1] == "::";
    }
  }

  /** A cell that is neither code nor markdown leaves the output as it
      was. */
  lemma OtherCellEmitsNothing(out: seq<String>, c: Cell, ws: char -> bool)
    requires c.cellType != "code" && c.cellType != "markdown"
    ensures AppendCell(out, c, ws) == Ok(out)
    ensures RenderCell(c, ws) == Ok([])
  {
  }

  /** Removing a cell that is neither code nor markdown from a worksheet
      changes nothing. */
  lemma {:induction false} OtherCellInvisible(a: seq<Cell>, x: Cell, b: seq<Cell>, ws: char -> bool)
    requires x.cellType != "code" && x.cellType != "markdown"
    ensures RenderCells(a + [x] + b, ws) == RenderCells(a + b, ws)
    decreases |a|
  {
    if a == [] {
      assert (a + [x] + b)[1..] == b;
      assert a + b == b;
      assert [] + b == b;
      match RenderCells(b, ws)
      case Err(_) =>
      case Ok(rest) => assert [] + rest == rest;
    } else {
      assert (a + [x] + b)[0] == a[0] && (a + b)[0] == a[0];
      assert (a + [x] + b)[1..] == a[1..] + [x] + b;
      assert (a + b)[1..] == a[1..] + b;
      OtherCellInvisible(a[1..], x, b, ws);
    }
  }

  /** Whatever the first cell of a worksheet is, restify's output is the
      same: that cell is never rendered. */
  lemma {:induction false} FirstCellIgnored(pre: seq<Worksheet>, c: Cell, d: Cell, cells: seq<Cell>, post: seq<Worksheet>, ws: char -> bool)
    ensures RestifyNotebook(Notebook(pre + [Worksheet([c] + cells)] + post), ws)
         == RestifyNotebook(Notebook(pre + [Worksheet([d] + cells)] + post), ws)
  {
    FirstCellIgnoredInRender(pre, c, d, cells, post, ws);
  }

  lemma {:induction false} FirstCellIgnoredInRender(pre: seq<Worksheet>, c: Cell, d: Cell, cells: seq<Cell>, post: seq<Worksheet>, ws: char -> bool)
    ensures RenderWorksheets(pre + [Worksheet([c] + cells)] + post, ws)
         == RenderWorksheets(pre + [Worksheet([d] + cells)] + post, ws)
    decreases |pre|
  {
    var x := pre + [Worksheet([c] + cells)] + post;
    var y := pre + [Worksheet([d] + cells)] + post;
    if pre == [] {
      assert x[0].cells == [c] + cells && y[0].cells == [d] + cells;
      assert Later(x[0].cells) == cells == Later(y[0].cells);
      assert x[1..] == post == y[1..];
    } else {
      assert x[0] == pre[0] == y[0];
      assert x[1..] == pre[1..] + [Worksheet([c] + cells)] + post;
      assert y[1..] == pre[1..] + [Worksheet([d] + cells)] + post;
      FirstCellIgnoredInRender(pre[1..], c, d, cells, post, ws);
    }
  }

  /** A worksheet with a single cell contributes nothing. */
  lemma LoneCellEmitsNothing(c: Cell, ws: char -> bool)
    ensures RestifyNotebook(Notebook([Worksheet([c])]), ws) == Ok([])
  {
    var nb := Notebook([Worksheet([c])]);
    assert Later([c]) == [];
    assert nb.worksheets[1..] == [];
    assert RenderCells(Later(nb.worksheets[0].cells), ws) == Ok([]);
    assert RenderWorksheets(nb.worksheets, ws) == Prepend([], Ok([]));
  }
}
