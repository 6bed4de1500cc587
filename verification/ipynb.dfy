/** The parts of an IPython notebook (nbformat 3 JSON) that rst.py reads,
    as immutable values.  A field the converter does not read for a cell of
    a given type is simply ignored. */
module Ipynb {
  import opened Results
  import opened Strings

  /** One entry of a code cell's "outputs": its "text" list of lines and
      its "traceback" list of lines, each possibly absent. */
  datatype Output = Output(text: Option<seq<String>>, traceback: Option<seq<String>>)

  /** A cell: its "cell_type", the "input" lines and "outputs" of a code
      cell, and the "source" lines of a markdown cell. */
  datatype Cell = Cell(cellType: String, input: seq<String>, outputs: seq<Output>, source: seq<String>)

  datatype Worksheet = Worksheet(cells: seq<Cell>)

  datatype Notebook = Notebook(worksheets: seq<Worksheet>)
}
