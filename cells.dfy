/** Notebook cells as both directions of the converter see them. */
module Cells {
  import opened Wrappers

  /** The `cell_type` of a cell: "markdown", "code", or anything else
      (including a missing key), which the converters treat alike. */
  datatype CellKind = Markdown | Code | Other

  /** A cell's type and its `source` list of strings. A cell without a
      `source` key reads as one with an empty list, as `cell.get('source', [])` does. */
  datatype Cell = Cell(kind: CellKind, source: seq<string>)

  /** Every cell is a markdown or a code cell. */
  predicate OnlyKnownCells(cells: seq<Cell>)
  {
    forall i :: 0 <= i < |cells| ==> cells[i].kind != Other
  }

  /** The cell `nbformat.v4.new_markdown_cell(text)` builds: its source is the one string. */
  function MarkdownCell(text: string): Cell
  {
    Cell(Markdown, [text])
  }

  /** The cell `nbformat.v4.new_code_cell(text)` builds. */
  function CodeCell(text: string): Cell
  {
    Cell(Code, [text])
  }

  // Fences, written by both directions of the converter.

  /** `lang or ''` for the fence's language tag. */
  function LangTag(lang: Option<string>): string
  {
    match lang
    case None => ""
    case Some(l) => l
  }

  /** The fence that opens a code fragment. */
  function OpenFence(lang: Option<string>): string
  {
    "```" + LangTag(lang) + "\n"
  }
}
