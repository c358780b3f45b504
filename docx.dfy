/** The Word document the converter writes, seen as an append-only log of
  * blocks: styled paragraphs made of runs, tables and page breaks. */
module Docx {
  /** A run of text with its formatting; `red` is the colour the converter
    * gives to the keys of missing references. */
  datatype Run = Run(text: string, bold: bool, italic: bool, red: bool)

  /** A table is its rows of cell texts and its column count; its first row
    * is set in bold. */
  datatype Block =
    | Paragraph(style: string, runs: seq<Run>)
    | Table(rows: seq<seq<string>>, cols: nat)
    | PageBreak

  /** What an operation appends to the document, and the citation keys the
    * text it cleaned contained, in order. */
  datatype Out = Out(blocks: seq<Block>, keys: seq<string>)

  const Nothing: Out := Out([], [])

  function Then(a: Out, b: Out): (r: Out)
    ensures r.blocks == a.blocks + b.blocks && r.keys == a.keys + b.keys
  {
    Out(a.blocks + b.blocks, a.keys + b.keys)
  }

  /** `max(len(row) for row in rows)`, 0 for no rows. */
  function MaxLen(rows: seq<seq<string>>): (m: nat)
    ensures forall i :: 0 <= i < |rows| ==> |rows[i]| <= m
    ensures rows != [] <==> exists i :: 0 <= i < |rows| && |rows[i]| == m
    ensures rows == [] ==> m == 0
    decreases |rows|
  {
    if rows == [] then 0
    else
      var m := MaxLen(rows[..|rows| - 1]);
      var last := |rows[|rows| - 1]|;
      if m >= last then
        assert forall i :: 0 <= i < |rows| - 1 ==> rows[..|rows| - 1][i] == rows[i];
        m
      else last
  }

  /** The table python-docx builds: as many columns as the longest row. */
  function Grid(rows: seq<seq<string>>): (b: Block)
    ensures b.Table? && b.rows == rows
    ensures forall i :: 0 <= i < |rows| ==> |rows[i]| <= b.cols
  {
    Table(rows, MaxLen(rows))
  }

  /** The text of one cell: a short row leaves its trailing cells empty. */
  function Cell(b: Block, r: nat, c: nat): string
    requires b.Table? && r < |b.rows| && c < b.cols
  {
    if c < |b.rows[r]| then b.rows[r][c] else ""
  }

  /** Every cell of a row is the row's text at that column, or empty beyond
    * the row's end; no cell of a row is lost. */
  lemma GridCells(rows: seq<seq<string>>, r: nat)
    requires r < |rows|
    ensures forall c :: 0 <= c < |rows[r]| ==> Cell(Grid(rows), r, c) == rows[r][c]
    ensures forall c :: |rows[r]| <= c < Grid(rows).cols ==> Cell(Grid(rows), r, c) == ""
    ensures exists i :: 0 <= i < |rows| && |rows[i]| == Grid(rows).cols
  {
  }
}
