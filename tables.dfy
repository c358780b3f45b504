/** The table extractors of the converter (`process_table`,
  * `process_simple_table_data`, `is_informal_table` and
  * `process_informal_table` in `core/scripts/Latex2word.py`): which lines
  * become rows, how a row is cut into cells, and the table each one adds. */
module Tables {
  import opened Strings
  import opened Scan
  import opened LatexClean
  import opened Docx
  import opened Inline

  /** Cells cleaned one by one, and the citation keys the cleaning met. */
  datatype Cleaned = Cleaned(cells: seq<string>, keys: seq<string>)

  /** `clean_latex_text` (here `clean`) on every cell, in order. */
  function CleanAll(clean: string -> Subbed, cells: seq<string>): (r: Cleaned)
    ensures |r.cells| == |cells|
    ensures forall i :: 0 <= i < |cells| ==> r.cells[i] == clean(cells[i]).out
    decreases |cells|
  {
    if cells == [] then Cleaned([], [])
    else
      var init := CleanAll(clean, cells[..|cells| - 1]);
      var c := clean(cells[|cells| - 1]);
      Cleaned(init.cells + [c.out], init.keys + c.keys)
  }

  /** The rows a table operation built, and the keys their cleaning met. */
  datatype Rows = Rows(rows: seq<seq<string>>, keys: seq<string>)

  // ---------------------------------------------------------------------------
  // process_table

  /** The markers that make `process_table` skip a line. */
  const TableMarkers: seq<string> := ["\\begin{", "\\end{", "\\hline", "\\toprule", "\\midrule", "\\bottomrule"]

  predicate HasMarker(l: string)
  {
    exists i :: 0 <= i < |TableMarkers| && Contains(l, TableMarkers[i])
  }

  /** A stripped line that `process_table` turns into a row: not empty, not a
    * comment, without any marker, and holding a `&`. */
  predicate RowLine(l: string)
  {
    l != [] && l[0] != '%' && !HasMarker(l) && '&' in l
  }

  /** The cells of a row line before cleaning: `\\` removed, the line stripped
    * and cut at every `&`, each piece stripped. */
  function RawCells(l: string): (cs: seq<string>)
    ensures |cs| == |Split(PyStrip(ReplaceAll(l, "\\\\", "")), '&')|
  {
    var parts := Split(PyStrip(ReplaceAll(l, "\\\\", "")), '&');
    seq(|parts|, i requires 0 <= i < |parts| => PyStrip(parts[i]))
  }

  /** The lines of a text, each stripped (the `line.strip()` every table
    * extractor starts from). */
  function Lines(text: string): (ls: seq<string>)
    ensures |ls| == |Split(text, '\n')|
    ensures forall i :: 0 <= i < |ls| ==> ls[i] == PyStrip(Split(text, '\n')[i])
  {
    var raw := Split(text, '\n');
    seq(|raw|, i requires 0 <= i < |raw| => PyStrip(raw[i]))
  }

  /** The lines that `keep` accepts, in order. */
  function Select(lines: seq<string>, keep: string -> bool): (src: seq<string>)
    ensures |src| <= |lines|
    ensures forall j :: 0 <= j < |src| ==> keep(src[j]) && src[j] in lines
    decreases |lines|
  {
    if lines == [] then []
    else
      var l := lines[|lines| - 1];
      Select(lines[..|lines| - 1], keep) + (if keep(l) then [l] else [])
  }

  /** Nothing is selected exactly when no line is accepted. */
  lemma {:induction false} SelectNone(lines: seq<string>, keep: string -> bool)
    ensures Select(lines, keep) == [] <==> forall i :: 0 <= i < |lines| ==> !keep(lines[i])
    decreases |lines|
  {
    if lines != [] {
      var init := lines[..|lines| - 1];
      SelectNone(init, keep);
      assert forall i :: 0 <= i < |init| ==> init[i] == lines[i];
    }
  }

  /** Every accepted line is selected, and each at its place: selecting
    * commutes with appending. */
  lemma {:induction false} SelectAppend(a: seq<string>, b: seq<string>, keep: string -> bool)
    ensures Select(a + b, keep) == Select(a, keep) + Select(b, keep)
    decreases |b|
  {
    if b == [] {
      assert a + b == a;
    } else {
      assert (a + b)[..|a + b| - 1] == a + b[..|b| - 1];
      SelectAppend(a, b[..|b| - 1], keep);
    }
  }

  /** One row per selected line: its cells, each cleaned. */
  function RowsFrom(clean: string -> Subbed, src: seq<string>, cells: string -> seq<string>): (r: Rows)
    ensures |r.rows| == |src|
    ensures forall j :: 0 <= j < |src| ==> r.rows[j] == CleanAll(clean, cells(src[j])).cells
    decreases |src|
  {
    if src == [] then Rows([], [])
    else
      var r := RowsFrom(clean, src[..|src| - 1], cells);
      var c := CleanAll(clean, cells(src[|src| - 1]));
      Rows(r.rows + [c.cells], r.keys + c.keys)
  }

  /** The rows of `process_table`: one per row line, the cells of the line
    * cleaned. */
  function TableRows(clean: string -> Subbed, lines: seq<string>): (r: Rows)
    ensures |r.rows| == |Select(lines, RowLine)|
    ensures forall j :: 0 <= j < |r.rows| ==> |r.rows[j]| >= 2
  {
    var src := Select(lines, RowLine);
    forall j | 0 <= j < |src| ensures |RawCells(src[j])| >= 2 {
      RowLineWidth(src[j]);
    }
    RowsFrom(clean, src, RawCells)
  }

  /** `process_table`: whether a table was made, and what it appended. */
  function ProcessTable(clean: string -> Subbed, content: string): (bool, Out)
  {
    var r := TableRows(clean, Lines(content));
    if r.rows != [] then (true, Out([Grid(r.rows)], r.keys)) else (false, Out([], r.keys))
  }

  /** A row line has at least two cells. */
  lemma RowLineWidth(l: string)
    requires RowLine(l)
    ensures |RawCells(l)| >= 2
  {
    var i :| 0 <= i < |l| && l[i] == '&';
    var t := ReplaceAll(l, "\\\\", "");
    ReplaceKeepsChar(l, "\\\\", "", '&');
    var j :| 0 <= j < |t| && t[j] == '&';
    StripKeepsChar(t, IsPySpace, j);
    CountPositive(PyStrip(t), '&');
    SplitJoin(PyStrip(t), '&');
  }

  /** `process_table` makes a table exactly when some line is a row line,
    * with one row per row line and at least two columns; otherwise it
    * appends nothing and cleans nothing. */
  lemma ProcessTableOk(clean: string -> Subbed, content: string)
    ensures var lines := Lines(content); var (ok, o) := ProcessTable(clean, content);
      (ok <==> exists i :: 0 <= i < |lines| && RowLine(lines[i])) &&
      (ok ==> |o.blocks| == 1 && o.blocks[0].Table? && |o.blocks[0].rows| == |Select(lines, RowLine)| && o.blocks[0].cols >= 2) &&
      (!ok ==> o == Out([], []))
  {
    var lines := Lines(content);
    var r := TableRows(clean, lines);
    if r.rows != [] {
      assert |r.rows[0]| >= 2;
    }
    SelectNone(lines, RowLine);
  }

  // ---------------------------------------------------------------------------
  // process_simple_table_data

  /** A stripped line that looks like table data: it holds a `&`, or it has
    * three words and does not start with a backslash. */
  predicate DataLine(l: string)
  {
    '&' in l || (|Words(l)| >= 3 && !StartsWith(l, "\\"))
  }

  /** The cells of a data line before cleaning: the pieces between `&`s,
    * stripped and without `\\`, or else the words. */
  function SimpleCells(l: string): (cs: seq<string>)
    ensures DataLine(l) ==> cs != []
  {
    if '&' in l then
      var parts := Split(l, '&');
      seq(|parts|, i requires 0 <= i < |parts| => ReplaceAll(PyStrip(parts[i]), "\\\\", ""))
    else Words(l)
  }

  /** `process_simple_table_data`: a table of one row per candidate line when
    * there are at least two candidates, nothing otherwise. */
  function ProcessSimpleTable(clean: string -> Subbed, content: string): (o: Out)
    ensures var src := Select(Lines(content), DataLine);
      (|src| >= 2 ==> |o.blocks| == 1 && o.blocks[0].Table? && |o.blocks[0].rows| == |src|) &&
      (|src| < 2 ==> o == Out([], []))
  {
    var src := Select(Lines(content), DataLine);
    if |src| >= 2 then
      // every data line has cells, so every candidate gives a row
      var r := RowsFrom(clean, src, SimpleCells);
      if r.rows != [] then Out([Grid(r.rows)], r.keys) else Out([], r.keys)
    else Nothing
  }

  // ---------------------------------------------------------------------------
  // Informal tables

  /** Openings that keep a line from counting as informal table data; the
    * one-letter `o` and `a` rule out every line starting with those letters. */
  const Openers: seq<string> := ["este", "esta", "o", "a", "um", "uma", "como", "para"]

  const TableWords: seq<string> := ["capítulo", "conteúdo", "questões", "principal"]

  const DataWords: seq<string> := ["capítulo", "conteúdo", "questões", "principal", "metodologia", "resultados"]

  predicate StartsWithAny(s: string, ps: seq<string>)
  {
    exists i :: 0 <= i < |ps| && StartsWith(s, ps[i])
  }

  predicate ContainsAny(s: string, ps: seq<string>)
  {
    exists i :: 0 <= i < |ps| && Contains(s, ps[i])
  }

  /** A stripped line that `is_informal_table` counts. */
  predicate InformalLine(l: string)
  {
    |Words(l)| >= 3 && !StartsWith(l, "\\") && !StartsWithAny(Lower(l), Openers) && ContainsAny(Lower(l), TableWords)
  }

  function CountInformal(lines: seq<string>): (n: nat)
    ensures n <= |lines|
    decreases |lines|
  {
    if lines == [] then 0
    else CountInformal(lines[..|lines| - 1]) + (if InformalLine(lines[|lines| - 1]) then 1 else 0)
  }

  /** `is_informal_table`: at least two counted lines. */
  predicate IsInformalTable(text: string)
  {
    CountInformal(Lines(text)) >= 2
  }

  /** A line that starts with the letter a or o, in either case, never counts. */
  lemma VowelOpenerExcluded(l: string)
    requires l != [] && (l[0] == 'a' || l[0] == 'A' || l[0] == 'o' || l[0] == 'O')
    ensures !InformalLine(l)
  {
    var low := Lower(l);
    assert low[0] == 'a' || low[0] == 'o';
    if low[0] == 'a' {
      assert StartsWith(low, Openers[3]);
    } else {
      assert StartsWith(low, Openers[2]);
    }
  }

  /** A stripped line `process_informal_table` takes as data. */
  predicate InformalData(l: string)
  {
    l != [] && |Words(l)| >= 2 && !StartsWith(l, "\\") && ContainsAny(Lower(l), DataWords)
  }

  /** How a cleaned data line is cut into cells: at colons, else at en or em
    * dashes, else into its words when there are at most three, else into its
    * first two words and the rest. */
  function InformalCells(t: string): (cs: seq<string>)
    ensures ':' in t ==> |cs| == Count(t, ':') + 1
    ensures ':' !in t && '–' !in t && '—' !in t && |Words(t)| > 3 ==> |cs| == 2
    ensures ':' !in t && '–' !in t && '—' !in t && |Words(t)| <= 3 ==> cs == Words(t)
  {
    if ':' in t then
      var parts := Split(t, ':');
      SplitJoin(t, ':');
      seq(|parts|, i requires 0 <= i < |parts| => PyStrip(parts[i]))
    else if '–' in t || '—' in t then
      var parts := Split(ReplaceAll(t, "—", "–"), '–');
      seq(|parts|, i requires 0 <= i < |parts| => PyStrip(parts[i]))
    else
      var w := Words(t);
      if |w| <= 3 then w else [Join(w[..2], " "), Join(w[2..], " ")]
  }

  /** The row loop of `process_informal_table`: every data line is cleaned,
    * and kept as a row when it has at least two cells. */
  function InformalRows(clean: string -> Subbed, lines: seq<string>): (r: Rows)
    ensures forall j :: 0 <= j < |r.rows| ==> |r.rows[j]| >= 2
    decreases |lines|
  {
    if lines == [] then Rows([], [])
    else
      var r := InformalRows(clean, lines[..|lines| - 1]);
      var l := lines[|lines| - 1];
      if InformalData(l) then
        var c := clean(l);
        var cells := if c.out != [] then InformalCells(c.out) else [];
        Rows(r.rows + (if |cells| >= 2 then [cells] else []), r.keys + c.keys)
      else r
  }

  /** The header row put in front of a table whose first cell does not name a
    * chapter: two named columns and numbered ones up to `cols`. */
  function Header(cols: nat): (h: seq<string>)
    ensures |h| == if cols > 2 then cols else 2
    ensures h[0] == "Capítulo" && h[1] == "Conteúdo"
    ensures forall j :: 2 <= j < |h| ==> h[j] == "Coluna " + NatToString(j + 1)
  {
    ["Capítulo", "Conteúdo"] + seq(if cols > 2 then cols - 2 else 0, i requires 0 <= i => "Coluna " + NatToString(i + 3))
  }

  /** The rows of the informal table: the header first when the first row's
    * first cell does not mention a chapter. */
  function WithHeader(rows: seq<seq<string>>, cols: nat): seq<seq<string>>
    requires rows != [] && rows[0] != []
  {
    if Contains(Lower(rows[0][0]), "capítulo") then rows else [Header(cols)] + rows
  }

  /** `process_informal_table`: a table when at least two rows result, else
    * the whole text as one Normal paragraph. */
  function ProcessInformalTable(clean: string -> Subbed, text: string): Out
  {
    var r := InformalRows(clean, Lines(text));
    if |r.rows| >= 2 then
      var cols := MaxLen(r.rows);
      Out([Table(WithHeader(r.rows, cols), cols)], r.keys)
    else Then(Out([], r.keys), FormattedParagraph(clean, text, "Normal"))
  }

  /** The informal table is as wide as its widest row, header included, and
    * has one row per kept line plus the header when one was added. */
  lemma InformalTableShape(clean: string -> Subbed, text: string)
    requires |InformalRows(clean, Lines(text)).rows| >= 2
    ensures var r := InformalRows(clean, Lines(text));
      var o := ProcessInformalTable(clean, text);
      |o.blocks| == 1 && o.blocks[0] == Grid(o.blocks[0].rows) &&
      (Contains(Lower(r.rows[0][0]), "capítulo") ==> o.blocks[0].rows == r.rows) &&
      (!Contains(Lower(r.rows[0][0]), "capítulo") ==> o.blocks[0].rows == [Header(o.blocks[0].cols)] + r.rows)
  {
    var r := InformalRows(clean, Lines(text));
    var cols := MaxLen(r.rows);
    assert cols >= 2 by { assert |r.rows[0]| >= 2; }
    var rows := WithHeader(r.rows, cols);
    if !Contains(Lower(r.rows[0][0]), "capítulo") {
      assert rows[1..] == r.rows;
      MaxLenCons(Header(cols), r.rows);
    }
  }

  lemma MaxLenCons(h: seq<string>, rows: seq<seq<string>>)
    requires rows != [] && |h| <= MaxLen(rows)
    ensures MaxLen([h] + rows) == MaxLen(rows)
  {
    var m := MaxLen([h] + rows);
    assert forall i :: 0 <= i < |rows| ==> ([h] + rows)[i + 1] == rows[i];
    var j :| 0 <= j < |[h] + rows| && |([h] + rows)[j]| == m;
    if j > 0 { assert ([h] + rows)[j] == rows[j - 1]; }
  }
}
