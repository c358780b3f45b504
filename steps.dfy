/** The loops of `core/scripts/Latex2word.py`, written as loops: each method
  * computes, from the converter's bibliography and LaTeX-to-text step, what
  * one operation of the converter appends to the document and which citation
  * keys its cleaning meets, and is proved equal to the pure definition of
  * that operation. The converter object applies these results to its state. */
module Steps {
  import opened Strings
  import opened Scan
  import BibStore
  import opened Citations
  import opened LatexClean
  import opened Tokenizer
  import opened Docx
  import opened Inline
  import opened Tables
  import opened Segmenter

  lemma Shift<T>(done: seq<T>, e: T, x: seq<T>)
    ensures done + ([e] + x) == (done + [e]) + x
  {
  }

  lemma ThenAssoc(a: Out, b: Out, c: Out)
    ensures Then(Then(a, b), c) == Then(a, Then(b, c))
  {
    ConcatAssoc(a.blocks, b.blocks, c.blocks);
    ConcatAssoc(a.keys, b.keys, c.keys);
  }

  lemma NothingThen(a: Out)
    ensures Then(Nothing, a) == a && Then(a, Nothing) == a
  {
    assert [] + a.blocks == a.blocks && a.blocks + [] == a.blocks;
    assert [] + a.keys == a.keys && a.keys + [] == a.keys;
  }

  // ---------------------------------------------------------------------------
  // parse_bibliography_content

  /** One step of the entry scan: a match at the front is the next entry. */
  lemma EntriesHit(rest: string, done: seq<BibStore.RawEntry>, e: BibStore.RawEntry, n: nat, all: seq<BibStore.RawEntry>)
    requires rest != [] && BibStore.EntryAt(rest) == Some((e, n))
    requires all == done + BibStore.Entries(rest)
    ensures n <= |rest|
    ensures all == (done + [e]) + BibStore.Entries(rest[n..])
  {
    Shift(done, e, BibStore.Entries(rest[n..]));
  }

  lemma LoadStep(bib: map<string, string>, done: seq<BibStore.RawEntry>, e: BibStore.RawEntry, fmt: BibStore.RawEntry -> string)
    ensures BibStore.Load(bib, done + [e], fmt) == BibStore.Load(bib, done, fmt)[e.key := fmt(e)]
  {
    assert (done + [e])[..|done|] == done;
  }

  /** The loaded entries are the first ones of the text: all of them, or the
    * first 500 when the text has more. */
  lemma LoadedAll(content: string, done: seq<BibStore.RawEntry>, rest: string)
    requires BibStore.Entries(content) == done + BibStore.Entries(rest) && |done| <= BibStore.EntryLimit
    requires rest == [] || (|done| == BibStore.EntryLimit && BibStore.Entries(rest) != [])
    ensures BibStore.Processed(content) == done
  {
    if rest == [] {
      assert done + [] == done;
    } else {
      assert BibStore.Entries(content)[..|done|] == done;
    }
  }

  /** The loop of `parse_bibliography_content`: the entries of the text in
    * order, each formatted by `fmt` under its key, a later entry
    * overwriting an earlier one, stopping at the 501st. */
  method LoadEntries(bib0: map<string, string>, content: string, fmt: BibStore.RawEntry -> string) returns (bib: map<string, string>)
    ensures bib == BibStore.Load(bib0, BibStore.Processed(content), fmt)
  {
    var rest := content;
    var done: seq<BibStore.RawEntry> := [];
    bib := bib0;
    while rest != []
      invariant BibStore.Entries(content) == done + BibStore.Entries(rest)
      invariant |done| <= BibStore.EntryLimit
      invariant bib == BibStore.Load(bib0, done, fmt)
      decreases |rest|
    {
      var hit := BibStore.EntryAt(rest);
      if hit.Some? {
        var e := hit.value.0;
        var n := hit.value.1;
        if |done| + 1 > BibStore.EntryLimit {
          break;
        }
        EntriesHit(rest, done, e, n, BibStore.Entries(content));
        LoadStep(bib0, done, e, fmt);
        bib := bib[e.key := fmt(e)];
        done := done + [e];
        rest := rest[n..];
      } else {
        rest := rest[1..];
      }
    }
    LoadedAll(content, done, rest);
  }

  // ---------------------------------------------------------------------------
  // clean_latex_text

  /** The citation passes of `process_citations` for `cmds`, in order. */
  method CitationPasses(bib: map<string, string>, text: string, cmds: seq<string>) returns (r: Subbed)
    ensures r == CitePasses(bib, text, cmds)
  {
    var out := text;
    var keys: seq<string> := [];
    var todo := cmds;
    while todo != []
      invariant CitePasses(bib, text, cmds) == Subbed(CitePasses(bib, out, todo).out, keys + CitePasses(bib, out, todo).keys)
      decreases |todo|
    {
      var pass := CitePass(bib, out, todo[0]);
      var later := CitePasses(bib, pass.out, todo[1..]);
      ConcatAssoc(keys, pass.keys, later.keys);
      keys := keys + pass.keys;
      out := pass.out;
      todo := todo[1..];
    }
    r := Subbed(out, keys + []);
    assert keys + [] == keys;
  }

  /** The rewrites of `clean_latex_text`, each applied to the whole text in
    * order. */
  method RewriteAll(ws: seq<Rewrite>, text: string) returns (r: string)
    ensures r == ApplyRewrites(ws, text)
  {
    r := text;
    var todo := ws;
    while todo != []
      invariant ApplyRewrites(ws, text) == ApplyRewrites(todo, r)
      decreases |todo|
    {
      var w := todo[0];
      r := Sub(r, t => RewriteAt(w, t)).out;
      todo := todo[1..];
    }
  }

  /** `clean_latex_text`: the cleaned text and the citation keys met. */
  method CleanText(bib: map<string, string>, toText: string -> string, text: string) returns (r: Subbed)
    ensures r == CleanLatex(bib, toText, text)
  {
    if text == [] {
      return Subbed("", []);
    }
    var t := StripComments(text);
    var cited := CitationPasses(bib, t, CiteCommands);
    var w := RewriteAll(Rewrites, cited.out);
    r := Subbed(Tidy(toText(w)), cited.keys);
  }

  // ---------------------------------------------------------------------------
  // process_inline_formatting and add_formatted_paragraph

  lemma RunsStep(parts: seq<Part>, i: nat)
    requires i < |parts|
    ensures RunsOf(parts[..i + 1]) == RunsOf(parts[..i]) + RunOf(parts[i])
  {
    assert parts[..i + 1][..i] == parts[..i];
  }

  /** The run of one part: none when the part is blank or nothing of it is
    * left once it is cleaned for Word. */
  method PartRun(p: Part) returns (add: seq<Run>)
    ensures add == RunOf(p)
  {
    add := [];
    if PyStrip(p.text) != [] {
      var c := CleanForWord(p.text);
      if c != [] {
        add := [Run(c, p.bold, p.italic, p.missing)];
      }
    }
  }

  /** The run loop of `process_inline_formatting`: a run for every part that
    * is not blank and keeps some text once cleaned for Word. */
  method RunsLoop(parts: seq<Part>) returns (runs: seq<Run>)
    ensures runs == RunsOf(parts)
  {
    runs := [];
    var i := 0;
    while i < |parts|
      invariant 0 <= i <= |parts|
      invariant runs == RunsOf(parts[..i])
    {
      var add := PartRun(parts[i]);
      RunsStep(parts, i);
      runs := runs + add;
      i := i + 1;
    }
    assert parts[..i] == parts;
  }

  /** `process_inline_formatting`: clean, tokenize, fall back to the whole
    * text as one plain part, and make the runs. */
  method InlineRuns(bib: map<string, string>, toText: string -> string, text: string) returns (r: Inlined)
    ensures r == InlineFormatting(Cleaner(bib, toText), text)
  {
    var c := CleanText(bib, toText, text);
    var parts := Tokenize(c.out);
    if parts == [] && c.out != [] {
      parts := [Plain(c.out)];
    }
    var runs := RunsLoop(parts);
    r := Inlined(runs, c.keys);
  }

  /** `add_formatted_paragraph`. */
  method FormattedOut(bib: map<string, string>, toText: string -> string, text: string, style: string) returns (o: Out)
    ensures o == FormattedParagraph(Cleaner(bib, toText), text, style)
  {
    if PyStrip(text) == [] {
      return Nothing;
    }
    var f := InlineRuns(bib, toText, text);
    o := Out([Paragraph(style, f.runs)], f.keys);
  }

  // ---------------------------------------------------------------------------
  // Tables

  lemma CleanPrefix(clean: string -> Subbed, cells: seq<string>, i: nat)
    requires i < |cells|
    ensures CleanAll(clean, cells[..i + 1])
         == Cleaned(CleanAll(clean, cells[..i]).cells + [clean(cells[i]).out], CleanAll(clean, cells[..i]).keys + clean(cells[i]).keys)
  {
    assert cells[..i + 1][..i] == cells[..i];
  }

  /** `clean_latex_text` on each cell in order. */
  method CleanCells(bib: map<string, string>, toText: string -> string, cells: seq<string>) returns (r: Cleaned)
    ensures r == CleanAll(Cleaner(bib, toText), cells)
  {
    ghost var clean := Cleaner(bib, toText);
    r := Cleaned([], []);
    var i := 0;
    while i < |cells|
      invariant 0 <= i <= |cells|
      invariant r == CleanAll(clean, cells[..i])
    {
      var c := CleanText(bib, toText, cells[i]);
      CleanPrefix(clean, cells, i);
      r := Cleaned(r.cells + [c.out], r.keys + c.keys);
      i := i + 1;
    }
    assert i == |cells|;
    CleanWhole(clean, cells);
  }

  /** The cleaned cells, once the loop has passed them all. */
  lemma CleanWhole(clean: string -> Subbed, cells: seq<string>)
    ensures CleanAll(clean, cells[..|cells|]) == CleanAll(clean, cells)
  {
    assert cells[..|cells|] == cells;
  }

  lemma SelectStep(lines: seq<string>, i: nat, keep: string -> bool)
    requires i < |lines|
    ensures Select(lines[..i + 1], keep) == Select(lines[..i], keep) + (if keep(lines[i]) then [lines[i]] else [])
  {
    assert lines[..i + 1][..i] == lines[..i];
  }

  lemma RowsStep(clean: string -> Subbed, src: seq<string>, l: string, cells: string -> seq<string>)
    ensures RowsFrom(clean, src + [l], cells)
         == Rows(RowsFrom(clean, src, cells).rows + [CleanAll(clean, cells(l)).cells],
                 RowsFrom(clean, src, cells).keys + CleanAll(clean, cells(l)).keys)
  {
    assert (src + [l])[..|src|] == src;
  }

  /** The row a line gives, when `keep` selects it. */
  function RowOfLine(clean: string -> Subbed, l: string, keep: string -> bool, cells: string -> seq<string>): Rows
  {
    if keep(l) then Rows([CleanAll(clean, cells(l)).cells], CleanAll(clean, cells(l)).keys) else Rows([], [])
  }

  lemma SelectRowsStep(clean: string -> Subbed, lines: seq<string>, i: nat, keep: string -> bool, cells: string -> seq<string>)
    requires i < |lines|
    ensures RowsFrom(clean, Select(lines[..i + 1], keep), cells)
         == Rows(RowsFrom(clean, Select(lines[..i], keep), cells).rows + RowOfLine(clean, lines[i], keep, cells).rows,
                 RowsFrom(clean, Select(lines[..i], keep), cells).keys + RowOfLine(clean, lines[i], keep, cells).keys)
  {
    SelectStep(lines, i, keep);
    var src := Select(lines[..i], keep);
    if keep(lines[i]) {
      RowsStep(clean, src, lines[i], cells);
    } else {
      assert src + [] == src;
      var r := RowsFrom(clean, src, cells);
      assert r.rows + [] == r.rows && r.keys + [] == r.keys;
    }
  }

  /** The rows of every selected line, once the loop has passed them all. */
  lemma SelectWhole(lines: seq<string>, keep: string -> bool)
    ensures Select(lines[..|lines|], keep) == Select(lines, keep)
  {
    assert lines[..|lines|] == lines;
  }

  lemma RowsLoopStep(clean: string -> Subbed, lines: seq<string>, i: nat, r: Rows, row: Rows)
    requires i < |lines|
    requires r == RowsFrom(clean, Select(lines[..i], RowLine), RawCells)
    requires row == RowOfLine(clean, lines[i], RowLine, RawCells)
    ensures Rows(r.rows + row.rows, r.keys + row.keys) == RowsFrom(clean, Select(lines[..i + 1], RowLine), RawCells)
  {
    SelectRowsStep(clean, lines, i, RowLine, RawCells);
  }

  /** One line of `process_table`: blank, comment and marker lines give
    * nothing, and any other line holding a `&` gives a row of cleaned cells. */
  method TableLine(bib: map<string, string>, toText: string -> string, line: string) returns (r: Rows)
    ensures r == RowOfLine(Cleaner(bib, toText), line, RowLine, RawCells)
  {
    r := Rows([], []);
    if line == [] || line[0] == '%' {
    } else if HasMarker(line) {
    } else if '&' in line {
      var cells := CleanCells(bib, toText, RawCells(line));
      r := Rows([cells.cells], cells.keys);
    }
  }

  /** The line loop of `process_table`. */
  method TableRowsLoop(bib: map<string, string>, toText: string -> string, content: string) returns (r: Rows)
    ensures r == RowsFrom(Cleaner(bib, toText), Select(Lines(content), RowLine), RawCells)
  {
    var lines := Lines(content);
    ghost var clean := Cleaner(bib, toText);
    r := Rows([], []);
    var i := 0;
    while i < |lines|
      invariant 0 <= i <= |lines|
      invariant r == RowsFrom(clean, Select(lines[..i], RowLine), RawCells)
    {
      var row := TableLine(bib, toText, lines[i]);
      RowsLoopStep(clean, lines, i, r, row);
      r := Rows(r.rows + row.rows, r.keys + row.keys);
      i := i + 1;
    }
    assert i == |lines|;
    SelectWhole(lines, RowLine);
  }

  /** `process_table`: whether a table was made, and what it appends. */
  method TableOut(bib: map<string, string>, toText: string -> string, content: string) returns (ok: bool, o: Out)
    ensures (ok, o) == ProcessTable(Cleaner(bib, toText), content)
  {
    var r := TableRowsLoop(bib, toText, content);
    if r.rows != [] {
      ok, o := true, Out([Grid(r.rows)], r.keys);
    } else {
      ok, o := false, Out([], r.keys);
    }
  }

  /** The stripped lines that pass `keep`, in order. */
  method SelectLines(lines: seq<string>, keep: string -> bool) returns (src: seq<string>)
    ensures src == Select(lines, keep)
  {
    src := [];
    var i := 0;
    while i < |lines|
      invariant 0 <= i <= |lines|
      invariant src == Select(lines[..i], keep)
    {
      var line := lines[i];
      SelectStep(lines, i, keep);
      if keep(line) {
        src := src + [line];
      }
      i := i + 1;
    }
    assert lines[..i] == lines;
  }

  lemma RowsPrefix(clean: string -> Subbed, src: seq<string>, i: nat, cells: string -> seq<string>)
    requires i < |src|
    ensures RowsFrom(clean, src[..i + 1], cells)
         == Rows(RowsFrom(clean, src[..i], cells).rows + [CleanAll(clean, cells(src[i])).cells],
                 RowsFrom(clean, src[..i], cells).keys + CleanAll(clean, cells(src[i])).keys)
  {
    assert src[..i + 1] == src[..i] + [src[i]];
    RowsStep(clean, src[..i], src[i], cells);
  }

  /** One row of cleaned cells per line, in order. */
  method RowsLoop(bib: map<string, string>, toText: string -> string, src: seq<string>, cells: string -> seq<string>) returns (r: Rows)
    ensures r == RowsFrom(Cleaner(bib, toText), src, cells)
  {
    r := Rows([], []);
    var i := 0;
    while i < |src|
      invariant 0 <= i <= |src|
      invariant r == RowsFrom(Cleaner(bib, toText), src[..i], cells)
    {
      var c := CleanCells(bib, toText, cells(src[i]));
      RowsPrefix(Cleaner(bib, toText), src, i, cells);
      r := Rows(r.rows + [c.cells], r.keys + c.keys);
      i := i + 1;
    }
    assert src[..i] == src;
  }

  /** `process_simple_table_data`. */
  method SimpleTableOut(bib: map<string, string>, toText: string -> string, content: string) returns (o: Out)
    ensures o == ProcessSimpleTable(Cleaner(bib, toText), content)
  {
    var src := SelectLines(Lines(content), DataLine);
    if |src| >= 2 {
      var r := RowsLoop(bib, toText, src, SimpleCells);
      if r.rows != [] {
        o := Out([Grid(r.rows)], r.keys);
      } else {
        o := Out([], r.keys);
      }
    } else {
      o := Nothing;
    }
  }

  /** What one line adds to the rows of `process_informal_table`. */
  function InformalRow(clean: string -> Subbed, l: string): Rows
  {
    if InformalData(l) then InformalRowOf(clean(l)) else Rows([], [])
  }

  /** The row of a cleaned data line, kept when it has at least two cells. */
  function InformalRowOf(c: Subbed): Rows
  {
    var cells := if c.out != [] then InformalCells(c.out) else [];
    Rows(if |cells| >= 2 then [cells] else [], c.keys)
  }

  lemma InformalStep(clean: string -> Subbed, lines: seq<string>, i: nat)
    requires i < |lines|
    ensures InformalRows(clean, lines[..i + 1])
         == Rows(InformalRows(clean, lines[..i]).rows + InformalRow(clean, lines[i]).rows,
                 InformalRows(clean, lines[..i]).keys + InformalRow(clean, lines[i]).keys)
  {
    assert lines[..i + 1][..i] == lines[..i];
    var r := InformalRows(clean, lines[..i]);
    assert r.rows + [] == r.rows && r.keys + [] == r.keys;
  }

  /** One line of `process_informal_table`: a data line is cleaned and cut
    * into cells, and kept when it has at least two. */
  method InformalLine(bib: map<string, string>, toText: string -> string, line: string) returns (r: Rows)
    ensures r == InformalRow(Cleaner(bib, toText), line)
  {
    r := Rows([], []);
    if InformalData(line) {
      var c := CleanText(bib, toText, line);
      r := InformalCut(c);
    }
  }

  /** A cleaned data line cut into cells; a row only with two cells or more. */
  method InformalCut(c: Subbed) returns (r: Rows)
    ensures r == InformalRowOf(c)
  {
    var cells: seq<string> := [];
    if c.out != [] {
      cells := InformalCells(c.out);
    }
    if |cells| >= 2 {
      r := Rows([cells], c.keys);
    } else {
      r := Rows([], c.keys);
    }
  }

  /** The line loop of `process_informal_table`. */
  method InformalRowsLoop(bib: map<string, string>, toText: string -> string, text: string) returns (r: Rows)
    ensures r == InformalRows(Cleaner(bib, toText), Lines(text))
  {
    var lines := Lines(text);
    r := Rows([], []);
    var i := 0;
    while i < |lines|
      invariant 0 <= i <= |lines|
      invariant r == InformalRows(Cleaner(bib, toText), lines[..i])
    {
      var row := InformalLine(bib, toText, lines[i]);
      InformalStep(Cleaner(bib, toText), lines, i);
      r := Rows(r.rows + row.rows, r.keys + row.keys);
      i := i + 1;
    }
    assert lines[..i] == lines;
  }

  /** `process_informal_table`. */
  method InformalTableOut(bib: map<string, string>, toText: string -> string, text: string) returns (o: Out)
    ensures o == ProcessInformalTable(Cleaner(bib, toText), text)
  {
    var r := InformalRowsLoop(bib, toText, text);
    if |r.rows| >= 2 {
      var cols := MaxLen(r.rows);
      o := Out([Table(WithHeader(r.rows, cols), cols)], r.keys);
    } else {
      var p := FormattedOut(bib, toText, text, "Normal");
      o := Then(Out([], r.keys), p);
    }
  }

  // ---------------------------------------------------------------------------
  // process_paragraph_with_table

  /** A table environment: `process_table`, then `process_simple_table_data`
    * when that made no table. */
  method TableOrSimpleOut(bib: map<string, string>, toText: string -> string, content: string) returns (o: Out)
    ensures o == TableOrSimple(Cleaner(bib, toText), content)
  {
    var ok, t := TableOut(bib, toText, content);
    if ok {
      o := t;
    } else {
      var s := SimpleTableOut(bib, toText, content);
      o := Then(t, s);
    }
  }

  /** The loop over the matches of one pattern, found in `base` and applied
    * to the text as cut so far. */
  method MatchLoop(bib: map<string, string>, toText: string -> string, base: string, ms: seq<(nat, nat)>, text: string) returns (res: (string, Out))
    requires InBounds(ms, |base|)
    ensures res == RunMatches(Cleaner(bib, toText), base, ms, text)
  {
    ghost var clean := Cleaner(bib, toText);
    var r := text;
    var acc := Nothing;
    var todo := ms;
    NothingThen(RunMatches(clean, base, ms, text).1);
    while todo != []
      invariant InBounds(todo, |base|)
      invariant RunMatches(clean, base, ms, text) == (RunMatches(clean, base, todo, r).0, Then(acc, RunMatches(clean, base, todo, r).1))
      decreases |todo|
    {
      var st := todo[0].0;
      var en := todo[0].1;
      var before := FormattedOut(bib, toText, PyStrip(Take(r, st)), "Normal");
      var table := TableOrSimpleOut(bib, toText, base[st..en]);
      InBoundsTail(todo, |base|);
      ghost var later := RunMatches(clean, base, todo[1..], PyStrip(Drop(r, en)));
      ThenAssoc(acc, Then(before, table), later.1);
      acc := Then(acc, Then(before, table));
      r := PyStrip(Drop(r, en));
      todo := todo[1..];
    }
    NothingThen(acc);
    res := (r, acc);
  }

  /** `process_paragraph_with_table`: the patterns in turn, then what is
    * left as a Normal paragraph. */
  method ParagraphWithTableOut(bib: map<string, string>, toText: string -> string, text: string) returns (o: Out)
    ensures o == ParagraphWithTable(Cleaner(bib, toText), text)
  {
    ghost var clean := Cleaner(bib, toText);
    var r := text;
    var acc := Nothing;
    var todo := TableEnvNames;
    NothingThen(EnvLoop(clean, TableEnvNames, text).1);
    while todo != []
      invariant EnvLoop(clean, TableEnvNames, text) == (EnvLoop(clean, todo, r).0, Then(acc, EnvLoop(clean, todo, r).1))
      decreases |todo|
    {
      var ms := MatchesFrom(todo[0], r, 0);
      var first := MatchLoop(bib, toText, r, ms, r);
      ghost var later := EnvLoop(clean, todo[1..], first.0);
      ThenAssoc(acc, first.1, later.1);
      acc := Then(acc, first.1);
      r := first.0;
      todo := todo[1..];
    }
    NothingThen(acc);
    var last := FormattedOut(bib, toText, r, "Normal");
    o := Then(acc, last);
  }

  // ---------------------------------------------------------------------------
  // process_latex_structure

  /** The body of a block without a heading. */
  method BodyOutM(bib: map<string, string>, toText: string -> string, para: string) returns (o: Out)
    ensures o == BodyOut(Cleaner(bib, toText), para)
  {
    if ContainsTable(para) {
      o := ParagraphWithTableOut(bib, toText, para);
    } else if HasPhrase(para, DefinitionPhrases) {
      o := FormattedOut(bib, toText, para, "Definition");
    } else if HasPhrase(para, ListPhrases) {
      o := FormattedOut(bib, toText, para, "Normal");
    } else if IsInformalTable(para) {
      o := InformalTableOut(bib, toText, para);
    } else {
      o := FormattedOut(bib, toText, para, "Normal");
    }
  }

  /** A chapter block: the counters stepped, the numbered title, the rest. */
  method ChapterBlockStep(bib: map<string, string>, toText: string -> string, c: Counters, t: string, rest: string) returns (r: (Counters, Out))
    ensures r == ChapterOut(Cleaner(bib, toText), c, t, rest)
  {
    var n := ChapterStep(c);
    var h := FormattedOut(bib, toText, ChapterTitle(n.chapter, t), "Chapter");
    var p := FormattedOut(bib, toText, rest, "Normal");
    r := (n, Then(h, p));
  }

  /** A section block of depth `d`. */
  method SectionBlockStep(bib: map<string, string>, toText: string -> string, c: Counters, d: nat, t: string, rest: string) returns (r: (Counters, Out))
    ensures r == SectionOut(Cleaner(bib, toText), c, d, t, rest)
  {
    var (n, num) := Numbered(c, d);
    var h := FormattedOut(bib, toText, SectionTitle(num, t), HeadingStyle(HeadingLevel(SectionType(d))));
    var p := FormattedOut(bib, toText, rest, "Normal");
    r := (n, Then(h, p));
  }

  /** A `\paragraph` block. */
  method ParagraphBlockStep(bib: map<string, string>, toText: string -> string, t: string, rest: string) returns (o: Out)
    ensures o == ParagraphOut(Cleaner(bib, toText), t, rest)
  {
    var h := FormattedOut(bib, toText, t, "Heading 4");
    var p := FormattedOut(bib, toText, rest, "Normal");
    o := Then(h, p);
  }

  /** A block without a heading. */
  method PlainBlockStep(bib: map<string, string>, toText: string -> string, para: string) returns (o: Out)
    ensures o == PlainOut(Cleaner(bib, toText), para)
  {
    if Skipped(para) {
      o := Nothing;
    } else {
      o := BodyOutM(bib, toText, para);
    }
  }

  /** One block of `process_latex_structure`. */
  method BlockStep(bib: map<string, string>, toText: string -> string, c: Counters, block: string) returns (r: (Counters, Out))
    ensures r == BlockOut(Cleaner(bib, toText), c, block)
  {
    var para := PyStrip(block);
    if para == [] || para[0] == '%' {
      return (c, Nothing);
    }
    ghost var clean := Cleaner(bib, toText);
    match HeadOf(para)
    case ChapterHead(t) =>
      assert BlockOut(clean, c, block) == ChapterOut(clean, c, t, Remaining(para, ChapterAt));
      r := ChapterBlockStep(bib, toText, c, t, Remaining(para, ChapterAt));
    case SectionHead(d, t) =>
      assert BlockOut(clean, c, block) == SectionOut(clean, c, d, t, Remaining(para, SectionAt));
      r := SectionBlockStep(bib, toText, c, d, t, Remaining(para, SectionAt));
    case ParagraphHead(t) =>
      assert BlockOut(clean, c, block) == (c, ParagraphOut(clean, t, Remaining(para, ParagraphAt)));
      var o := ParagraphBlockStep(bib, toText, t, Remaining(para, ParagraphAt));
      r := (c, o);
    case NoHead =>
      assert BlockOut(clean, c, block) == (c, PlainOut(clean, para));
      var o := PlainBlockStep(bib, toText, para);
      r := (c, o);
  }

  lemma StructureStep(clean: string -> Subbed, c: Counters, blocks: seq<string>, i: nat)
    requires i < |blocks|
    ensures Structure(clean, c, blocks[..i + 1]) ==
      var first := Structure(clean, c, blocks[..i]);
      var last := BlockOut(clean, first.0, blocks[i]);
      (last.0, Then(first.1, last.1))
  {
    assert blocks[..i + 1][..i] == blocks[..i];
  }

  /** `process_latex_structure`: the commands removed, the text cut into
    * blocks, and the blocks handled in order, the counters threaded through
    * them. */
  method StructureLoop(bib: map<string, string>, toText: string -> string, c0: Counters, content: string) returns (c: Counters, o: Out)
    ensures (c, o) == ProcessLatexStructure(Cleaner(bib, toText), c0, content)
  {
    var blocks := Blocks(content);
    c, o := c0, Nothing;
    var i := 0;
    while i < |blocks|
      invariant 0 <= i <= |blocks|
      invariant (c, o) == Structure(Cleaner(bib, toText), c0, blocks[..i])
    {
      StructureStep(Cleaner(bib, toText), c0, blocks, i);
      var b := BlockStep(bib, toText, c, blocks[i]);
      c, o := b.0, Then(o, b.1);
      i := i + 1;
    }
    assert blocks[..i] == blocks;
  }
}
