/** The converter object of `core/scripts/Latex2word.py`
  * (`LatexToWordConverter`): the bibliography it loaded, the citation keys
  * it met and those it could not resolve, the section counters, and the
  * Word document it builds, kept as the log of blocks appended to it. Each
  * method computes what it appends with the loops of `Steps` and applies it
  * to the state. */
module Converter {
  import opened Strings
  import opened Scan
  import BibStore
  import opened Citations
  import opened LatexClean
  import opened Docx
  import opened Inline
  import opened Tables
  import opened Segmenter
  import opened Inputs
  import opened References
  import Steps

  /** The keys of a sequence, as a set. */
  function SetOf(ks: seq<string>): (s: set<string>)
    ensures forall k :: k in s <==> k in ks
  {
    set k | k in ks
  }

  /** The keys of `ks` the bibliography lacks. */
  function MissingOf(bib: map<string, string>, ks: seq<string>): (s: set<string>)
    ensures forall k :: k in s <==> k in ks && k !in bib
  {
    set k | k in ks && k !in bib
  }

  lemma SetOfAppend(a: seq<string>, b: seq<string>, bib: map<string, string>)
    ensures SetOf(a + b) == SetOf(a) + SetOf(b)
    ensures MissingOf(bib, a + b) == MissingOf(bib, a) + MissingOf(bib, b)
  {
  }

  /** The converter's state as a value. */
  datatype Store = Store(
    bibliography: map<string, string>,
    citations: set<string>,
    missing: set<string>,
    counters: Counters,
    doc: seq<Block>)

  /** The invariant `replace_citation` keeps: every missing key was cited,
    * and every cited key the bibliography lacks is missing. */
  predicate Consistent(s: Store)
  {
    s.missing <= s.citations && s.citations - s.bibliography.Keys <= s.missing
  }

  /** The state after an operation appended `o.blocks` and its cleaning met
    * the citation keys `o.keys`. */
  function Emit(s: Store, o: Out): (r: Store)
    ensures r.bibliography == s.bibliography && r.counters == s.counters && r.doc == s.doc + o.blocks
    ensures forall k :: k in r.citations <==> k in s.citations || k in o.keys
    ensures forall k :: k in r.missing <==> k in s.missing || (k in o.keys && k !in s.bibliography)
  {
    s.(citations := s.citations + SetOf(o.keys),
       missing := s.missing + MissingOf(s.bibliography, o.keys),
       doc := s.doc + o.blocks)
  }

  /** Two operations one after the other emit what they emit together. */
  lemma EmitThen(s: Store, a: Out, b: Out)
    ensures Emit(Emit(s, a), b) == Emit(s, Then(a, b))
  {
    SetOfAppend(a.keys, b.keys, s.bibliography);
    ConcatAssoc(s.doc, a.blocks, b.blocks);
  }

  /** Emitting keeps the invariant, and keeps the exact form of it: the
    * missing keys are the cited keys the bibliography lacks. */
  lemma EmitConsistent(s: Store, o: Out)
    ensures Consistent(s) ==> Consistent(Emit(s, o))
    ensures s.missing == s.citations - s.bibliography.Keys ==> Emit(s, o).missing == Emit(s, o).citations - s.bibliography.Keys
  {
  }

  // ---------------------------------------------------------------------------
  // The closing sections and the whole run, on values

  /** The fixed texts the converter writes: the title and the headings and
    * explanation of the closing sections. */
  datatype Texts = Texts(title: string, bibHeading: string, missingHeading: string, explanation: string)

  const Fixed: Texts := Texts(Title, BibHeading, MissingHeading, Explanation)

  /** `add_bibliography` from state `s`: nothing without citations; else a
    * page break, the heading, and the cited references in key order, taking
    * the citations as they are once the heading is written. */
  ghost function Bibliography(clean: string -> Subbed, t: Texts, s: Store): Store
  {
    if s.citations == {} then s
    else
      var s1 := Emit(Emit(s, Out([PageBreak], [])), FormattedParagraph(clean, t.bibHeading, "Chapter"));
      Emit(s1, BibliographyBody(clean, s1.bibliography, s1.citations))
  }

  /** `add_missing_references_report` from state `s`. */
  ghost function MissingReport(clean: string -> Subbed, t: Texts, s: Store): Store
  {
    if s.missing == {} then s
    else
      var s1 := Emit(Emit(Emit(s, Out([PageBreak], [])), FormattedParagraph(clean, t.missingHeading, "Chapter")),
                     FormattedParagraph(clean, t.explanation, "Normal"));
      ReportLines(s1)
  }

  /** The chapters of `convert` in order: each non-empty one has its inputs
    * expanded, its blocks processed, and a page break after it; `None` when
    * an expansion runs out of call depth. */
  function Chapters(clean: string -> Subbed, s: Store, chapters: seq<string>, files: map<string, string>, fuel: nat): Option<Store>
    decreases |chapters|
  {
    if chapters == [] then Some(s)
    else if chapters[0] == [] then Chapters(clean, s, chapters[1..], files, fuel)
    else
      match ProcessInput(files, chapters[0], fuel)
      case None => None
      case Some(t) =>
        var (c, o) := ProcessLatexStructure(clean, s.counters, t);
        Chapters(clean, Emit(Emit(s, o).(counters := c), Out([PageBreak], [])), chapters[1..], files, fuel)
  }

  lemma ChaptersSkip(clean: string -> Subbed, s: Store, chapters: seq<string>, files: map<string, string>, fuel: nat)
    requires chapters != [] && chapters[0] == []
    ensures Chapters(clean, s, chapters, files, fuel) == Chapters(clean, s, chapters[1..], files, fuel)
  {
  }

  lemma ChaptersStep(clean: string -> Subbed, s: Store, chapters: seq<string>, files: map<string, string>, fuel: nat, t: string)
    requires chapters != [] && chapters[0] != [] && ProcessInput(files, chapters[0], fuel) == Some(t)
    ensures var (c, o) := ProcessLatexStructure(clean, s.counters, t);
      Chapters(clean, s, chapters, files, fuel)
      == Chapters(clean, Emit(Emit(s, o).(counters := c), Out([PageBreak], [])), chapters[1..], files, fuel)
  {
  }

  /** The document title. */
  const Title: string :=
    "Proposition d'un dispositif numérique scénarisé incluant l'intelligence artificielle pour améliorer l'interaction orale en portugais chez les apprenants francophones"

  /** The bibliography `convert` loads: the text of the .bib file when it
    * exists. */
  function LoadedBibliography(bibText: Option<string>): map<string, string>
  {
    if bibText.Some? then BibStore.LoadText(map[], bibText.value) else map[]
  }

  /** The state once the bibliography is loaded and the title written. */
  ghost function Opening(toText: string -> string, t: Texts, bibText: Option<string>): Store
  {
    var bib := LoadedBibliography(bibText);
    Emit(Store(bib, {}, {}, Start, []), FormattedParagraph(Cleaner(bib, toText), t.title, "Title"))
  }

  /** The closing sections: the bibliography, then the report. */
  ghost function Closing(clean: string -> Subbed, t: Texts, s: Store): Store
  {
    MissingReport(clean, t, Bibliography(clean, t, s))
  }

  /** `convert` on a fresh converter: the state it ends in, `None` when it
    * stops on an input nesting deeper than `fuel`. */
  ghost function Conversion(toText: string -> string, t: Texts, bibText: Option<string>, chapters: seq<string>, files: map<string, string>, fuel: nat): Option<Store>
  {
    var clean := Cleaner(LoadedBibliography(bibText), toText);
    match Chapters(clean, Opening(toText, t, bibText), chapters, files, fuel)
    case None => None
    case Some(s1) => Some(Closing(clean, t, s1))
  }

  /** Along the whole run the missing keys are exactly the cited keys the
    * bibliography lacks. */
  lemma {:induction false} ChaptersExact(clean: string -> Subbed, s: Store, chapters: seq<string>, files: map<string, string>, fuel: nat)
    requires s.missing == s.citations - s.bibliography.Keys
    ensures match Chapters(clean, s, chapters, files, fuel)
      case None => true
      case Some(r) => r.missing == r.citations - r.bibliography.Keys && r.bibliography == s.bibliography
    decreases |chapters|
  {
    if chapters != [] {
      if chapters[0] == [] {
        ChaptersExact(clean, s, chapters[1..], files, fuel);
      } else if ProcessInput(files, chapters[0], fuel).Some? {
        var t := ProcessInput(files, chapters[0], fuel).value;
        var (c, o) := ProcessLatexStructure(clean, s.counters, t);
        var s1 := Emit(Emit(s, o).(counters := c), Out([PageBreak], []));
        EmitConsistent(s, o);
        EmitConsistent(Emit(s, o).(counters := c), Out([PageBreak], []));
        ChaptersExact(clean, s1, chapters[1..], files, fuel);
      }
    }
  }

  /** After `convert`, a key is reported missing exactly when it was cited
    * and the bibliography lacks it. */
  lemma ConversionExact(toText: string -> string, t: Texts, bibText: Option<string>, chapters: seq<string>, files: map<string, string>, fuel: nat)
    ensures match Conversion(toText, t, bibText, chapters, files, fuel)
      case None => true
      case Some(r) => r.missing == r.citations - r.bibliography.Keys && r.bibliography == LoadedBibliography(bibText)
  {
    var bib := LoadedBibliography(bibText);
    var clean := Cleaner(bib, toText);
    EmitConsistent(Store(bib, {}, {}, Start, []), FormattedParagraph(clean, t.title, "Title"));
    var s0 := Opening(toText, t, bibText);
    ChaptersExact(clean, s0, chapters, files, fuel);
    if Chapters(clean, s0, chapters, files, fuel).Some? {
      ClosingExact(clean, t, Chapters(clean, s0, chapters, files, fuel).value);
    }
  }

  /** The closing sections keep the missing keys exact. */
  lemma ClosingExact(clean: string -> Subbed, t: Texts, s: Store)
    requires s.missing == s.citations - s.bibliography.Keys
    ensures var r := Closing(clean, t, s); r.missing == r.citations - r.bibliography.Keys && r.bibliography == s.bibliography
  {
    var pb := Out([PageBreak], []);
    if s.citations != {} {
      var h := FormattedParagraph(clean, t.bibHeading, "Chapter");
      EmitConsistent(s, pb);
      EmitConsistent(Emit(s, pb), h);
      var s2 := Emit(Emit(s, pb), h);
      EmitConsistent(s2, BibliographyBody(clean, s2.bibliography, s2.citations));
    }
    var b := Bibliography(clean, t, s);
    if b.missing != {} {
      var h := FormattedParagraph(clean, t.missingHeading, "Chapter");
      var e := FormattedParagraph(clean, t.explanation, "Normal");
      EmitConsistent(b, pb);
      EmitConsistent(Emit(b, pb), h);
      EmitConsistent(Emit(Emit(b, pb), h), e);
      var s2 := Emit(Emit(Emit(b, pb), h), e);
      EmitConsistent(s2, Out(MissingLines(SortedOf(s2.missing)), []));
    }
  }

  /** Every key missing once the report is written is one of its lines. */
  lemma ReportShowsMissing(clean: string -> Subbed, t: Texts, b: Store, k: string)
    requires k in MissingReport(clean, t, b).missing
    ensures exists j :: 0 <= j < |MissingReport(clean, t, b).doc| && MissingReport(clean, t, b).doc[j] == MissingLine(k)
  {
    assert b.missing != {};
    var s2 := Emit(Emit(Emit(b, Out([PageBreak], [])), FormattedParagraph(clean, t.missingHeading, "Chapter")),
                   FormattedParagraph(clean, t.explanation, "Normal"));
    assert MissingReport(clean, t, b) == ReportLines(s2);
    LinesShowMissing(s2, k);
  }

  /** The report's lines appended to state `s`. */
  ghost function ReportLines(s: Store): Store
  {
    Emit(s, Out(MissingLines(SortedOf(s.missing)), []))
  }

  lemma LinesShowMissing(s: Store, k: string)
    requires k in ReportLines(s).missing
    ensures exists j :: 0 <= j < |ReportLines(s).doc| && ReportLines(s).doc[j] == MissingLine(k)
  {
    var lines := MissingLines(SortedOf(s.missing));
    assert ReportLines(s).doc == s.doc + lines;
    SortedOfShape(s.missing);
    var j :| 0 <= j < |SortedOf(s.missing)| && SortedOf(s.missing)[j] == k;
    AppendIndex(s.doc, lines, j);
  }

  lemma AppendIndex<T>(a: seq<T>, b: seq<T>, j: nat)
    requires j < |b|
    ensures |a| + j < |a + b| && (a + b)[|a| + j] == b[j]
  {
  }

  /** The report at the end lists every key that was cited and not found. */
  lemma ReportedAreMissing(toText: string -> string, t: Texts, bibText: Option<string>, chapters: seq<string>, files: map<string, string>, fuel: nat, k: string)
    requires Conversion(toText, t, bibText, chapters, files, fuel).Some?
    ensures var r := Conversion(toText, t, bibText, chapters, files, fuel).value;
      k in r.citations && k !in r.bibliography ==>
      exists j :: 0 <= j < |r.doc| && r.doc[j] == MissingLine(k)
  {
    ConversionExact(toText, t, bibText, chapters, files, fuel);
    var clean := Cleaner(LoadedBibliography(bibText), toText);
    var s1 := Chapters(clean, Opening(toText, t, bibText), chapters, files, fuel).value;
    var r := Closing(clean, t, s1);
    if k in r.citations && k !in r.bibliography {
      ReportShowsMissing(clean, t, Bibliography(clean, t, s1), k);
    }
  }

  // ---------------------------------------------------------------------------
  // The converter object

  class LatexToWordConverter {
    var bibliography: map<string, string>
    var citations: set<string>
    var missingCitations: set<string>
    var counters: Counters
    var doc: seq<Block>
    /** The LaTeX-to-text library (`LatexNodes2Text().latex_to_text`). */
    const toText: string -> string
    /** The title and the headings it writes. */
    const texts: Texts

    function State(): Store
      reads this
    {
      Store(bibliography, citations, missingCitations, counters, doc)
    }

    ghost predicate Valid()
      reads this
    {
      Consistent(State())
    }

    /** `clean_latex_text` under the current bibliography. */
    function Clean(): string -> Subbed
      reads this
    {
      Cleaner(bibliography, toText)
    }

    constructor(toText: string -> string)
      ensures State() == Store(map[], {}, {}, Start, []) && this.toText == toText && texts == Fixed
      ensures Valid()
    {
      texts := Fixed;
      bibliography := map[];
      citations := {};
      missingCitations := {};
      counters := Start;
      doc := [];
      this.toText := toText;
    }

    /** What `replace_citation` does with each key of a citation: the key is
      * cited, and missing when the bibliography lacks it. */
    method NoteKeys(keys: seq<string>)
      modifies this
      requires Valid()
      ensures State() == Emit(old(State()), Out([], keys)) && Valid()
    {
      var i := 0;
      while i < |keys|
        invariant 0 <= i <= |keys|
        invariant bibliography == old(bibliography) && counters == old(counters) && doc == old(doc)
        invariant citations == old(citations) + SetOf(keys[..i])
        invariant missingCitations == old(missingCitations) + MissingOf(bibliography, keys[..i])
        invariant Valid()
      {
        var key := keys[i];
        assert keys[..i + 1] == keys[..i] + [key];
        SetOfAppend(keys[..i], [key], bibliography);
        citations := citations + {key};
        if key !in bibliography {
          missingCitations := missingCitations + {key};
        }
        i := i + 1;
      }
      assert keys[..i] == keys;
      assert doc == old(doc) + [];
    }

    /** The keys an operation's cleaning met noted, and its blocks appended. */
    method Commit(o: Out)
      modifies this
      requires Valid()
      ensures State() == Emit(old(State()), o) && Valid()
    {
      NoteKeys(o.keys);
      doc := doc + o.blocks;
      EmitConsistent(old(State()), o);
    }

    /** `parse_bibliography_content`. */
    method ParseBibliographyContent(content: string)
      modifies this
      requires Valid()
      ensures State() == old(State()).(bibliography := BibStore.LoadText(old(bibliography), content))
      ensures Valid()
    {
      bibliography := Steps.LoadEntries(bibliography, content, BibStore.FormatEntry);
    }

    /** `process_citations`: the six citation passes in order, the keys of
      * every citation noted. */
    method ProcessCitations(text: string) returns (r: string)
      modifies this
      requires Valid()
      ensures r == Citations.ProcessCitations(old(bibliography), text).out
      ensures State() == Emit(old(State()), Out([], Citations.ProcessCitations(old(bibliography), text).keys)) && Valid()
    {
      var passes := Steps.CitationPasses(bibliography, text, CiteCommands);
      NoteKeys(passes.keys);
      r := passes.out;
    }

    /** `clean_latex_text`. */
    method CleanLatexText(text: string) returns (r: string)
      modifies this
      requires Valid()
      ensures r == CleanLatex(old(bibliography), toText, text).out
      ensures State() == Emit(old(State()), Out([], CleanLatex(old(bibliography), toText, text).keys)) && Valid()
    {
      var c := Steps.CleanText(bibliography, toText, text);
      NoteKeys(c.keys);
      r := c.out;
    }

    /** `process_inline_formatting`: the runs the text is cut into. */
    method ProcessInlineFormatting(text: string) returns (runs: seq<Run>)
      modifies this
      requires Valid()
      ensures runs == InlineFormatting(Cleaner(old(bibliography), toText), text).runs
      ensures State() == Emit(old(State()), Out([], InlineFormatting(Cleaner(old(bibliography), toText), text).keys)) && Valid()
    {
      var f := Steps.InlineRuns(bibliography, toText, text);
      NoteKeys(f.keys);
      runs := f.runs;
    }

    /** `add_formatted_paragraph`. */
    method AddFormattedParagraph(text: string, style: string)
      modifies this
      requires Valid()
      ensures State() == Emit(old(State()), FormattedParagraph(Cleaner(old(bibliography), toText), text, style)) && Valid()
    {
      var o := Steps.FormattedOut(bibliography, toText, text, style);
      Commit(o);
    }

    /** `process_table`: whether a table was made. */
    method ProcessTable(content: string) returns (ok: bool)
      modifies this
      requires Valid()
      ensures ok == Tables.ProcessTable(Cleaner(old(bibliography), toText), content).0
      ensures State() == Emit(old(State()), Tables.ProcessTable(Cleaner(old(bibliography), toText), content).1) && Valid()
    {
      var o;
      ok, o := Steps.TableOut(bibliography, toText, content);
      Commit(o);
    }

    /** `process_simple_table_data`. */
    method ProcessSimpleTableData(content: string)
      modifies this
      requires Valid()
      ensures State() == Emit(old(State()), ProcessSimpleTable(Cleaner(old(bibliography), toText), content)) && Valid()
    {
      var o := Steps.SimpleTableOut(bibliography, toText, content);
      Commit(o);
    }

    /** `process_informal_table`. */
    method ProcessInformalTableM(text: string)
      modifies this
      requires Valid()
      ensures State() == Emit(old(State()), ProcessInformalTable(Cleaner(old(bibliography), toText), text)) && Valid()
    {
      var o := Steps.InformalTableOut(bibliography, toText, text);
      Commit(o);
    }

    /** `process_paragraph_with_table`. */
    method ProcessParagraphWithTable(text: string)
      modifies this
      requires Valid()
      ensures State() == Emit(old(State()), ParagraphWithTable(Cleaner(old(bibliography), toText), text)) && Valid()
    {
      var o := Steps.ParagraphWithTableOut(bibliography, toText, text);
      Commit(o);
    }

    /** `process_latex_structure`: the blocks appended and the counters
      * moved on. */
    method ProcessLatexStructure(content: string)
      modifies this
      requires Valid()
      ensures var (c, o) := Segmenter.ProcessLatexStructure(Cleaner(old(bibliography), toText), old(counters), content);
        State() == Emit(old(State()), o).(counters := c) && Valid()
    {
      var c, o := Steps.StructureLoop(bibliography, toText, counters, content);
      Commit(o);
      counters := c;
    }

    /** `add_bibliography`. */
    method AddBibliography()
      modifies this
      requires Valid()
      ensures State() == Bibliography(Cleaner(old(bibliography), toText), texts, old(State())) && Valid()
    {
      if citations == {} {
        return;
      }
      Commit(Out([PageBreak], []));
      AddFormattedParagraph(texts.bibHeading, "Chapter");
      var ks := SortedKeys(citations);
      var o := RefsLoop(Clean(), bibliography, ks);
      Commit(o);
    }

    /** `add_missing_references_report`. */
    method AddMissingReferencesReport()
      modifies this
      requires Valid()
      ensures State() == MissingReport(Cleaner(old(bibliography), toText), texts, old(State())) && Valid()
    {
      if missingCitations == {} {
        return;
      }
      Commit(Out([PageBreak], []));
      AddFormattedParagraph(texts.missingHeading, "Chapter");
      AddFormattedParagraph(texts.explanation, "Normal");
      var ks := SortedKeys(missingCitations);
      var lines := MissingLoop(ks);
      Commit(Out(lines, []));
    }

    /** The chapter loop of `convert`. */
    method ProcessChapters(chapters: seq<string>, files: map<string, string>, fuel: nat) returns (ok: bool)
      modifies this
      requires Valid()
      ensures var r := Chapters(Cleaner(old(bibliography), toText), old(State()), chapters, files, fuel);
        ok == r.Some? && (ok ==> State() == r.value) && bibliography == old(bibliography) && Valid()
    {
      ghost var clean := Cleaner(bibliography, toText);
      var i := 0;
      while i < |chapters|
        invariant 0 <= i <= |chapters|
        invariant bibliography == old(bibliography) && Valid()
        invariant Chapters(clean, old(State()), chapters, files, fuel) == Chapters(clean, State(), chapters[i..], files, fuel)
      {
        assert chapters[i..][1..] == chapters[i + 1..];
        var content := chapters[i];
        ghost var before := State();
        if content != [] {
          var t := ProcessInput(files, content, fuel);
          if t.None? {
            return false;
          }
          ChaptersStep(clean, before, chapters[i..], files, fuel, t.value);
          ProcessLatexStructure(t.value);
          Commit(Out([PageBreak], []));
        } else {
          ChaptersSkip(clean, before, chapters[i..], files, fuel);
        }
        i := i + 1;
      }
      ok := true;
    }

    /** The end of `convert`: the bibliography, then the report when some
      * citation was not found. */
    method Finish()
      modifies this
      requires Valid()
      ensures State() == Closing(Cleaner(old(bibliography), toText), texts, old(State()))
    {
      AddBibliography();
      if missingCitations != {} {
        AddMissingReferencesReport();
      }
    }

    /** `convert` on a freshly built converter: the .bib text (`None` when
      * the file does not exist), the texts of the seven chapter files (empty
      * when missing), and the files `\input` may name. */
    method Convert(bibText: Option<string>, chapters: seq<string>, files: map<string, string>, fuel: nat) returns (ok: bool)
      modifies this
      requires State() == Store(map[], {}, {}, Start, [])
      ensures ok == Conversion(toText, texts, bibText, chapters, files, fuel).Some?
      ensures ok ==> State() == Conversion(toText, texts, bibText, chapters, files, fuel).value
    {
      if bibText.Some? {
        ParseBibliographyContent(bibText.value);
      }
      ghost var bib := LoadedBibliography(bibText);
      ghost var clean := Cleaner(bib, toText);
      assert State() == Store(bib, {}, {}, Start, []);
      AddFormattedParagraph(texts.title, "Title");
      assert State() == Opening(toText, texts, bibText);
      ok := ProcessChapters(chapters, files, fuel);
      ghost var r := Chapters(clean, Opening(toText, texts, bibText), chapters, files, fuel);
      assert ok == r.Some? && (ok ==> State() == r.value) && bibliography == bib;
      assert Conversion(toText, texts, bibText, chapters, files, fuel) == if r.Some? then Some(Closing(clean, texts, r.value)) else None;
      if !ok {
        return;
      }
      Finish();
      assert State() == Closing(clean, texts, r.value);
    }
  }
}
