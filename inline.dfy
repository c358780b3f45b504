/** The runs of a paragraph (`process_inline_formatting` and
  * `clean_text_for_word` in `core/scripts/Latex2word.py`): the text is
  * cleaned, cut into parts, and every part that is not blank becomes one run
  * of Word-safe text, red when it holds the key of a missing reference. */
module Inline {
  import opened Strings
  import opened Scan
  import opened Citations
  import opened LatexClean
  import opened Tokenizer
  import opened Docx

  /** Text as a run carries it: not empty, no blank at either end, and no
    * character Word's XML rejects. */
  predicate WordText(t: string)
  {
    t != [] && IsStripped(t, IsPySpace) && AllChars(t, KeepForWord)
  }

  /** No run is both bold and italic, nor formatted and red. */
  predicate OneFlag(r: Run)
  {
    (r.bold ==> !r.italic && !r.red) && (r.italic ==> !r.red)
  }

  /** The run a part becomes: none when the part is blank or cleaning leaves
    * nothing of it; a missing part gives a red run. */
  function RunOf(p: Part): (rs: seq<Run>)
    ensures rs == [] || rs == [Run(CleanForWord(p.text), p.bold, p.italic, p.missing)]
    ensures rs != [] ==> WordText(rs[0].text)
  {
    var c := CleanForWord(p.text);
    if PyStrip(p.text) != [] && c != [] then [Run(c, p.bold, p.italic, p.missing)] else []
  }

  /** The run of a part, as facts about every run of it. */
  lemma RunOfShape(p: Part)
    ensures |RunOf(p)| <= 1
    ensures forall i :: 0 <= i < |RunOf(p)| ==> WordText(RunOf(p)[i].text)
    ensures AtMostOneFlag(p) ==> forall i :: 0 <= i < |RunOf(p)| ==> OneFlag(RunOf(p)[i])
  {
    var rs := RunOf(p);
    if rs != [] {
      assert rs[0] == Run(CleanForWord(p.text), p.bold, p.italic, p.missing);
    }
  }

  /** The runs of the parts, in order. */
  function RunsOf(parts: seq<Part>): (rs: seq<Run>)
    ensures |rs| <= |parts|
    ensures forall i :: 0 <= i < |rs| ==> WordText(rs[i].text)
    ensures AllOneFlag(parts) ==> forall i :: 0 <= i < |rs| ==> OneFlag(rs[i])
    decreases |parts|
  {
    if parts == [] then []
    else
      var init := parts[..|parts| - 1];
      assert AllOneFlag(parts) ==> AllOneFlag(init) by {
        assert forall i :: 0 <= i < |init| ==> init[i] == parts[i];
      }
      RunOfShape(parts[|parts| - 1]);
      RunsOf(init) + RunOf(parts[|parts| - 1])
  }

  /** `clean_latex_text` under a bibliography and a LaTeX-to-text step. */
  function Cleaner(bib: map<string, string>, toText: string -> string): string -> Subbed
  {
    t => CleanLatex(bib, toText, t)
  }

  /** The runs of a paragraph and the citation keys its cleaning met. */
  datatype Inlined = Inlined(runs: seq<Run>, keys: seq<string>)

  /** The parts the runs are made from: the tokenizer's parts, or the whole
    * cleaned text as one plain part when there are none. */
  function PartsOrWhole(c: string): seq<Part>
  {
    var ps := Parts(c);
    if ps == [] && c != [] then [Plain(c)] else ps
  }

  /** `process_inline_formatting`: clean the text (with `clean`, the
    * converter's `clean_latex_text`), cut it into parts, and
    * turn the parts into runs. */
  function InlineFormatting(clean: string -> Subbed, text: string): (r: Inlined)
    ensures forall i :: 0 <= i < |r.runs| ==> WordText(r.runs[i].text) && OneFlag(r.runs[i])
    ensures r.keys == clean(text).keys
  {
    var c := clean(text);
    WholeFallbackUnused(c.out);
    PartsFlags(c.out);
    Inlined(RunsOf(PartsOrWhole(c.out)), c.keys)
  }

  /** `add_formatted_paragraph`: nothing for blank text, else one paragraph
    * of the given style holding the text's runs. */
  function FormattedParagraph(clean: string -> Subbed, text: string, style: string): (o: Out)
    ensures |o.blocks| <= 1
    ensures o.blocks == [] <==> PyStrip(text) == []
    ensures forall i :: 0 <= i < |o.blocks| ==> o.blocks[i] == Paragraph(style, InlineFormatting(clean, text).runs)
    ensures o.keys == if PyStrip(text) == [] then [] else clean(text).keys
  {
    if PyStrip(text) == [] then Nothing
    else
      var f := InlineFormatting(clean, text);
      Out([Paragraph(style, f.runs)], f.keys)
  }

  // ---------------------------------------------------------------------------
  // Properties

  /** The fallback to one plain part never applies: a non-empty text always
    * has parts. */
  lemma WholeFallbackUnused(c: string)
    ensures c != [] ==> Parts(c) != []
    ensures PartsOrWhole(c) == Parts(c)
  {
    PartsRender(c);
  }

  lemma RunsOfOne(p: Part)
    ensures RunsOf([p]) == RunOf(p)
  {
    assert [p][..0] == [];
  }

  /** The marker of a missing key becomes exactly one red run holding the
    * key, when the key is Word-safe text without a star. */
  lemma MissingRun(key: string)
    requires WordText(key) && '*' !in key
    ensures RunsOf(PartsOrWhole(MissingMarker(key))) == [Run(key, false, false, true)]
  {
    WholeFallbackUnused(MissingMarker(key));
    MarkerParts(key);
    RunsOfOne(Mark(Missing, key));
    FilterKeepsAll(key, KeepForWord);
    StripOfStripped(key, IsPySpace);
  }

  lemma {:induction false} FilterNoChar(s: string, p: char -> bool, c: char)
    requires c !in s
    ensures c !in Filter(s, p)
    decreases |s|
  {
    if s != [] { FilterNoChar(s[1..], p, c); }
  }

  /** Cleaning for Word brings in no character. */
  lemma CleanForWordNoChar(s: string, c: char)
    requires c !in s
    ensures c !in CleanForWord(s)
  {
    var f := Filter(s, KeepForWord);
    FilterNoChar(s, KeepForWord, c);
    StripNoChar(f, IsPySpace, c);
  }

  lemma StripNoChar(s: string, sp: char -> bool, c: char)
    requires c !in s
    ensures c !in Strip(s, sp)
  {
    var l := LStrip(s, sp);
    SuffixNoChar(s, |s| - |l|, c);
    PrefixNoChar(l, |RStrip(l, sp)|, c);
  }

  lemma SuffixNoChar(s: string, a: nat, c: char)
    requires a <= |s| && c !in s
    ensures c !in s[a..]
  {
    assert forall i :: 0 <= i < |s| - a ==> s[a..][i] == s[a + i];
  }

  lemma PrefixNoChar(s: string, b: nat, c: char)
    requires b <= |s| && c !in s
    ensures c !in s[..b]
  {
    assert forall i :: 0 <= i < b ==> s[..b][i] == s[i];
  }

  lemma {:induction false} RedRunsStarFree(parts: seq<Part>)
    requires FlaggedStarFree(parts)
    ensures forall i :: 0 <= i < |RunsOf(parts)| && RunsOf(parts)[i].red ==> '*' !in RunsOf(parts)[i].text
    decreases |parts|
  {
    if parts != [] {
      var init := parts[..|parts| - 1];
      var last := parts[|parts| - 1];
      assert FlaggedStarFree(init) by {
        assert forall i :: 0 <= i < |init| ==> init[i] == parts[i];
      }
      RedRunsStarFree(init);
      var a := RunsOf(init);
      var b := RunOf(last);
      assert RunsOf(parts) == a + b;
      if b != [] && last.missing {
        assert !IsPlain(parts[|parts| - 1]);
        CleanForWordNoChar(last.text, '*');
        assert b[0].text == CleanForWord(last.text);
      }
      forall i | 0 <= i < |a + b| && (a + b)[i].red
        ensures '*' !in (a + b)[i].text
      {
        if i < |a| {
          assert (a + b)[i] == a[i];
        } else {
          assert (a + b)[i] == b[0];
        }
      }
    }
  }

  /** A citation key holding a star is never shown as a red run of its own:
    * its marker collides with the bold and italic syntax. */
  lemma StarKeyNeverRed(s: string, key: string)
    requires '*' in key
    ensures forall r :: r in RunsOf(PartsOrWhole(s)) && r.red ==> r.text != key
  {
    WholeFallbackUnused(s);
    PartsStarFree(s);
    RedRunsStarFree(Parts(s));
  }

  /** A blank at the front of a part is dropped with it: the space between
    * two runs is lost. */
  lemma LeadingBlankDropped(c: char, t: string, bold: bool, italic: bool, missing: bool)
    requires IsPySpace(c) && KeepForWord(c)
    ensures RunOf(Part([c] + t, bold, italic, missing)) == RunOf(Part(t, bold, italic, missing))
  {
    BlankCleaned(c, t);
  }

  lemma BlankCleaned(c: char, t: string)
    requires IsPySpace(c) && KeepForWord(c)
    ensures CleanForWord([c] + t) == CleanForWord(t) && PyStrip([c] + t) == PyStrip(t)
  {
    var f := Filter(t, KeepForWord);
    assert ([c] + t)[1..] == t;
    assert Filter([c] + t, KeepForWord) == [c] + f;
    assert ([c] + f)[1..] == f;
    assert LStrip([c] + f, IsPySpace) == LStrip(f, IsPySpace);
    assert LStrip([c] + t, IsPySpace) == LStrip(t, IsPySpace);
  }

  lemma SpaceIsBlank()
    ensures IsPySpace(' ') && KeepForWord(' ')
  {
  }
}
