/** Uploading a reference document (`POST /api/reference-files`): the file
  * type check, the text taken from the upload, the stored display name, the
  * style patterns found in the text (by section headings, academic phrases,
  * citation styles and methodology terms, or as returned by a language model
  * and sanitised) and the rules created from them. */
module ReferenceFiles {
  import opened Strings

  // ---------------------------------------------------------------------------
  // Accepted files

  const AllowedExtensions: seq<string> := [".txt", ".md", ".pdf", ".docx"]

  /** `exts.some(ext => s.endsWith(ext))`. */
  function AnySuffix(exts: seq<string>, s: string): (r: bool)
    ensures r <==> exists e :: e in exts && EndsWith(s, e)
  {
    if exts == [] then false
    else
      assert forall e :: e in exts <==> e == exts[0] || e in exts[1..];
      EndsWith(s, exts[0]) || AnySuffix(exts[1..], s)
  }

  predicate HasValidExtension(name: string)
  {
    AnySuffix(AllowedExtensions, Lower(name))
  }

  /** The last dot-separated piece of the lower-cased name (`split('.').pop()`). */
  function FileExtension(name: string): (r: string)
    ensures forall j :: 0 <= j < |r| ==> r[j] != '.'
  {
    var parts := Split(Lower(name), '.');
    parts[|parts| - 1]
  }

  /** A lower-cased name ending in a dot and dot-free `e` has extension `e`. */
  lemma ExtensionOfSuffix(name: string, dotted: string)
    requires EndsWith(Lower(name), dotted) && dotted != [] && dotted[0] == '.'
    requires forall j :: 1 <= j < |dotted| ==> dotted[j] != '.'
    ensures FileExtension(name) == dotted[1..]
  {
    var l := Lower(name);
    var e := dotted[1..];
    var a := l[..|l| - |dotted|];
    assert l == a + ['.'] + e;
    SplitAppendLast(a, '.', e);
  }

  lemma AllowedShape(e: string)
    requires e in AllowedExtensions
    ensures e != [] && e[0] == '.' && forall j :: 1 <= j < |e| ==> e[j] != '.'
  {
  }

  /** The type check and the extension used to choose the text extraction
    * agree: the extension of every accepted file is one of the accepted ones. */
  lemma AcceptedKinds(name: string)
    requires HasValidExtension(name)
    ensures "." + FileExtension(name) in AllowedExtensions
  {
    var e :| e in AllowedExtensions && EndsWith(Lower(name), e);
    AllowedShape(e);
    ExtensionOfSuffix(name, e);
    assert "." + e[1..] == e;
  }

  // ---------------------------------------------------------------------------
  // Extracted text

  const PdfErrorText: string := "[" + "Erro ao extrair texto do PDF]"
  const DocxPlaceholder: string := "[" + "Arquivo DOCX - use PDF, TXT ou MD para an\U{e1}lise autom\U{e1}tica]"

  predicate NotNul(c: char) { c != '\0' }

  /** `replace(/\x00/g, "").trim()`. */
  function Cleaned(text: string): (r: string)
    ensures '\0' !in r && IsStripped(r, IsJsSpace)
    ensures forall i :: 0 <= i < |text| && NotNul(text[i]) && !IsJsSpace(text[i]) ==> text[i] in r
  {
    var kept := Filter(text, NotNul);
    assert '\0' !in kept by {
      assert AllChars(kept, NotNul);
    }
    StripNoChar(kept, IsJsSpace, '\0');
    StripShape(kept, IsJsSpace);
    assert forall i :: 0 <= i < |text| && NotNul(text[i]) && !IsJsSpace(text[i]) ==> text[i] in JsTrim(kept) by {
      forall i | 0 <= i < |text| && NotNul(text[i]) && !IsJsSpace(text[i])
        ensures text[i] in JsTrim(kept)
      {
        var k := FilterKeepsAt(text, NotNul, i);
        StripKeepsChar(kept, IsJsSpace, k);
      }
    }
    JsTrim(kept)
  }

  /** A character `p` accepts keeps a place in the filtered text. */
  lemma {:induction false} FilterKeepsAt(s: string, p: char -> bool, i: nat) returns (k: nat)
    requires i < |s| && p(s[i])
    ensures k < |Filter(s, p)| && Filter(s, p)[k] == s[i]
    decreases |s|
  {
    if i == 0 {
      k := 0;
    } else {
      var k' := FilterKeepsAt(s[1..], p, i - 1);
      k := k' + (if p(s[0]) then 1 else 0);
    }
  }

  /** The text of an upload: the PDF's text layer (or an error marker when it
    * cannot be read: `pdfText` is `None`), a fixed placeholder for Word
    * documents, and the decoded bytes otherwise. */
  function ExtractedContent(name: string, decoded: string, pdfText: Option<string>): string
  {
    var ext := FileExtension(name);
    if ext == "pdf" then
      match pdfText
      case Some(t) => Cleaned(t)
      case None => PdfErrorText
    else if ext == "docx" then DocxPlaceholder
    else Cleaned(decoded)
  }

  /** Only text longer than 100 characters that is not a bracketed marker is analysed. */
  predicate HasContent(content: string)
  {
    |content| > 100 && !StartsWith(content, "[")
  }

  /** Word documents and unreadable PDFs are never analysed. */
  lemma MarkersNotAnalysed(name: string, decoded: string, pdfText: Option<string>)
    requires FileExtension(name) == "docx" || (FileExtension(name) == "pdf" && pdfText.None?)
    ensures !HasContent(ExtractedContent(name, decoded, pdfText))
  {
    assert PdfErrorText[0] == '[';
    assert DocxPlaceholder[0] == '[';
  }

  // ---------------------------------------------------------------------------
  // Display name

  predicate NotSlashOrDot(c: char) { c != '/' && c != '.' }

  /** The start of the run of `p`-characters that ends at `to`. */
  function RunStart(s: string, to: nat, p: char -> bool): (r: nat)
    requires to <= |s|
    ensures r <= to
    ensures forall k :: r <= k < to ==> p(s[k])
    ensures r > 0 ==> !p(s[r - 1])
  {
    if to > 0 && p(s[to - 1]) then RunStart(s, to - 1, p) else to
  }

  lemma {:induction false} RunStartIs(s: string, from: nat, to: nat, p: char -> bool)
    requires from <= to <= |s|
    requires forall k :: from <= k < to ==> p(s[k])
    requires from == 0 || !p(s[from - 1])
    ensures RunStart(s, to, p) == from
  {
    if from < to { RunStartIs(s, from, to - 1, p); }
  }

  /** `name.replace(/\.[^/.]+$/, "")`: the name without its final extension. */
  function DisplayName(name: string): (r: string)
    ensures r == name ||
      (|r| + 1 < |name| && name[..|r|] == r && name[|r|] == '.' &&
       forall k :: |r| < k < |name| ==> NotSlashOrDot(name[k]))
  {
    var k := RunStart(name, |name|, NotSlashOrDot);
    if 0 < k < |name| && name[k - 1] == '.' then name[..k - 1] else name
  }

  /** The extension of a `base.ext` name is dropped, whatever the base holds. */
  lemma DisplayNameDropsExtension(base: string, ext: string)
    requires ext != [] && forall k :: 0 <= k < |ext| ==> NotSlashOrDot(ext[k])
    ensures DisplayName(base + "." + ext) == base
  {
    var name := base + "." + ext;
    assert forall k :: |base| + 1 <= k < |name| ==> name[k] == ext[k - |base| - 1];
    RunStartIs(name, |base| + 1, |name|, NotSlashOrDot);
    assert name[..|base|] == base;
  }

  /** A name with no dot and no slash is kept whole. */
  lemma DisplayNameWithoutExtension(name: string)
    requires forall k :: 0 <= k < |name| ==> NotSlashOrDot(name[k])
    ensures DisplayName(name) == name
  {
    RunStartIs(name, 0, |name|, NotSlashOrDot);
  }

  // ---------------------------------------------------------------------------
  // Patterns

  /** A style pattern found in a reference document. `severity` is only set
    * by the language-model path. */
  datatype ExtractedPattern = ExtractedPattern(
    name: string, description: string, pattern: string, category: string,
    section: Option<string>, severity: Option<string>)

  const Categories: seq<string> := ["STRUCTURE", "CONTENT", "CITATION", "STYLE", "CUSTOM"]

  /** The patterns each element of a list of candidates contributes, in list order. */
  function Emitted<T>(xs: seq<T>, f: T -> seq<ExtractedPattern>): seq<ExtractedPattern>
  {
    if xs == [] then [] else f(xs[0]) + Emitted(xs[1..], f)
  }

  lemma {:induction false} EmittedAppend<T>(xs: seq<T>, x: T, f: T -> seq<ExtractedPattern>)
    ensures Emitted(xs + [x], f) == Emitted(xs, f) + f(x)
  {
    if xs != [] {
      assert (xs + [x])[1..] == xs[1..] + [x];
      EmittedAppend(xs[1..], x, f);
    }
  }

  lemma {:induction false} EmittedMember<T>(xs: seq<T>, f: T -> seq<ExtractedPattern>, p: ExtractedPattern)
    ensures p in Emitted(xs, f) <==> exists j :: 0 <= j < |xs| && p in f(xs[j])
  {
    if xs != [] {
      EmittedMember(xs[1..], f, p);
      assert forall j :: 1 <= j < |xs| ==> xs[1..][j - 1] == xs[j];
    }
  }

  lemma {:induction false} EmittedBound<T>(xs: seq<T>, f: T -> seq<ExtractedPattern>)
    requires forall x :: |f(x)| <= 1
    ensures |Emitted(xs, f)| <= |xs|
  {
    if xs != [] { EmittedBound(xs[1..], f); }
  }

  // ---------------------------------------------------------------------------
  // Section headings: `/^#+\s+(.+)$/gm`

  predicate IsHash(c: char) { c == '#' }
  predicate NotLineTerminator(c: char) { !IsLineTerminator(c) }

  predicate LineStart(text: string, i: nat)
    requires i <= |text|
  {
    i == 0 || IsLineTerminator(text[i - 1])
  }

  /** The end of the run of `p`-characters starting at `from`. */
  function RunEnd(text: string, from: nat, p: char -> bool): (r: nat)
    requires from <= |text|
    ensures from <= r <= |text|
    ensures forall k :: from <= k < r ==> p(text[k])
    ensures r < |text| ==> !p(text[r])
    decreases |text| - from
  {
    if from < |text| && p(text[from]) then RunEnd(text, from + 1, p) else from
  }

  lemma {:induction false} RunEndIs(text: string, from: nat, to: nat, p: char -> bool)
    requires from <= to <= |text|
    requires forall k :: from <= k < to ==> p(text[k])
    requires to == |text| || !p(text[to])
    ensures RunEnd(text, from, p) == to
    decreases |text| - from
  {
    if from < to { RunEndIs(text, from + 1, to, p); }
  }

  /** The last position `k` with `lo < k < j` holding no line terminator,
    * if any: where `\s+` stops when it gives blanks back. */
  function LastKept(text: string, lo: nat, j: nat): (r: Option<nat>)
    requires lo <= j <= |text|
    ensures r.Some? ==> lo < r.value < j && NotLineTerminator(text[r.value])
    ensures r.Some? ==> forall k :: r.value < k < j ==> IsLineTerminator(text[k])
    ensures r.None? ==> forall k :: lo < k < j ==> IsLineTerminator(text[k])
    decreases j
  {
    if j <= lo + 1 then None
    else if NotLineTerminator(text[j - 1]) then Some(j - 1)
    else LastKept(text, lo, j - 1)
  }

  /** A capture of `(.+)$`: a non-empty run of characters other than line
    * terminators, ending where the match ends, at a line end. */
  predicate LineCapture(text: string, m: (string, nat))
  {
    m.0 != [] && |m.0| <= m.1 <= |text| && text[m.1 - |m.0|..m.1] == m.0
    && (forall k :: 0 <= k < |m.0| ==> !IsLineTerminator(m.0[k]))
    && (m.1 == |text| || IsLineTerminator(text[m.1]))
  }

  /** The heading match starting at `i`, if any: the text of the line after
    * the hashes and the blanks, and where the match ends. `\s+` may cross
    * line ends, so a lone `#` line takes the next non-blank line as its text.
    * When the blanks run to the end of the text, `\s+` gives them back until
    * `(.+)` can take the last blank that is not a line terminator. */
  function HeaderAt(text: string, i: nat): (r: Option<(string, nat)>)
    ensures r.Some? ==> i < r.value.1 <= |text| && LineCapture(text, r.value)
    ensures r.Some? ==> LineStart(text, i) && text[i] == '#'
  {
    if i >= |text| || !LineStart(text, i) || text[i] != '#' then None
    else
      var h := RunEnd(text, i, IsHash);
      var c := RunEnd(text, h, IsJsSpace);
      if c == h then None
      else if c < |text| then
        var e := RunEnd(text, c, NotLineTerminator);
        CaptureRun(text, c, e);
        Some((text[c..e], e))
      else
        match LastKept(text, h, c)
        case None => None
        case Some(k) =>
          CaptureRun(text, k, k + 1);
          Some((text[k..k + 1], k + 1))
  }

  lemma CaptureRun(text: string, c: nat, e: nat)
    requires c < e <= |text|
    requires forall k :: c <= k < e ==> !IsLineTerminator(text[k])
    requires e == |text| || IsLineTerminator(text[e])
    ensures LineCapture(text, (text[c..e], e))
  {
  }

  /** `match[1].toLowerCase().trim()`. */
  function HeaderText(line: string): string
  {
    JsTrim(Lower(line))
  }

  /** A global, multi-line regular expression tried at a position: the
    * captured text and where the match ends, which is past the position. */
  type LineMatcher = m: (string, nat) -> Option<(string, nat)> |
    forall t: string, i: nat :: m(t, i).Some? ==> i < m(t, i).value.1 <= |t|
    witness (t: string, i: nat) => None

  /** What `exec` finds from position `i` on, each capture passed through `read`. */
  function ScanFrom(m: LineMatcher, read: string -> string, text: string, i: nat): seq<string>
    requires i <= |text|
    decreases |text| - i
  {
    if i == |text| then []
    else
      match m(text, i)
      case Some(r) => [read(r.0)] + ScanFrom(m, read, text, r.1)
      case None => ScanFrom(m, read, text, i + 1)
  }

  function Headers(text: string): seq<string>
  {
    ScanFrom(HeaderAt, HeaderText, text, 0)
  }

  /** The `exec` loop. */
  method ScanLines(m: LineMatcher, read: string -> string, text: string) returns (found: seq<string>)
    ensures found == ScanFrom(m, read, text, 0)
  {
    found := [];
    var i := 0;
    while i < |text|
      invariant i <= |text|
      invariant found + ScanFrom(m, read, text, i) == ScanFrom(m, read, text, 0)
      decreases |text| - i
    {
      match m(text, i)
      case Some(r) =>
        found := found + [read(r.0)];
        i := r.1;
      case None =>
        i := i + 1;
    }
  }

  /** The loop collecting the heading texts. */
  method CollectHeaders(text: string) returns (headers: seq<string>)
    ensures headers == Headers(text)
  {
    headers := ScanLines(HeaderAt, HeaderText, text);
  }

  /** A line `### Title` (or `#` alone with the title on a later line) is a
    * heading whose text is the lower-cased, trimmed title. */
  lemma HeadingLine(text: string, i: nat, h: nat, c: nat, e: nat)
    requires i < h < c < e <= |text| && LineStart(text, i)
    requires forall k :: i <= k < h ==> text[k] == '#'
    requires forall k :: h <= k < c ==> IsJsSpace(text[k])
    requires !IsJsSpace(text[c])
    requires forall k :: c <= k < e ==> !IsLineTerminator(text[k])
    requires e == |text| || IsLineTerminator(text[e])
    ensures HeaderAt(text, i) == Some((text[c..e], e))
  {
    RunEndIs(text, i, h, IsHash);
    RunEndIs(text, h, c, IsJsSpace);
    RunEndIs(text, c, e, NotLineTerminator);
  }

  /** When the blanks after the hashes run to the end of the text, the
    * heading is the last blank that is not a line terminator. */
  lemma BlankTailHeading(text: string, i: nat, h: nat, k: nat)
    requires i < h < k < |text| && LineStart(text, i)
    requires forall j :: i <= j < h ==> text[j] == '#'
    requires forall j :: h <= j < |text| ==> IsJsSpace(text[j])
    requires !IsLineTerminator(text[k])
    requires forall j :: k < j < |text| ==> IsLineTerminator(text[j])
    ensures HeaderAt(text, i) == Some(([text[k]], k + 1))
  {
    RunEndIs(text, i, h, IsHash);
    RunEndIs(text, h, |text|, IsJsSpace);
    assert text[k..k + 1] == [text[k]];
  }

  /** A hash followed by two blanks is a heading whose text trims to nothing. */
  lemma HashAndBlanks()
    ensures Headers("#  ") == [""]
  {
    var t := "#  ";
    BlankTailHeading(t, 0, 1, 2);
    assert HeaderText([' ']) == "";
  }

  const SectionMapping: seq<(string, string)> := [
    ("introducao", "introduction"), ("introduction", "introduction"),
    ("metodologia", "methodology"), ("methodology", "methodology"), ("metodo", "methodology"),
    ("resultados", "results"), ("results", "results"),
    ("discussao", "discussion"), ("discussion", "discussion"),
    ("conclusao", "conclusion"), ("conclusion", "conclusion"),
    ("referencias", "references"), ("references", "references"), ("bibliografia", "references")]

  /** The first keyword of `mapping` the heading contains, with its section. */
  function FirstKeyword(mapping: seq<(string, string)>, header: string): Option<(string, string)>
  {
    if mapping == [] then None
    else if Contains(header, mapping[0].0) then Some(mapping[0])
    else FirstKeyword(mapping[1..], header)
  }

  /** `FirstKeyword` finds nothing exactly when the heading holds no keyword,
    * and otherwise the leftmost keyword of the mapping the heading holds. */
  lemma {:induction false} FirstKeywordIsFirst(mapping: seq<(string, string)>, header: string)
    ensures FirstKeyword(mapping, header).None? <==> forall k :: 0 <= k < |mapping| ==> !Contains(header, mapping[k].0)
    ensures FirstKeyword(mapping, header).Some? ==>
      exists k :: 0 <= k < |mapping| && mapping[k] == FirstKeyword(mapping, header).value &&
        Contains(header, mapping[k].0) && forall j :: 0 <= j < k ==> !Contains(header, mapping[j].0)
  {
    if mapping != [] && !Contains(header, mapping[0].0) {
      FirstKeywordIsFirst(mapping[1..], header);
      assert forall k :: 1 <= k < |mapping| ==> mapping[1..][k - 1] == mapping[k];
      if FirstKeyword(mapping, header).Some? {
        var k :| 0 <= k < |mapping| - 1 && mapping[1..][k] == FirstKeyword(mapping, header).value &&
          Contains(header, mapping[1..][k].0) && forall j :: 0 <= j < k ==> !Contains(header, mapping[1..][j].0);
        assert mapping[k + 1] == FirstKeyword(mapping, header).value;
      }
    }
  }

  function Capitalised(w: string): string
  {
    if w == [] then [] else [UpperChar(w[0])] + w[1..]
  }

  function KeywordPattern(kw: (string, string)): ExtractedPattern
  {
    ExtractedPattern("Secao " + Capitalised(kw.0), "Documento de referencia possui secao de " + kw.0,
      kw.0, "STRUCTURE", Some(kw.1), None)
  }

  /** The pattern of a heading's first keyword in `mapping`, if it has one. */
  function HeadingPattern(mapping: seq<(string, string)>, header: string): (r: seq<ExtractedPattern>)
    ensures |r| <= 1
  {
    match FirstKeyword(mapping, header)
    case None => []
    case Some(kw) => [KeywordPattern(kw)]
  }

  function HeadingPatterns(mapping: seq<(string, string)>): string -> seq<ExtractedPattern>
  {
    (header: string) => HeadingPattern(mapping, header)
  }

  function SectionPatterns(text: string): seq<ExtractedPattern>
  {
    Emitted(Headers(text), HeadingPatterns(SectionMapping))
  }

  /** The inner loop of the heading classification, which breaks at the first keyword found. */
  method FindKeyword(mapping: seq<(string, string)>, header: string) returns (found: Option<(string, string)>)
    ensures found == FirstKeyword(mapping, header)
  {
    var j := 0;
    while j < |mapping| && !Contains(header, mapping[j].0)
      invariant j <= |mapping|
      invariant FirstKeyword(mapping[j..], header) == FirstKeyword(mapping, header)
    {
      assert mapping[j..][1..] == mapping[j + 1..];
      j := j + 1;
    }
    if j < |mapping| {
      found := Some(mapping[j]);
    } else {
      assert mapping[j..] == [];
      found := None;
    }
  }

  /** The outer loop: one pattern for each heading that contains a keyword. */
  method ClassifyHeadings(headers: seq<string>, mapping: seq<(string, string)>) returns (patterns: seq<ExtractedPattern>)
    ensures patterns == Emitted(headers, HeadingPatterns(mapping))
  {
    patterns := [];
    for i := 0 to |headers|
      invariant patterns == Emitted(headers[..i], HeadingPatterns(mapping))
    {
      var found := FindKeyword(mapping, headers[i]);
      assert HeadingPatterns(mapping)(headers[i]) == HeadingPattern(mapping, headers[i]);
      if found.Some? {
        patterns := patterns + [KeywordPattern(found.value)];
      } else {
        assert HeadingPattern(mapping, headers[i]) == [];
      }
      EmittedAppend(headers[..i], headers[i], HeadingPatterns(mapping));
      assert headers[..i + 1] == headers[..i] + [headers[i]];
    }
    assert headers[..|headers|] == headers;
  }

  /** `detectSectionStructure`. */
  method DetectSectionStructure(text: string) returns (patterns: seq<ExtractedPattern>)
    ensures patterns == SectionPatterns(text)
  {
    var headers := CollectHeaders(text);
    patterns := ClassifyHeadings(headers, SectionMapping);
  }

  /** Every heading yields at most one pattern, and a heading yields the
    * pattern of a keyword exactly when that keyword is the first one of the
    * mapping the heading contains. */
  lemma HeadingsClassified(hs: seq<string>, mapping: seq<(string, string)>, kw: (string, string))
    ensures |Emitted(hs, HeadingPatterns(mapping))| <= |hs|
    ensures KeywordPattern(kw) in Emitted(hs, HeadingPatterns(mapping)) <==>
      exists h :: h in hs && FirstKeyword(mapping, h) == Some(kw)
  {
    var f := HeadingPatterns(mapping);
    assert forall h :: |f(h)| <= 1;
    EmittedBound(hs, f);
    EmittedMember(hs, f, KeywordPattern(kw));
    if KeywordPattern(kw) in Emitted(hs, f) {
      var j :| 0 <= j < |hs| && KeywordPattern(kw) in f(hs[j]);
      var found := FirstKeyword(mapping, hs[j]).value;
      assert KeywordPattern(found).pattern == found.0 == kw.0;
      assert Some(found.1) == KeywordPattern(kw).section;
      assert hs[j] in hs;
    }
    if h :| h in hs && FirstKeyword(mapping, h) == Some(kw) {
      var j :| 0 <= j < |hs| && hs[j] == h;
      assert KeywordPattern(kw) in f(hs[j]);
    }
  }

  lemma SectionPatternsOfHeadings(text: string, kw: (string, string))
    ensures |SectionPatterns(text)| <= |Headers(text)|
    ensures KeywordPattern(kw) in SectionPatterns(text) <==>
      exists h :: h in Headers(text) && FirstKeyword(SectionMapping, h) == Some(kw)
  {
    HeadingsClassified(Headers(text), SectionMapping, kw);
  }

  // ---------------------------------------------------------------------------
  // Academic phrases

  const AcademicPhrases: seq<(string, string)> := [
    ("objetivo geral", "introduction"), ("objetivos especificos", "introduction"),
    ("hipotese", "introduction"), ("justificativa", "introduction"),
    ("revisao de literatura", "literature_review"), ("fundamentacao teorica", "literature_review"),
    ("coleta de dados", "methodology"), ("analise de dados", "methodology"),
    ("populacao e amostra", "methodology"), ("instrumento de pesquisa", "methodology"),
    ("limitacoes", "conclusion"), ("trabalhos futuros", "conclusion"), ("contribuicoes", "conclusion")]

  function PhrasePattern(p: (string, string)): ExtractedPattern
  {
    ExtractedPattern("Contem \"" + p.0 + "\"", "Documento de referencia menciona " + p.0,
      p.0, "CONTENT", Some(p.1), None)
  }

  /** The phrase is stripped of accents; the lower-cased text it is looked for in is not. */
  predicate PhraseOccurs(lowerText: string, phrase: string)
  {
    Contains(lowerText, Unaccent(phrase))
  }

  function PhraseHits(lowerText: string): ((string, string)) -> seq<ExtractedPattern>
  {
    (p: (string, string)) => if PhraseOccurs(lowerText, p.0) then [PhrasePattern(p)] else []
  }

  function AcademicPatterns(text: string): seq<ExtractedPattern>
  {
    Emitted(AcademicPhrases, PhraseHits(Lower(text)))
  }

  /** The loop over the phrases. */
  method FindPhrases(phrases: seq<(string, string)>, lowerText: string) returns (patterns: seq<ExtractedPattern>)
    ensures patterns == Emitted(phrases, PhraseHits(lowerText))
  {
    patterns := [];
    for k := 0 to |phrases|
      invariant patterns == Emitted(phrases[..k], PhraseHits(lowerText))
    {
      var p := phrases[k];
      if PhraseOccurs(lowerText, p.0) {
        patterns := patterns + [PhrasePattern(p)];
      }
      EmittedAppend(phrases[..k], p, PhraseHits(lowerText));
      assert phrases[..k + 1] == phrases[..k] + [p];
    }
    assert phrases[..|phrases|] == phrases;
  }

  /** `detectAcademicPhrases`. */
  method DetectAcademicPhrases(text: string) returns (patterns: seq<ExtractedPattern>)
    ensures patterns == AcademicPatterns(text)
  {
    var lowerText := Lower(text);
    patterns := FindPhrases(AcademicPhrases, lowerText);
  }

  /** A phrase of the list is reported exactly when the text contains it. */
  lemma PhraseFound(phrases: seq<(string, string)>, lowerText: string, k: nat)
    requires k < |phrases|
    ensures PhrasePattern(phrases[k]) in Emitted(phrases, PhraseHits(lowerText)) <==>
      Contains(lowerText, Unaccent(phrases[k].0))
  {
    var f := PhraseHits(lowerText);
    var p := PhrasePattern(phrases[k]);
    EmittedMember(phrases, f, p);
    if p in Emitted(phrases, f) {
      var j :| 0 <= j < |phrases| && p in f(phrases[j]);
      assert PhrasePattern(phrases[j]).pattern == phrases[k].0;
    } else {
      assert p !in f(phrases[k]);
    }
  }

  lemma AcademicPhraseFound(text: string, k: nat)
    requires k < |AcademicPhrases|
    ensures PhrasePattern(AcademicPhrases[k]) in AcademicPatterns(text) <==>
      Contains(Lower(text), Unaccent(AcademicPhrases[k].0))
  {
    PhraseFound(AcademicPhrases, Lower(text), k);
  }

  // ---------------------------------------------------------------------------
  // Citation styles

  /** A regular expression tried at the start of a text: the length of the
    * match, if any. */
  type Matcher = string -> Option<nat>

  /** The number of matches `text.match(regex)` finds under the `g` flag:
    * the search resumes after each (non-empty) match. */
  function MatchCount(m: Matcher, t: string): (n: nat)
    ensures n <= |t|
    decreases |t|
  {
    if t == [] then 0
    else
      match m(t)
      case Some(k) => if 0 < k <= |t| then 1 + MatchCount(m, t[k..]) else MatchCount(m, t[1..])
      case None => MatchCount(m, t[1..])
  }

  lemma MatchCountLeading(m: Matcher, x: string, rest: string, t: string)
    requires x != [] && t == x + rest && m(t) == Some(|x|)
    ensures MatchCount(m, t) == 1 + MatchCount(m, rest)
  {
    assert t[|x|..] == rest;
  }

  /** `\([A-Z][A-Za-z]+,\s*\d{4}\)` */
  function AuthorYearMatch(t: string): (r: Option<nat>)
    ensures r.Some? ==> 0 < r.value <= |t|
  {
    if t == [] || t[0] != '(' then None
    else
      var surname := TakeWhile(t[1..], IsAsciiLetter);
      var p := 1 + |surname|;
      if |surname| < 2 || !IsAsciiUpper(surname[0]) || p == |t| || t[p] != ',' then None
      else
        var q := p + 1 + |TakeWhile(t[p + 1..], IsJsSpace)|;
        if q + 5 <= |t| && AllDigits(t[q..q + 4]) && t[q + 4] == ')' then Some(q + 5) else None
  }

  /** `\[\d+\]` */
  function NumberedMatch(t: string): (r: Option<nat>)
    ensures r.Some? ==> 0 < r.value <= |t|
  {
    if t == [] || t[0] != '[' then None
    else
      var digits := TakeWhile(t[1..], IsAsciiDigit);
      var p := 1 + |digits|;
      if digits != [] && p < |t| && t[p] == ']' then Some(p + 1) else None
  }

  /** `[A-Z][a-z]+\s+et\s+al\.` */
  function EtAlMatch(t: string): (r: Option<nat>)
    ensures r.Some? ==> 0 < r.value <= |t|
  {
    if t == [] || !IsAsciiUpper(t[0]) then None
    else
      var p := 1 + |TakeWhile(t[1..], IsAsciiLower)|;
      var q := p + |TakeWhile(t[p..], IsJsSpace)|;
      if p == 1 || q == p || q + 2 > |t| || t[q..q + 2] != "et" then None
      else
        var s := q + 2 + |TakeWhile(t[q + 2..], IsJsSpace)|;
        if s == q + 2 || s + 3 > |t| || t[s..s + 3] != "al." then None else Some(s + 3)
  }

  datatype CitationStyle = CitationStyle(name: string, source: string, matcher: Matcher)

  const CitationStyles: seq<CitationStyle> := [
    CitationStyle("Citacao ABNT (autor, ano)", "\\([A-Z][A-Za-z]+,\\s*\\d{4}\\)", AuthorYearMatch),
    CitationStyle("Citacao numerica [n]", "\\[\\d+\\]", NumberedMatch),
    CitationStyle("Citacao autor et al.", "[A-Z][a-z]+\\s+et\\s+al\\.", EtAlMatch)]

  function StylePattern(s: CitationStyle): ExtractedPattern
  {
    ExtractedPattern(s.name, "Documento usa estilo de citacao: " + s.name, s.source, "CITATION", None, None)
  }

  /** A style is reported once it occurs at least three times. */
  function StyleHits(text: string): CitationStyle -> seq<ExtractedPattern>
  {
    (s: CitationStyle) => if MatchCount(s.matcher, text) >= 3 then [StylePattern(s)] else []
  }

  function CitationPatterns(text: string): seq<ExtractedPattern>
  {
    Emitted(CitationStyles, StyleHits(text))
  }

  /** `detectCitationPatterns`. */
  method DetectCitationPatterns(text: string) returns (patterns: seq<ExtractedPattern>)
    ensures patterns == CitationPatterns(text)
  {
    patterns := [];
    for k := 0 to |CitationStyles|
      invariant patterns == Emitted(CitationStyles[..k], StyleHits(text))
    {
      var style := CitationStyles[k];
      var matches := MatchCount(style.matcher, text);
      if matches >= 3 {
        patterns := patterns + [StylePattern(style)];
      }
      EmittedAppend(CitationStyles[..k], style, StyleHits(text));
      assert CitationStyles[..k + 1] == CitationStyles[..k] + [style];
    }
    assert CitationStyles[..|CitationStyles|] == CitationStyles;
  }

  /** A style is reported exactly when the text holds at least three of its matches. */
  lemma CitationStyleFound(text: string, k: nat)
    requires k < |CitationStyles|
    ensures StylePattern(CitationStyles[k]) in CitationPatterns(text) <==> MatchCount(CitationStyles[k].matcher, text) >= 3
  {
    var f := StyleHits(text);
    var p := StylePattern(CitationStyles[k]);
    EmittedMember(CitationStyles, f, p);
    if p in CitationPatterns(text) {
      var j :| 0 <= j < |CitationStyles| && p in f(CitationStyles[j]);
      assert |StylePattern(CitationStyles[j]).pattern| == |CitationStyles[k].source|;
      assert [|CitationStyles[0].source|, |CitationStyles[1].source|, |CitationStyles[2].source|] == [27, 7, 23];
      assert j == k;
    } else {
      assert p !in f(CitationStyles[k]);
    }
  }

  /** A bracketed number such as `[12]` is one numbered citation. */
  lemma NumberedCitation(digits: string, rest: string, t: string)
    requires digits != [] && AllDigits(digits) && t == "[" + digits + "]" + rest
    ensures MatchCount(NumberedMatch, t) == 1 + MatchCount(NumberedMatch, rest)
  {
    assert t[1..][..|digits|] == digits;
    TakeWhileRun(t[1..], digits, IsAsciiDigit);
    assert t[1 + |digits|] == ']';
    MatchCountLeading(NumberedMatch, "[" + digits + "]", rest, t);
  }

  /** Three numbered citations in a row make the numbered style reported. */
  lemma ThreeNumberedCitations(a: string, b: string, c: string, rest: string, text: string)
    requires a != [] && AllDigits(a) && b != [] && AllDigits(b) && c != [] && AllDigits(c)
    requires text == "[" + a + "]" + ("[" + b + "]" + ("[" + c + "]" + rest))
    ensures StylePattern(CitationStyles[1]) in CitationPatterns(text)
  {
    NumberedCitation(c, rest, "[" + c + "]" + rest);
    NumberedCitation(b, "[" + c + "]" + rest, "[" + b + "]" + ("[" + c + "]" + rest));
    NumberedCitation(a, "[" + b + "]" + ("[" + c + "]" + rest), text);
    CitationStyleFound(text, 1);
  }

  // ---------------------------------------------------------------------------
  // Methodology terms, compared without accents

  predicate IsCombiningMark(c: char) { '\U{300}' <= c <= '\U{36f}' }

  /** The base letter of a precomposed Latin-1 letter (the first character of
    * its canonical decomposition); other characters are their own base. */
  function BaseLetter(c: char): (b: char)
    ensures c < '\U{80}' ==> b == c
  {
    if '\U{e0}' <= c <= '\U{e5}' then 'a'
    else if c == '\U{e7}' then 'c'
    else if '\U{e8}' <= c <= '\U{eb}' then 'e'
    else if '\U{ec}' <= c <= '\U{ef}' then 'i'
    else if c == '\U{f1}' then 'n'
    else if '\U{f2}' <= c <= '\U{f6}' then 'o'
    else if '\U{f9}' <= c <= '\U{fc}' then 'u'
    else if c == '\U{fd}' || c == '\U{ff}' then 'y'
    else if '\U{c0}' <= c <= '\U{c5}' then 'A'
    else if c == '\U{c7}' then 'C'
    else if '\U{c8}' <= c <= '\U{cb}' then 'E'
    else if '\U{cc}' <= c <= '\U{cf}' then 'I'
    else if c == '\U{d1}' then 'N'
    else if '\U{d2}' <= c <= '\U{d6}' then 'O'
    else if '\U{d9}' <= c <= '\U{dc}' then 'U'
    else if c == '\U{dd}' then 'Y'
    else c
  }

  /** `normalize("NFD")` followed by removing the combining marks U+0300 to U+036F. */
  function Unaccent(s: string): (r: string)
    ensures |r| <= |s|
  {
    if s == [] then []
    else (if IsCombiningMark(s[0]) then [] else [BaseLetter(s[0])]) + Unaccent(s[1..])
  }

  lemma {:induction false} UnaccentAppend(a: string, b: string)
    ensures Unaccent(a + b) == Unaccent(a) + Unaccent(b)
    decreases |a|
  {
    if a != [] {
      assert (a + b)[0] == a[0] && (a + b)[1..] == a[1..] + b;
      UnaccentAppend(a[1..], b);
    } else {
      assert a + b == b;
    }
  }

  /** What a stretch of text becomes without accents occurs in the whole text without accents. */
  lemma UnaccentKeepsInfix(before: string, mid: string, after: string)
    ensures Contains(Unaccent(before + mid + after), Unaccent(mid))
  {
    UnaccentAppend(before + mid, after);
    UnaccentAppend(before, mid);
    var u := Unaccent(before + mid + after);
    var t := Unaccent(mid);
    var i := |Unaccent(before)|;
    assert u[i..i + |t|] == t;
    assert OccursAt(u, t, i);
  }

  predicate IsAscii(c: char) { c < '\U{80}' }

  lemma {:induction false} UnaccentAscii(s: string)
    requires AllChars(s, IsAscii)
    ensures Unaccent(s) == s
    decreases |s|
  {
    if s != [] {
      UnaccentAscii(s[1..]);
      assert [s[0]] + s[1..] == s;
    }
  }

  const MethodologyTerms: seq<string> := [
    "pesquisa qualitativa", "pesquisa quantitativa", "estudo de caso", "pesquisa exploratoria",
    "pesquisa descritiva", "analise de conteudo", "entrevista", "questionario",
    "observacao participante", "revisao sistematica"]

  function TermPattern(term: string): ExtractedPattern
  {
    ExtractedPattern("Metodologia: " + term, "Documento utiliza " + term, term, "CONTENT", Some("methodology"), None)
  }

  /** Both the term and the lower-cased text are stripped of accents. */
  predicate TermOccurs(normalizedText: string, term: string)
  {
    Contains(normalizedText, Unaccent(term))
  }

  function TermHits(normalizedText: string): string -> seq<ExtractedPattern>
  {
    term => if TermOccurs(normalizedText, term) then [TermPattern(term)] else []
  }

  function MethodologyPatterns(text: string): seq<ExtractedPattern>
  {
    Emitted(MethodologyTerms, TermHits(Unaccent(Lower(text))))
  }

  /** The loop over the terms. */
  method FindTerms(terms: seq<string>, lowerText: string) returns (patterns: seq<ExtractedPattern>)
    ensures patterns == Emitted(terms, TermHits(Unaccent(lowerText)))
  {
    patterns := [];
    for k := 0 to |terms|
      invariant patterns == Emitted(terms[..k], TermHits(Unaccent(lowerText)))
    {
      var term := terms[k];
      var normalizedTerm := Unaccent(term);
      var normalizedText := Unaccent(lowerText);
      if Contains(normalizedText, normalizedTerm) {
        patterns := patterns + [TermPattern(term)];
      }
      EmittedAppend(terms[..k], term, TermHits(Unaccent(lowerText)));
      assert terms[..k + 1] == terms[..k] + [term];
    }
    assert terms[..|terms|] == terms;
  }

  /** `detectMethodologyTerms`. */
  method DetectMethodologyTerms(text: string) returns (patterns: seq<ExtractedPattern>)
    ensures patterns == MethodologyPatterns(text)
  {
    var lowerText := Lower(text);
    patterns := FindTerms(MethodologyTerms, lowerText);
  }

  /** A term of the list is reported exactly when the accent-free text contains it. */
  lemma TermFound(terms: seq<string>, normalizedText: string, k: nat)
    requires k < |terms|
    ensures TermPattern(terms[k]) in Emitted(terms, TermHits(normalizedText)) <==>
      Contains(normalizedText, Unaccent(terms[k]))
  {
    var f := TermHits(normalizedText);
    var p := TermPattern(terms[k]);
    EmittedMember(terms, f, p);
    if p in Emitted(terms, f) {
      var j :| 0 <= j < |terms| && p in f(terms[j]);
      assert TermPattern(terms[j]).pattern == terms[k];
    } else {
      assert p !in f(terms[k]);
    }
  }

  lemma MethodologyTermFound(text: string, k: nat)
    requires k < |MethodologyTerms|
    ensures TermPattern(MethodologyTerms[k]) in MethodologyPatterns(text) <==>
      Contains(Unaccent(Lower(text)), Unaccent(MethodologyTerms[k]))
  {
    TermFound(MethodologyTerms, Unaccent(Lower(text)), k);
  }

  /** An accented spelling of a term in the text (`questionário`) reports that term. */
  lemma AccentedTermFound(text: string, k: nat, before: string, accented: string, after: string)
    requires k < |MethodologyTerms|
    requires Lower(text) == before + accented + after && Unaccent(accented) == Unaccent(MethodologyTerms[k])
    ensures TermPattern(MethodologyTerms[k]) in MethodologyPatterns(text)
  {
    UnaccentKeepsInfix(before, accented, after);
    MethodologyTermFound(text, k);
  }

  // ---------------------------------------------------------------------------
  // All detectors

  function Extracted(text: string): seq<ExtractedPattern>
  {
    SectionPatterns(text) + AcademicPatterns(text) + CitationPatterns(text) + MethodologyPatterns(text)
  }

  /** `extractPatternsFromText`. */
  method ExtractPatternsFromText(text: string) returns (patterns: seq<ExtractedPattern>)
    ensures patterns == Extracted(text)
  {
    var sectionPatterns := DetectSectionStructure(text);
    var phrasePatterns := DetectAcademicPhrases(text);
    var citationPatterns := DetectCitationPatterns(text);
    var methodPatterns := DetectMethodologyTerms(text);
    patterns := sectionPatterns + phrasePatterns + citationPatterns + methodPatterns;
  }

  predicate Accepted(p: ExtractedPattern) { p.category in Categories && p.severity.None? }

  predicate OfCategory(p: ExtractedPattern, category: string) { p.category == category && p.severity.None? }

  lemma SectionShape(hs: seq<string>, mapping: seq<(string, string)>)
    ensures |Emitted(hs, HeadingPatterns(mapping))| <= |hs|
    ensures forall p :: p in Emitted(hs, HeadingPatterns(mapping)) ==> OfCategory(p, "STRUCTURE")
  {
    var f := HeadingPatterns(mapping);
    assert forall h :: |f(h)| <= 1;
    EmittedBound(hs, f);
    EmittedAll(hs, f, p => OfCategory(p, "STRUCTURE"));
  }

  lemma PhraseShape(phrases: seq<(string, string)>, lowerText: string)
    ensures |Emitted(phrases, PhraseHits(lowerText))| <= |phrases|
    ensures forall p :: p in Emitted(phrases, PhraseHits(lowerText)) ==> OfCategory(p, "CONTENT")
  {
    var f := PhraseHits(lowerText);
    assert forall x :: |f(x)| <= 1;
    EmittedBound(phrases, f);
    EmittedAll(phrases, f, p => OfCategory(p, "CONTENT"));
  }

  lemma CitationShape(styles: seq<CitationStyle>, text: string)
    ensures |Emitted(styles, StyleHits(text))| <= |styles|
    ensures forall p :: p in Emitted(styles, StyleHits(text)) ==> OfCategory(p, "CITATION")
  {
    var f := StyleHits(text);
    assert forall x :: |f(x)| <= 1;
    EmittedBound(styles, f);
    EmittedAll(styles, f, p => OfCategory(p, "CITATION"));
  }

  lemma TermShape(terms: seq<string>, normalizedText: string)
    ensures |Emitted(terms, TermHits(normalizedText))| <= |terms|
    ensures forall p :: p in Emitted(terms, TermHits(normalizedText)) ==> OfCategory(p, "CONTENT")
  {
    var f := TermHits(normalizedText);
    assert forall x :: |f(x)| <= 1;
    EmittedBound(terms, f);
    EmittedAll(terms, f, p => OfCategory(p, "CONTENT"));
  }

  /** The detectors yield at most one pattern per heading, phrase, style and
    * term, each with a category the rule store accepts and no severity. */
  lemma ExtractedShape(text: string)
    ensures |Extracted(text)| <= |Headers(text)| + |AcademicPhrases| + |CitationStyles| + |MethodologyTerms|
    ensures forall p :: p in Extracted(text) ==> Accepted(p)
  {
    var a, b, c, d := SectionPatterns(text), AcademicPatterns(text), CitationPatterns(text), MethodologyPatterns(text);
    SectionShape(Headers(text), SectionMapping);
    PhraseShape(AcademicPhrases, Lower(text));
    CitationShape(CitationStyles, text);
    TermShape(MethodologyTerms, Unaccent(Lower(text)));
    assert "STRUCTURE" in Categories && "CONTENT" in Categories && "CITATION" in Categories;
    forall p | p in a + b + c + d
      ensures Accepted(p)
    {
      assert p in a || p in b || p in c || p in d;
    }
  }

  lemma {:induction false} EmittedAll<T>(xs: seq<T>, f: T -> seq<ExtractedPattern>, good: ExtractedPattern -> bool)
    requires forall x, p :: p in f(x) ==> good(p)
    ensures forall p :: p in Emitted(xs, f) ==> good(p)
  {
    if xs != [] { EmittedAll(xs[1..], f, good); }
  }

  // ---------------------------------------------------------------------------
  // Rules returned by the language model

  /** One element of the model's `rules` array; `None` is a missing or null field. */
  datatype RawRule = RawRule(
    name: Option<string>, description: Option<string>, pattern: Option<string>, category: Option<string>,
    section: Option<string>, severity: Option<string>, example: Option<string>)

  /** JavaScript truthiness of a string field. */
  predicate Truthy(v: Option<string>) { v.Some? && v.value != "" }

  function OrElse(v: Option<string>, d: string): (r: string)
    ensures Truthy(v) ==> r == v.value
    ensures !Truthy(v) ==> r == d
  {
    if Truthy(v) then v.value else d
  }

  /** `s.slice(0, n)`. */
  function Prefix(s: string, n: nat): (r: string)
    ensures |r| <= n && |r| <= |s| && r == s[..|r|]
    ensures |s| <= n ==> r == s
    ensures |s| > n ==> |r| == n
  {
    if |s| <= n then s else s[..n]
  }

  predicate Kept(r: RawRule) { Truthy(r.name) && Truthy(r.pattern) }

  function Sanitized(r: RawRule): ExtractedPattern
    requires Kept(r)
  {
    ExtractedPattern(
      Prefix(r.name.value, 100),
      Prefix(OrElse(r.description, r.name.value), 500)
        + (if Truthy(r.example) then "\n\nExemplo: \"" + r.example.value + "\"" else ""),
      Prefix(r.pattern.value, 300),
      if r.category.Some? && r.category.value in Categories then r.category.value else "CUSTOM",
      if Truthy(r.section) then r.section else None,
      Some(OrElse(r.severity, "INFO")))
  }

  /** The filter and map applied to the model's rules. */
  function SanitizedRules(rs: seq<RawRule>): (out: seq<ExtractedPattern>)
    ensures |out| <= |rs|
  {
    if rs == [] then []
    else (if Kept(rs[0]) then [Sanitized(rs[0])] else []) + SanitizedRules(rs[1..])
  }

  /** Every sanitised rule has a non-empty name of at most 100 characters, a
    * non-empty pattern of at most 300, an accepted category and a severity. */
  lemma SanitizedShape(r: RawRule)
    requires Kept(r)
    ensures var p := Sanitized(r);
      0 < |p.name| <= 100 && StartsWith(r.name.value, p.name) &&
      0 < |p.pattern| <= 300 && StartsWith(r.pattern.value, p.pattern) &&
      p.category in Categories && p.severity.Some? && p.severity.value != "" &&
      (p.section.Some? ==> p.section.value != "")
  {
  }

  /** The description is the given one, or the name, cut to 500 characters,
    * followed by the example when there is one. */
  lemma SanitizedDescription(r: RawRule)
    requires Kept(r)
    ensures var d := Sanitized(r).description;
      var lead := Prefix(if Truthy(r.description) then r.description.value else r.name.value, 500);
      |lead| <= 500 && StartsWith(d, lead) &&
      (Truthy(r.example) <==> |d| > |lead|)
  {
  }

  /** The kept rules, in their order, are exactly the sanitised results. */
  lemma {:induction false} SanitizedRulesMember(rs: seq<RawRule>, p: ExtractedPattern)
    ensures p in SanitizedRules(rs) <==> exists i :: 0 <= i < |rs| && Kept(rs[i]) && p == Sanitized(rs[i])
  {
    if rs != [] {
      SanitizedRulesMember(rs[1..], p);
      assert forall i :: 1 <= i < |rs| ==> rs[1..][i - 1] == rs[i];
    }
  }

  lemma {:induction false} SanitizedRulesAppend(a: seq<RawRule>, b: seq<RawRule>)
    ensures SanitizedRules(a + b) == SanitizedRules(a) + SanitizedRules(b)
  {
    if a != [] {
      assert (a + b)[0] == a[0] && (a + b)[1..] == a[1..] + b;
      SanitizedRulesAppend(a[1..], b);
    } else {
      assert a + b == b;
    }
  }

  // ---------------------------------------------------------------------------
  // The upload

  /** A rule stored for a pattern: always of severity INFO and weight 1. */
  datatype CreatedRule = CreatedRule(
    name: string, description: string, category: string, pattern: string,
    section: Option<string>, severity: string, weight: nat)

  function RuleFor(p: ExtractedPattern): CreatedRule
  {
    CreatedRule(p.name, p.description, p.category, p.pattern, p.section, "INFO", 1)
  }

  function RulesFor(ps: seq<ExtractedPattern>): (rules: seq<CreatedRule>)
    ensures |rules| == |ps|
  {
    if ps == [] then [] else [RuleFor(ps[0])] + RulesFor(ps[1..])
  }

  /** The loop creating one rule per pattern. */
  method CreateRules(patterns: seq<ExtractedPattern>) returns (rules: seq<CreatedRule>)
    ensures rules == RulesFor(patterns)
  {
    rules := [];
    for i := 0 to |patterns|
      invariant rules == RulesFor(patterns[..i])
    {
      RulesForAppend(patterns[..i], patterns[i]);
      assert patterns[..i + 1] == patterns[..i] + [patterns[i]];
      rules := rules + [RuleFor(patterns[i])];
    }
    assert patterns[..|patterns|] == patterns;
  }

  lemma {:induction false} RulesForAppend(ps: seq<ExtractedPattern>, p: ExtractedPattern)
    ensures RulesFor(ps + [p]) == RulesFor(ps) + [RuleFor(p)]
  {
    if ps != [] {
      assert (ps + [p])[1..] == ps[1..] + [p];
      RulesForAppend(ps[1..], p);
    }
  }

  /** Each rule copies its pattern's name, description, category, pattern
    * and section, with severity INFO and weight 1. */
  lemma {:induction false} RulesMirrorPatterns(ps: seq<ExtractedPattern>, i: nat)
    requires i < |ps|
    ensures RulesFor(ps)[i] == CreatedRule(ps[i].name, ps[i].description, ps[i].category, ps[i].pattern, ps[i].section, "INFO", 1)
  {
    if i > 0 { RulesMirrorPatterns(ps[1..], i - 1); }
  }

  datatype UploadResult =
    | Rejected(error: string)
    | Stored(name: string, extractedText: string, patterns: seq<ExtractedPattern>, rules: seq<CreatedRule>, message: string)

  /** The upload of `fileName`: `decoded` is the file read as UTF-8, `pdfText`
    * the text layer of a PDF (`None` when extraction fails), `llmRules` the
    * model's rules (`None` when no key is configured or the request, or the
    * parsing of its answer, fails: the regular-expression detectors run instead). */
  function Upload(fileName: string, decoded: string, pdfText: Option<string>, llmRules: Option<seq<RawRule>>): UploadResult
  {
    if !HasValidExtension(fileName) then
      Rejected("Invalid file type \"" + fileName + "\". Allowed: .txt, .md, .pdf, .docx")
    else
      var content := ExtractedContent(fileName, decoded, pdfText);
      var patterns :=
        if !HasContent(content) then []
        else match llmRules
          case Some(rs) => SanitizedRules(rs)
          case None => Extracted(content);
      var rules := RulesFor(patterns);
      Stored(DisplayName(fileName), content, patterns, rules,
        if HasContent(content) then NatToString(|rules|) + " regras de estilo extra\U{ed}das do documento."
        else "Arquivo enviado, mas n\U{e3}o foi poss\U{ed}vel extrair texto.")
  }

  /** Only files with an accepted extension are stored; stored files get one
    * rule per pattern, and no patterns at all when their text is not analysable. */
  lemma UploadOutcome(fileName: string, decoded: string, pdfText: Option<string>, llmRules: Option<seq<RawRule>>)
    ensures var u := Upload(fileName, decoded, pdfText, llmRules);
      (u.Rejected? <==> !HasValidExtension(fileName)) &&
      (u.Stored? ==>
        |u.rules| == |u.patterns| && u.name == DisplayName(fileName) &&
        (!HasContent(u.extractedText) ==>
          u.patterns == [] && u.message == "Arquivo enviado, mas n\U{e3}o foi poss\U{ed}vel extrair texto."))
  {
  }

  /** Without a language model the regular-expression detectors decide the
    * patterns, whose categories all pass the whitelist the model's answers are held to. */
  lemma FallbackPatterns(fileName: string, decoded: string, pdfText: Option<string>)
    requires HasValidExtension(fileName) && HasContent(ExtractedContent(fileName, decoded, pdfText))
    ensures var u := Upload(fileName, decoded, pdfText, None);
      u.patterns == Extracted(u.extractedText) &&
      forall p :: p in u.patterns ==> p.category in Categories
  {
    ExtractedShape(ExtractedContent(fileName, decoded, pdfText));
  }

  /** Word documents get no rules, whatever the model would answer. */
  lemma WordFilesGetNoRules(fileName: string, decoded: string, pdfText: Option<string>, llmRules: Option<seq<RawRule>>)
    requires EndsWith(Lower(fileName), ".docx")
    ensures var u := Upload(fileName, decoded, pdfText, llmRules);
      u.Stored? && u.rules == [] && u.extractedText == DocxPlaceholder
  {
    ExtensionOfSuffix(fileName, ".docx");
    assert AllowedExtensions[3] == ".docx";
    MarkersNotAnalysed(fileName, decoded, pdfText);
  }
}
