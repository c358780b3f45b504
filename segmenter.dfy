/** The block segmenter of the converter (`process_latex_structure` and the
  * helpers it calls in `core/scripts/Latex2word.py`): the text is stripped of
  * commands Word has no use for, cut into blocks at blank lines, and each
  * block becomes a numbered heading, a table, or a styled paragraph. */
module Segmenter {
  import opened Strings
  import opened Scan
  import opened LatexClean
  import opened Tokenizer
  import opened Docx
  import opened Inline
  import opened Tables
  import BibStore

  // ---------------------------------------------------------------------------
  // remove_latex_commands

  predicate NotCloseBracket(c: char) { c != ']' }

  /** `lead[^}]*\}` at the start of `s`: the length of the match. */
  function BracedLen(lead: string, s: string): (r: Option<nat>)
    ensures r.Some? ==> StartsWith(s, lead) && |lead| < r.value <= |s|
  {
    if !StartsWith(s, lead) then None
    else
      var g := TakeWhile(s[|lead|..], BibStore.NotCloseBrace);
      var e := |lead| + |g|;
      if e < |s| && s[e] == '}' then Some(e + 1) else None
  }

  /** `\\dictum\[[^\]]*\]\{[^}]*\}` at the start of `s`. */
  function DictumLen(s: string): (r: Option<nat>)
    ensures r.Some? ==> StartsWith(s, "\\dictum[") && 0 < r.value <= |s|
  {
    var lead := "\\dictum[";
    if !StartsWith(s, lead) then None
    else
      var g := TakeWhile(s[|lead|..], NotCloseBracket);
      var e := |lead| + |g|;
      if e < |s| && s[e] == ']' then
        match BracedLen("{", s[e + 1..])
        case Some(n) => Some(e + 1 + n)
        case None => None
      else None
  }

  /** `\\vskip\s+\d+\w*` at the start of `s`: at least one blank, then a
    * run of word characters that starts with a digit. */
  function VskipLen(s: string): (r: Option<nat>)
    ensures r.Some? ==> StartsWith(s, "\\vskip") && 0 < r.value <= |s|
  {
    var lead := "\\vskip";
    if !StartsWith(s, lead) then None
    else
      var sp := TakeWhile(s[|lead|..], IsPySpace);
      var e := |lead| + |sp|;
      if sp != [] && e < |s| && IsAsciiDigit(s[e]) then Some(e + |TakeWhile(s[e..], BibStore.IsPyWordChar)|)
      else None
  }

  /** A match that is deleted. */
  function Erase(n: Option<nat>): (h: Option<Hit>)
    ensures h.Some? <==> n.Some?
    ensures h.Some? ==> h.value == Hit(n.value, "", [])
  {
    match n
    case Some(k) => Some(Hit(k, "", []))
    case None => None
  }

  function DictumAt(s: string): Option<Hit> { Erase(DictumLen(s)) }
  function VskipAt(s: string): Option<Hit> { Erase(VskipLen(s)) }
  function RequirePackageAt(s: string): Option<Hit> { Erase(BracedLen("\\RequirePackage{", s)) }
  function FrenchSpacingAt(s: string): Option<Hit> { LiteralAt("\\frenchspacing", "", s) }
  function RaggedBottomAt(s: string): Option<Hit> { LiteralAt("\\raggedbottom", "", s) }
  function BeginAt(s: string): Option<Hit> { Erase(BracedLen("\\begin{", s)) }
  function EndAt(s: string): Option<Hit> { Erase(BracedLen("\\end{", s)) }

  /** `remove_latex_commands`: the patterns deleted in turn, so that an
    * environment's `\begin{..}` and `\end{..}` are gone before any block is
    * looked at. */
  function RemoveLatexCommands(s: string): string
  {
    var s1 := Sub(s, DictumAt).out;
    var s2 := Sub(s1, VskipAt).out;
    var s3 := Sub(s2, RequirePackageAt).out;
    var s4 := Sub(s3, FrenchSpacingAt).out;
    var s5 := Sub(s4, RaggedBottomAt).out;
    var s6 := Sub(s5, BeginAt).out;
    Sub(s6, EndAt).out
  }

  /** A matcher that matches only at a backslash and deletes what it
    * matches. */
  ghost predicate OnBackslash(at: string -> Option<Hit>)
  {
    forall t :: at(t).Some? ==> t != [] && t[0] == '\\' && at(t).value.repl == []
  }

  /** A text that starts with `lead` starts with its first character. */
  lemma LeadChar(t: string, lead: string)
    requires lead != [] && StartsWith(t, lead)
    ensures t != [] && t[0] == lead[0]
  {
    assert t[..|lead|][0] == t[0];
  }

  lemma DictumOnBackslash() ensures OnBackslash(DictumAt)
  {
    forall t | DictumAt(t).Some? ensures t != [] && t[0] == '\\' { LeadChar(t, "\\dictum["); }
  }

  lemma VskipOnBackslash() ensures OnBackslash(VskipAt)
  {
    forall t | VskipAt(t).Some? ensures t != [] && t[0] == '\\' { LeadChar(t, "\\vskip"); }
  }

  lemma RequirePackageOnBackslash() ensures OnBackslash(RequirePackageAt)
  {
    forall t | RequirePackageAt(t).Some? ensures t != [] && t[0] == '\\' { LeadChar(t, "\\RequirePackage{"); }
  }

  lemma FrenchSpacingOnBackslash() ensures OnBackslash(FrenchSpacingAt)
  {
    forall t | FrenchSpacingAt(t).Some? ensures t != [] && t[0] == '\\' { LeadChar(t, "\\frenchspacing"); }
  }

  lemma RaggedBottomOnBackslash() ensures OnBackslash(RaggedBottomAt)
  {
    forall t | RaggedBottomAt(t).Some? ensures t != [] && t[0] == '\\' { LeadChar(t, "\\raggedbottom"); }
  }

  lemma BeginOnBackslash() ensures OnBackslash(BeginAt)
  {
    forall t | BeginAt(t).Some? ensures t != [] && t[0] == '\\' { LeadChar(t, "\\begin{"); }
  }

  lemma EndOnBackslash() ensures OnBackslash(EndAt)
  {
    forall t | EndAt(t).Some? ensures t != [] && t[0] == '\\' { LeadChar(t, "\\end{"); }
  }

  /** The scan copies a prefix free of backslashes unchanged. */
  lemma {:induction false} QuietPrefix(a: string, t: string, at: string -> Option<Hit>)
    requires OnBackslash(at) && '\\' !in a
    ensures Sub(a + t, at).out == a + Sub(t, at).out
    decreases |a|
  {
    if a != [] {
      assert (a + t)[0] == a[0];
      assert (a + t)[1..] == a[1..] + t;
      QuietPrefix(a[1..], t, at);
    } else {
      assert a + t == t;
    }
  }

  lemma NoBackslashSub(s: string, at: string -> Option<Hit>)
    requires OnBackslash(at) && '\\' !in s
    ensures Sub(s, at).out == s
  {
    QuietPrefix(s, [], at);
    assert s + [] == s;
  }

  /** A pattern that does not fire at a backslash lets the scan step over it. */
  lemma StepOver(t: string, at: string -> Option<Hit>)
    requires t != [] && at(t).None?
    ensures Sub(t, at).out == [t[0]] + Sub(t[1..], at).out
  {
  }

  /** Text without a backslash is left as it is. */
  lemma NoBackslashKept(s: string)
    requires '\\' !in s
    ensures RemoveLatexCommands(s) == s
  {
    DictumOnBackslash();
    VskipOnBackslash();
    RequirePackageOnBackslash();
    FrenchSpacingOnBackslash();
    RaggedBottomOnBackslash();
    BeginOnBackslash();
    EndOnBackslash();
    NoBackslashSub(s, DictumAt);
    NoBackslashSub(s, VskipAt);
    NoBackslashSub(s, RequirePackageAt);
    NoBackslashSub(s, FrenchSpacingAt);
    NoBackslashSub(s, RaggedBottomAt);
    NoBackslashSub(s, BeginAt);
    NoBackslashSub(s, EndAt);
  }

  lemma SecondChar(t: string, lead: string)
    requires |lead| >= 2 && StartsWith(t, lead)
    ensures |t| >= 2 && t[1] == lead[1]
  {
    assert t[..|lead|][1] == t[1];
  }

  /** None of the first five patterns fires at `\\b` or `\\e`. */
  lemma DictumQuiet(t: string)
    requires |t| >= 2 && (t[1] == 'b' || t[1] == 'e')
    ensures DictumAt(t).None?
  {
    if StartsWith(t, "\\dictum[") { SecondChar(t, "\\dictum["); }
  }

  lemma VskipQuiet(t: string)
    requires |t| >= 2 && (t[1] == 'b' || t[1] == 'e')
    ensures VskipAt(t).None?
  {
    if StartsWith(t, "\\vskip") { SecondChar(t, "\\vskip"); }
  }

  lemma RequirePackageQuiet(t: string)
    requires |t| >= 2 && (t[1] == 'b' || t[1] == 'e')
    ensures RequirePackageAt(t).None?
  {
    if StartsWith(t, "\\RequirePackage{") { SecondChar(t, "\\RequirePackage{"); }
  }

  lemma FrenchSpacingQuiet(t: string)
    requires |t| >= 2 && (t[1] == 'b' || t[1] == 'e')
    ensures FrenchSpacingAt(t).None?
  {
    if StartsWith(t, "\\frenchspacing") { SecondChar(t, "\\frenchspacing"); }
  }

  lemma RaggedBottomQuiet(t: string)
    requires |t| >= 2 && (t[1] == 'b' || t[1] == 'e')
    ensures RaggedBottomAt(t).None?
  {
    if StartsWith(t, "\\raggedbottom") { SecondChar(t, "\\raggedbottom"); }
  }

  /** `\begin{` does not fire at `\e`. */
  lemma BeginQuiet(t: string)
    requires |t| >= 2 && t[1] == 'e'
    ensures BeginAt(t).None?
  {
    if StartsWith(t, "\\begin{") { SecondChar(t, "\\begin{"); }
  }

  /** `\begin{name}` and `\end{name}`. */
  function BeginMarker(name: string): string { "\\begin{" + name + "}" }

  function EndMarker(name: string): string { "\\end{" + name + "}" }

  /** A backslash, then a letter, then no backslash. */
  predicate Marker(m: string, letter: char)
  {
    |m| >= 2 && m[0] == '\\' && m[1] == letter && '\\' !in m[1..]
  }

  lemma MarkersShape(name: string)
    requires '\\' !in name
    ensures Marker(BeginMarker(name), 'b') && Marker(EndMarker(name), 'e')
  {
    assert BeginMarker(name)[1..] == "begin{" + name + "}";
    assert EndMarker(name)[1..] == "end{" + name + "}";
  }

  /** A marker at which the pattern does not fire is copied. */
  lemma MarkerKept(m: string, r: string, at: string -> Option<Hit>)
    requires OnBackslash(at) && m != [] && '\\' !in m[1..] && at(m + r).None?
    ensures Sub(m + r, at).out == m + Sub(r, at).out
  {
    StepOver(m + r, at);
    assert (m + r)[1..] == m[1..] + r;
    QuietPrefix(m[1..], r, at);
    ConsSplit(m, Sub(r, at).out);
  }

  lemma ConsSplit<T>(m: seq<T>, x: seq<T>)
    requires m != []
    ensures [m[0]] + (m[1..] + x) == m + x
  {
    assert [m[0]] + m[1..] == m;
  }

  /** A text holding two markers, at which the pattern does not fire, comes
    * through the scan unchanged. */
  lemma TwoQuiet(a: string, beginM: string, b: string, endM: string, c: string, at: string -> Option<Hit>)
    requires OnBackslash(at) && '\\' !in a && '\\' !in b && '\\' !in c
    requires beginM != [] && '\\' !in beginM[1..] && endM != [] && '\\' !in endM[1..]
    requires at(beginM + (b + (endM + c))).None? && at(endM + c).None?
    ensures Sub(a + beginM + b + endM + c, at).out == a + beginM + b + endM + c
  {
    NoBackslashSub(c, at);
    MarkerKept(endM, c, at);
    QuietPrefix(b, endM + c, at);
    MarkerKept(beginM, b + (endM + c), at);
    QuietPrefix(a, beginM + (b + (endM + c)), at);
    Regroup(a, beginM, b, endM, c);
  }

  /** `lead[^}]*\}` matches exactly through the first closing brace. */
  lemma BracedFront(lead: string, n: string, r: string)
    requires '}' !in n
    ensures BracedLen(lead, lead + n + "}" + r) == Some(|lead| + |n| + 1)
  {
    var s := lead + n + "}" + r;
    assert s[..|lead|] == lead;
    assert s[|lead|..] == n + ['}'] + r;
    TakeWhileStops(n, '}', r, BibStore.NotCloseBrace);
    assert s[|lead| + |n|] == '}';
  }

  lemma BeginFront(name: string, r: string)
    requires '}' !in name
    ensures BeginAt(BeginMarker(name) + r) == Some(Hit(|BeginMarker(name)|, "", []))
  {
    BracedFront("\\begin{", name, r);
  }

  lemma EndFront(name: string, r: string)
    requires '}' !in name
    ensures EndAt(EndMarker(name) + r) == Some(Hit(|EndMarker(name)|, "", []))
  {
    BracedFront("\\end{", name, r);
  }

  /** A match at the front is deleted and the scan resumes after it. */
  lemma DeleteFront(m: string, y: string, at: string -> Option<Hit>)
    requires m != [] && at(m + y) == Some(Hit(|m|, "", []))
    ensures Sub(m + y, at).out == Sub(y, at).out
  {
    SubFront(m + y, at);
    assert (m + y)[|m|..] == y;
  }

  /** The first five patterns leave an environment's markers alone. */
  lemma FirstFiveKeep(a: string, name: string, b: string, c: string)
    requires '\\' !in a && '\\' !in name && '\\' !in b && '\\' !in c
    ensures var s := a + BeginMarker(name) + b + EndMarker(name) + c;
      Sub(Sub(Sub(Sub(Sub(s, DictumAt).out, VskipAt).out, RequirePackageAt).out, FrenchSpacingAt).out, RaggedBottomAt).out == s
  {
    var bm := BeginMarker(name);
    var em := EndMarker(name);
    MarkersShape(name);
    var t1 := bm + (b + (em + c));
    var t2 := em + c;
    assert t1[1] == 'b' && t2[1] == 'e';
    DictumQuiet(t1); VskipQuiet(t1); RequirePackageQuiet(t1); FrenchSpacingQuiet(t1); RaggedBottomQuiet(t1);
    DictumQuiet(t2); VskipQuiet(t2); RequirePackageQuiet(t2); FrenchSpacingQuiet(t2); RaggedBottomQuiet(t2);
    DictumOnBackslash();
    VskipOnBackslash();
    RequirePackageOnBackslash();
    FrenchSpacingOnBackslash();
    RaggedBottomOnBackslash();
    TwoQuiet(a, bm, b, em, c, DictumAt);
    TwoQuiet(a, bm, b, em, c, VskipAt);
    TwoQuiet(a, bm, b, em, c, RequirePackageAt);
    TwoQuiet(a, bm, b, em, c, FrenchSpacingAt);
    TwoQuiet(a, bm, b, em, c, RaggedBottomAt);
  }

  /** The `\begin{..}` pass deletes the opening marker and steps over the
    * closing one. */
  lemma BeginPass(a: string, name: string, b: string, c: string)
    requires '\\' !in a && '\\' !in name && '\\' !in b && '\\' !in c && '}' !in name
    ensures Sub(a + BeginMarker(name) + b + EndMarker(name) + c, BeginAt).out == a + b + EndMarker(name) + c
  {
    var bm := BeginMarker(name);
    var em := EndMarker(name);
    MarkersShape(name);
    BeginOnBackslash();
    var r := b + (em + c);
    assert Sub(r, BeginAt).out == r by {
      BeginQuiet(em + c);
      NoBackslashSub(c, BeginAt);
      MarkerKept(em, c, BeginAt);
      QuietPrefix(b, em + c, BeginAt);
    }
    BeginFront(name, r);
    DeleteFront(bm, r, BeginAt);
    QuietPrefix(a, bm + r, BeginAt);
    Regroup(a, bm, b, em, c);
    Regroup4(a, b, em, c);
  }

  /** The `\end{..}` pass deletes the closing marker. */
  lemma EndPass(a: string, name: string, c: string)
    requires '\\' !in a && '\\' !in c && '}' !in name
    ensures Sub(a + EndMarker(name) + c, EndAt).out == a + c
  {
    var em := EndMarker(name);
    EndOnBackslash();
    EndFront(name, c);
    DeleteFront(em, c, EndAt);
    NoBackslashSub(c, EndAt);
    QuietPrefix(a, em + c, EndAt);
    assert a + em + c == a + (em + c);
  }

  /** An environment in text without other commands loses its `\begin{..}`
    * and `\end{..}` markers and keeps its body. */
  lemma EnvironmentRemoved(a: string, name: string, b: string, c: string)
    requires '\\' !in a && '\\' !in name && '\\' !in b && '\\' !in c && '}' !in name
    ensures RemoveLatexCommands(a + BeginMarker(name) + b + EndMarker(name) + c) == a + b + c
  {
    FirstFiveKeep(a, name, b, c);
    BeginPass(a, name, b, c);
    EndPass(a + b, name, c);
  }

  // ---------------------------------------------------------------------------
  // Blocks

  /** `\n\s*\n` at the start of `s`: from a line break through the last line
    * break of the blank run that follows, when the run holds two; 0 when
    * there is no match. */
  function ParaBreakLen(s: string): (n: nat)
    ensures n <= |s|
  {
    if s != [] && s[0] == '\n' then
      var w := TakeWhile(s, IsPySpace);
      if Count(w, '\n') >= 2 then EndOfLast(w, '\n') else 0
    else 0
  }

  /** `re.split(r'\n\s*\n', ...)` of the text once commands are removed. */
  function Blocks(content: string): (bs: seq<string>)
    ensures |bs| >= 1
  {
    SplitBy(RemoveLatexCommands(content), ParaBreakLen)
  }

  // ---------------------------------------------------------------------------
  // Headings

  /** `lead([^}]+)\}` at the start of `s`: the group and the length. */
  function CommandAt(lead: string, s: string): (r: Option<(string, nat)>)
    ensures r.Some? ==> r.value.0 != [] && '}' !in r.value.0
    ensures r.Some? ==> r.value.1 == |lead| + |r.value.0| + 1 <= |s| && s[..r.value.1] == lead + r.value.0 + "}"
  {
    if !StartsWith(s, lead) then None
    else
      var g := TakeWhile(s[|lead|..], BibStore.NotCloseBrace);
      var e := |lead| + |g|;
      if g != [] && e < |s| && s[e] == '}' then
        assert s[..e + 1] == s[..|lead|] + s[|lead|..e] + [s[e]];
        Some((g, e + 1))
      else None
  }

  function ChapterAt(s: string): Option<(string, nat)> { CommandAt("\\chapter{", s) }

  function ParagraphAt(s: string): Option<(string, nat)> { CommandAt("\\paragraph{", s) }

  /** How many times `sub` repeats at the start of `s`. */
  function SubDepth(s: string): (n: nat)
    ensures 3 * n <= |s|
    decreases |s|
  {
    if StartsWith(s, "sub") then 1 + SubDepth(s[3..]) else 0
  }

  /** `\\((?:sub)*)section\{([^}]+)\}` at the start of `s`: the title and
    * the length; the number of `sub`s is `SubDepth(s[1..])`. */
  function SectionAt(s: string): (r: Option<(string, nat)>)
    ensures r.Some? ==> r.value.0 != [] && s != [] && s[0] == '\\'
  {
    if s == [] || s[0] != '\\' then None
    else
      var d := SubDepth(s[1..]);
      match CommandAt("section{", s[1 + 3 * d..])
      case Some((g, n)) => Some((g, 1 + 3 * d + n))
      case None => None
  }

  /** The deleting form of a heading pattern, for `re.sub(pattern, '', ...)`. */
  function Eraser(at: string -> Option<(string, nat)>): string -> Option<Hit>
  {
    t => match at(t) case Some((g, n)) => Some(Hit(n, "", [])) case None => None
  }

  /** What is left of a block once every heading command of one kind is
    * deleted, stripped. */
  function Remaining(para: string, at: string -> Option<(string, nat)>): string
  {
    PyStrip(Sub(para, Eraser(at)).out)
  }

  /** The heading command of a block: a chapter, else a section of some
    * depth, else a `\paragraph`, each the leftmost of its kind. */
  datatype Head = ChapterHead(title: string) | SectionHead(depth: nat, title: string) | ParagraphHead(title: string) | NoHead

  function HeadOf(para: string): Head
  {
    match Find(para, ChapterAt)
    case Some((_, t, _)) => ChapterHead(t)
    case None =>
      match Find(para, SectionAt)
      case Some((i, t, _)) => SectionHead(SubDepth(para[i + 1..]), t)
      case None =>
        match Find(para, ParagraphAt)
        case Some((_, t, _)) => ParagraphHead(t)
        case None => NoHead
  }

  // ---------------------------------------------------------------------------
  // Numbering

  /** `section_counters`. */
  datatype Counters = Counters(chapter: nat, section: nat, subsection: nat, subsubsection: nat)

  const Start: Counters := Counters(0, 0, 0, 0)

  /** `'sub' * depth + 'section'`. */
  function SectionType(depth: nat): (t: string)
    ensures |t| == 7 + 3 * depth
    decreases depth
  {
    if depth == 0 then "section" else "sub" + SectionType(depth - 1)
  }

  /** `determine_heading_level`. */
  function HeadingLevel(sectionType: string): (level: nat)
    ensures level <= 4
    ensures sectionType == "chapter" <==> level == 0
  {
    if sectionType == "chapter" then 0
    else if sectionType == "section" then 1
    else if sectionType == "subsection" then 2
    else if sectionType == "subsubsection" then 3
    else if sectionType == "paragraph" then 4
    else 1
  }

  function HeadingStyle(level: nat): string
  {
    "Heading " + NatToString(level)
  }

  /** The counters after a section heading of the given depth, and its
    * number: `c.s` for a section, `c.s.ss` for a subsection, none deeper. */
  function Numbered(c: Counters, depth: nat): (r: (Counters, string))
    ensures depth == 0 ==> r.0 == Counters(c.chapter, c.section + 1, 0, c.subsubsection)
    ensures depth == 1 ==> r.0 == Counters(c.chapter, c.section, c.subsection + 1, c.subsubsection)
    ensures depth >= 2 ==> r.0 == c && r.1 == ""
    ensures depth <= 1 <==> r.1 != ""
  {
    if depth == 0 then
      var n := c.(section := c.section + 1, subsection := 0);
      (n, NatToString(n.chapter) + "." + NatToString(n.section))
    else if depth == 1 then
      var n := c.(subsection := c.subsection + 1);
      (n, NatToString(n.chapter) + "." + NatToString(n.section) + "." + NatToString(n.subsection))
    else (c, "")
  }

  /** The counters after a chapter heading: only the section count is reset. */
  function ChapterStep(c: Counters): (n: Counters)
    ensures n == Counters(c.chapter + 1, 0, c.subsection, c.subsubsection)
  {
    c.(chapter := c.chapter + 1, section := 0)
  }

  function ChapterTitle(n: nat, title: string): string
  {
    "Capítulo " + NatToString(n) + ": " + title
  }

  // ---------------------------------------------------------------------------
  // Classification of a block

  /** The patterns of the skip list: a block that contains any of them is
    * dropped. They are searched anywhere, so `\include` also drops a block
    * that holds `\includegraphics`. */
  const SkipPatterns: seq<string> := [
    "\\documentclass", "\\usepackage", "\\newcommand", "\\renewcommand",
    "\\def", "\\let", "\\begin{document}", "\\end{document}",
    "\\input{", "\\include", "\\frenchspacing", "\\raggedbottom",
    "\\selectlanguage", "\\pagenumbering", "\\pagestyle",
    "\\cleardoublepage", "\\thispagestyle", "\\togglecommentblocks",
    "\\pagecolor", "\\nopagecolor", "\\addbibresource", "\\appendix",
    "\\bookmarksetup"]

  predicate Skipped(para: string)
  {
    exists i :: 0 <= i < |SkipPatterns| && Contains(para, SkipPatterns[i])
  }

  /** `is_definition_paragraph`: one of the phrases, in any case. */
  const DefinitionPhrases: seq<string> :=
    ["define-se", "definimos", "conceito de", "entende-se por", "considera-se", "compreende-se"]

  /** `is_list_paragraph`. */
  const ListPhrases: seq<string> :=
    ["são elas:", "incluem:", "destacam-se:", "principais são:", "podem ser:", "dividem-se em:"]

  /** A phrase, written in lower case, found in the text while ignoring case. */
  predicate HasPhrase(text: string, phrases: seq<string>)
  {
    exists i :: 0 <= i < |phrases| && Contains(Lower(text), phrases[i])
  }

  /** The environments `contains_table` and `process_paragraph_with_table`
    * look for. */
  const TableEnvNames: seq<string> := ["table", "tabular", "longtable", "array"]

  /** `&.*&.*\\\\` within one line: two ampersands and then a double
    * backslash. */
  predicate Signature(l: string)
  {
    AmpersandsThen(l, "\\\\")
  }

  /** Two ampersands and then `p`, found from the leftmost ampersands. */
  predicate AmpersandsThen(l: string, p: string)
  {
    match IndexOfChar(l, '&')
    case None => false
    case Some(i) =>
      match IndexOfChar(l[i + 1..], '&')
      case None => false
      case Some(j) => Contains(l[i + j + 2..], p)
  }

  /** `contains_table`: an environment opened in the text, or a line with
    * the row signature (`.` does not match a line break). */
  predicate ContainsTable(text: string)
  {
    (exists i :: 0 <= i < |TableEnvNames| && Contains(text, BeginMarker(TableEnvNames[i])))
    || (exists j :: 0 <= j < |Split(text, '\n')| && Signature(Split(text, '\n')[j]))
  }

  // ---------------------------------------------------------------------------
  // process_paragraph_with_table

  /** `\\begin\{name\}.*?\\end\{name\}` with `.` matching line breaks, at the
    * start of `s`: through the first `\end{name}` after the opening. */
  function EnvLen(name: string, s: string): (r: Option<nat>)
    ensures r.Some? ==> StartsWith(s, BeginMarker(name)) && |BeginMarker(name)| < r.value <= |s|
  {
    var b := BeginMarker(name);
    if !StartsWith(s, b) then None
    else
      match IndexOf(s[|b|..], EndMarker(name))
      case None => None
      case Some(k) => Some(|b| + k + |EndMarker(name)|)
  }

  /** Whether every span lies within a text of length `n`. */
  predicate InBounds(ms: seq<(nat, nat)>, n: nat)
  {
    forall k :: 0 <= k < |ms| ==> ms[k].0 < ms[k].1 <= n
  }

  lemma InBoundsTail(ms: seq<(nat, nat)>, n: nat)
    requires ms != [] && InBounds(ms, n)
    ensures InBounds(ms[1..], n)
  {
    assert forall k :: 0 <= k < |ms| - 1 ==> ms[1..][k] == ms[k + 1];
  }

  /** `re.finditer` from position `i`: the spans of the leftmost
    * non-overlapping matches, in order. */
  function MatchesFrom(name: string, s: string, i: nat): (ms: seq<(nat, nat)>)
    requires i <= |s|
    ensures InBounds(ms, |s|)
    ensures forall k :: 0 <= k < |ms| ==> i <= ms[k].0 && OccursAt(s, BeginMarker(name), ms[k].0)
    ensures forall k :: 0 <= k < |ms| - 1 ==> ms[k].1 <= ms[k + 1].0
    decreases |s| - i
  {
    if i == |s| then []
    else
      match EnvLen(name, s[i..])
      case Some(n) =>
        assert s[i..][..|BeginMarker(name)|] == s[i..i + |BeginMarker(name)|];
        [(i, i + n)] + MatchesFrom(name, s, i + n)
      case None => MatchesFrom(name, s, i + 1)
  }

  /** Python's `r[:k]` and `r[k:]`, which clamp `k` to the length. */
  function Take(r: string, k: nat): (t: string)
    ensures |t| <= |r| && t == r[..|t|]
    ensures |t| == if k <= |r| then k else |r|
  {
    if k <= |r| then r[..k] else r
  }

  function Drop(r: string, k: nat): (t: string)
    ensures t == if k <= |r| then r[k..] else []
  {
    if k <= |r| then r[k..] else []
  }

  /** A table environment: `process_table`, and `process_simple_table_data`
    * when that finds no row. */
  function TableOrSimple(clean: string -> Subbed, content: string): Out
  {
    var (ok, o) := ProcessTable(clean, content);
    if ok then o else Then(o, ProcessSimpleTable(clean, content))
  }

  /** The inner loop over the matches of one pattern. The spans were found
    * in `base`, the text at the start of the pattern loop, but are applied to
    * `r`, the text as it has been cut so far; the table itself is always
    * taken from `base`. */
  function RunMatches(clean: string -> Subbed, base: string, ms: seq<(nat, nat)>, r: string): (res: (string, Out))
    requires InBounds(ms, |base|)
    decreases |ms|
  {
    if ms == [] then (r, Nothing)
    else
      var (st, en) := ms[0];
      var before := FormattedParagraph(clean, PyStrip(Take(r, st)), "Normal");
      var table := TableOrSimple(clean, base[st..en]);
      InBoundsTail(ms, |base|);
      var rest := RunMatches(clean, base, ms[1..], PyStrip(Drop(r, en)));
      (rest.0, Then(Then(before, table), rest.1))
  }

  /** The outer loop over the four environment patterns. */
  function EnvLoop(clean: string -> Subbed, names: seq<string>, r: string): (res: (string, Out))
    decreases |names|
  {
    if names == [] then (r, Nothing)
    else
      var ms := MatchesFrom(names[0], r, 0);
      var first := RunMatches(clean, r, ms, r);
      var rest := EnvLoop(clean, names[1..], first.0);
      (rest.0, Then(first.1, rest.1))
  }

  /** `process_paragraph_with_table`: the text before each table as a Normal
    * paragraph, the table, and what is left at the end. */
  function ParagraphWithTable(clean: string -> Subbed, text: string): Out
  {
    var (r, o) := EnvLoop(clean, TableEnvNames, text);
    Then(o, FormattedParagraph(clean, r, "Normal"))
  }

  // ---------------------------------------------------------------------------
  // process_latex_structure

  /** The body of a block without a heading: a table, a definition, a list, an
    * informal table or a plain paragraph, tested in that order. */
  function BodyOut(clean: string -> Subbed, para: string): Out
  {
    if ContainsTable(para) then ParagraphWithTable(clean, para)
    else if HasPhrase(para, DefinitionPhrases) then FormattedParagraph(clean, para, "Definition")
    else if HasPhrase(para, ListPhrases) then FormattedParagraph(clean, para, "Normal")
    else if IsInformalTable(para) then ProcessInformalTable(clean, para)
    else FormattedParagraph(clean, para, "Normal")
  }

  /** The heading of a block once it is stripped; comments and empty blocks
    * have none. */
  function BlockHead(block: string): Head
  {
    var para := PyStrip(block);
    if para == [] || para[0] == '%' then NoHead else HeadOf(para)
  }

  function SectionTitle(num: string, title: string): string
  {
    if num != [] then num + " " + title else title
  }

  /** A chapter heading: the new chapter count in the title, then the rest
    * of the block without its chapter commands. */
  function ChapterOut(clean: string -> Subbed, c: Counters, t: string, rest: string): (r: (Counters, Out))
    ensures r.0 == ChapterStep(c)
  {
    var n := ChapterStep(c);
    (n, Then(FormattedParagraph(clean, ChapterTitle(n.chapter, t), "Chapter"),
             FormattedParagraph(clean, rest, "Normal")))
  }

  /** A section heading of the given depth, numbered while it is a section or
    * a subsection, then the rest of the block. */
  function SectionOut(clean: string -> Subbed, c: Counters, d: nat, t: string, rest: string): (r: (Counters, Out))
    ensures r.0 == Numbered(c, d).0
  {
    var (n, num) := Numbered(c, d);
    (n, Then(FormattedParagraph(clean, SectionTitle(num, t), HeadingStyle(HeadingLevel(SectionType(d)))),
             FormattedParagraph(clean, rest, "Normal")))
  }

  /** A `\paragraph` heading: its title in Heading 4, then the rest. */
  function ParagraphOut(clean: string -> Subbed, t: string, rest: string): Out
  {
    Then(FormattedParagraph(clean, t, "Heading 4"), FormattedParagraph(clean, rest, "Normal"))
  }

  /** A block without a heading: dropped when it matches a skip pattern. */
  function PlainOut(clean: string -> Subbed, para: string): Out
  {
    if Skipped(para) then Nothing else BodyOut(clean, para)
  }

  /** One block of `process_latex_structure`: the counters after it and
    * what it appends. */
  function BlockOut(clean: string -> Subbed, c: Counters, block: string): (r: (Counters, Out))
    ensures BlockHead(block).ChapterHead? ==> r.0 == ChapterStep(c)
    ensures BlockHead(block).SectionHead? ==> r.0 == Numbered(c, BlockHead(block).depth).0
    ensures BlockHead(block).ParagraphHead? || BlockHead(block).NoHead? ==> r.0 == c
  {
    var para := PyStrip(block);
    if para == [] || para[0] == '%' then (c, Nothing)
    else
      match HeadOf(para)
      case ChapterHead(t) => ChapterOut(clean, c, t, Remaining(para, ChapterAt))
      case SectionHead(d, t) => SectionOut(clean, c, d, t, Remaining(para, SectionAt))
      case ParagraphHead(t) => (c, ParagraphOut(clean, t, Remaining(para, ParagraphAt)))
      case NoHead => (c, PlainOut(clean, para))
  }

  /** The blocks in order, the counters threaded through them. */
  function Structure(clean: string -> Subbed, c: Counters, blocks: seq<string>): (r: (Counters, Out))
    decreases |blocks|
  {
    if blocks == [] then (c, Nothing)
    else
      var first := Structure(clean, c, blocks[..|blocks| - 1]);
      var last := BlockOut(clean, first.0, blocks[|blocks| - 1]);
      (last.0, Then(first.1, last.1))
  }

  /** `process_latex_structure` on a text, from the given counters. */
  function ProcessLatexStructure(clean: string -> Subbed, c: Counters, content: string): (Counters, Out)
  {
    Structure(clean, c, Blocks(content))
  }

  // ---------------------------------------------------------------------------
  // Properties of the classification and of the block loop

  /** Section, subsection and subsubsection are levels 1 to 3; a deeper
    * `(sub)*section` is not in the level map and falls back to level 1. */
  lemma SectionLevels(d: nat)
    ensures HeadingLevel(SectionType(d)) == if d <= 2 then d + 1 else 1
  {
    if d == 1 {
      assert SectionType(1) == "subsection";
    } else if d == 2 {
      assert SectionType(1) == "subsection";
      assert SectionType(2) == "subsubsection";
    }
  }

  lemma OccursInside(a: string, p: string, q: string, b: string)
    ensures OccursAt(a + (p + q) + b, p, |a|)
  {
    assert (a + (p + q) + b)[|a|..|a| + |p|] == p;
  }

  /** The skip patterns are found anywhere: `\include` also drops every
    * block that holds an `\includegraphics`. */
  lemma IncludeGraphicsSkipped(a: string, b: string)
    ensures Skipped(a + "\\includegraphics" + b)
  {
    assert "\\includegraphics" == SkipPatterns[9] + "graphics";
    OccursInside(a, SkipPatterns[9], "graphics", b);
  }

  lemma ContainsLater(s: string, a: nat, b: nat, p: string)
    requires a <= b <= |s| && Contains(s[b..], p)
    ensures Contains(s[a..], p)
  {
    var k :| 0 <= k <= |s[b..]| && OccursAt(s[b..], p, k);
    assert s[a..][b - a + k..b - a + k + |p|] == s[b..][k..k + |p|];
    assert OccursAt(s[a..], p, b - a + k);
  }

  lemma AmpersandsFound(l: string, p: string)
    requires AmpersandsThen(l, p)
    ensures exists i, j :: 0 <= i < j < |l| && l[i] == '&' && l[j] == '&' && Contains(l[j + 1..], p)
  {
    var i := IndexOfChar(l, '&').value;
    var j := IndexOfChar(l[i + 1..], '&').value;
    assert l[i + 1..][j] == l[i + j + 1];
    assert l[i + j + 2..] == l[(i + j + 1) + 1..];
  }

  lemma AmpersandsAt(l: string, p: string, i: nat, j: nat)
    requires i < j < |l| && l[i] == '&' && l[j] == '&' && Contains(l[j + 1..], p)
    ensures AmpersandsThen(l, p)
  {
    var i0 := IndexOfChar(l, '&').value;
    assert l[i0 + 1..][j - i0 - 1] == '&';
    var j0 := IndexOfChar(l[i0 + 1..], '&').value;
    ContainsLater(l, i0 + j0 + 2, j + 1, p);
  }

  /** The signature test, written with the positions it finds: two ampersands
    * and then the pattern, in that order. */
  lemma AmpersandsThenIff(l: string, p: string)
    ensures AmpersandsThen(l, p) <==> exists i, j :: 0 <= i < j < |l| && l[i] == '&' && l[j] == '&' && Contains(l[j + 1..], p)
  {
    if AmpersandsThen(l, p) {
      AmpersandsFound(l, p);
    }
    if exists i, j :: 0 <= i < j < |l| && l[i] == '&' && l[j] == '&' && Contains(l[j + 1..], p) {
      var i, j :| 0 <= i < j < |l| && l[i] == '&' && l[j] == '&' && Contains(l[j + 1..], p);
      AmpersandsAt(l, p, i, j);
    }
  }

  /** A span is found only where the text opens the environment. */
  lemma MatchesOpen(name: string, s: string)
    ensures MatchesFrom(name, s, 0) != [] ==> Contains(s, BeginMarker(name))
  {
    var ms := MatchesFrom(name, s, 0);
    if ms != [] {
      assert OccursAt(s, BeginMarker(name), ms[0].0);
    }
  }

  lemma {:induction false} EnvLoopQuiet(clean: string -> Subbed, names: seq<string>, r: string)
    requires forall i :: 0 <= i < |names| ==> !Contains(r, BeginMarker(names[i]))
    ensures EnvLoop(clean, names, r) == (r, Nothing)
    decreases |names|
  {
    if names != [] {
      MatchesOpen(names[0], r);
      EnvLoopQuiet(clean, names[1..], r);
    }
  }

  /** Without an opened table environment, `process_paragraph_with_table`
    * adds the whole text as one Normal paragraph. */
  lemma NoEnvironmentPlain(clean: string -> Subbed, text: string)
    requires forall i :: 0 <= i < |TableEnvNames| ==> !Contains(text, BeginMarker(TableEnvNames[i]))
    ensures ParagraphWithTable(clean, text) == FormattedParagraph(clean, text, "Normal")
  {
    EnvLoopQuiet(clean, TableEnvNames, text);
    var o := FormattedParagraph(clean, text, "Normal");
    assert [] + o.blocks == o.blocks && [] + o.keys == o.keys;
  }

  /** The environment tests see the block after the commands were removed,
    * so a block that reaches the table route through the row signature alone
    * comes out as one Normal paragraph, rows and all. */
  lemma SignatureRouteIsNormal(clean: string -> Subbed, para: string)
    requires !Skipped(para)
    requires exists j :: 0 <= j < |Split(para, '\n')| && Signature(Split(para, '\n')[j])
    requires forall i :: 0 <= i < |TableEnvNames| ==> !Contains(para, BeginMarker(TableEnvNames[i]))
    ensures PlainOut(clean, para) == FormattedParagraph(clean, para, "Normal")
  {
    assert ContainsTable(para);
    NoEnvironmentPlain(clean, para);
  }

  lemma ChapterTitleNotBlank(n: nat, t: string)
    ensures PyStrip(ChapterTitle(n, t)) != []
  {
    var title := ChapterTitle(n, t);
    assert title[0] == 'C';
    StripNonBlankChar(title, IsPySpace, 0);
  }

  /** What a heading appends: its title in the given style, then the rest. */
  lemma HeadingFirst(clean: string -> Subbed, title: string, style: string, rest: string)
    requires PyStrip(title) != []
    ensures Then(FormattedParagraph(clean, title, style), FormattedParagraph(clean, rest, "Normal")).blocks
         == [Paragraph(style, InlineFormatting(clean, title).runs)] + FormattedParagraph(clean, rest, "Normal").blocks
  {
  }

  /** A chapter heading is announced as `Capítulo n: title` in the Chapter
    * style, `n` being the new chapter count, before the rest of its block. */
  lemma ChapterBlock(clean: string -> Subbed, c: Counters, t: string, rest: string)
    ensures ChapterOut(clean, c, t, rest).0 == Counters(c.chapter + 1, 0, c.subsection, c.subsubsection)
    ensures ChapterOut(clean, c, t, rest).1.blocks
         == [Paragraph("Chapter", InlineFormatting(clean, ChapterTitle(c.chapter + 1, t)).runs)] + FormattedParagraph(clean, rest, "Normal").blocks
  {
    var n := ChapterStep(c);
    assert n.chapter == c.chapter + 1;
    var title := ChapterTitle(n.chapter, t);
    ChapterTitleNotBlank(n.chapter, t);
    HeadingFirst(clean, title, "Chapter", rest);
    assert ChapterOut(clean, c, t, rest).1
        == Then(FormattedParagraph(clean, title, "Chapter"), FormattedParagraph(clean, rest, "Normal"));
  }

  lemma NumberedNotBlank(c: Counters, d: nat, t: string)
    requires Numbered(c, d).1 != []
    ensures PyStrip(SectionTitle(Numbered(c, d).1, t)) != []
  {
    var num := Numbered(c, d).1;
    var title := SectionTitle(num, t);
    assert title[0] == num[0];
    StripNonBlankChar(title, IsPySpace, 0);
  }

  /** A section heading gets the heading style of its depth; its number is
    * there for a section and a subsection only. */
  lemma SectionBlock(clean: string -> Subbed, c: Counters, d: nat, t: string, rest: string)
    requires PyStrip(t) != []
    ensures SectionOut(clean, c, d, t, rest).1.blocks
         == [Paragraph(HeadingStyle(if d <= 2 then d + 1 else 1), InlineFormatting(clean, SectionTitle(Numbered(c, d).1, t)).runs)]
            + FormattedParagraph(clean, rest, "Normal").blocks
  {
    var num := Numbered(c, d).1;
    SectionLevels(d);
    if num != [] { NumberedNotBlank(c, d, t); }
    HeadingFirst(clean, SectionTitle(num, t), HeadingStyle(HeadingLevel(SectionType(d))), rest);
  }

  /** How many of the blocks open a chapter. */
  function CountChapters(blocks: seq<string>): (n: nat)
    ensures n <= |blocks|
    decreases |blocks|
  {
    if blocks == [] then 0
    else CountChapters(blocks[..|blocks| - 1]) + (if BlockHead(blocks[|blocks| - 1]).ChapterHead? then 1 else 0)
  }

  /** The chapter count, after the blocks, is raised by exactly the number of
    * chapter headings among them; `subsubsection` is never changed. */
  lemma {:induction false} StructureCounts(clean: string -> Subbed, c: Counters, blocks: seq<string>)
    ensures Structure(clean, c, blocks).0.chapter == c.chapter + CountChapters(blocks)
    ensures Structure(clean, c, blocks).0.subsubsection == c.subsubsection
    decreases |blocks|
  {
    if blocks != [] {
      StructureCounts(clean, c, blocks[..|blocks| - 1]);
    }
  }

  /** The blocks are processed in order: the output of a concatenation is the
    * output of the first part followed by that of the second, from the
    * counters the first part left. */
  lemma {:induction false} StructureAppend(clean: string -> Subbed, c: Counters, a: seq<string>, b: seq<string>)
    ensures var first := Structure(clean, c, a);
      var second := Structure(clean, first.0, b);
      Structure(clean, c, a + b) == (second.0, Then(first.1, second.1))
    decreases |b|
  {
    if b == [] {
      assert a + b == a;
      var o := Structure(clean, c, a).1;
      assert o.blocks + [] == o.blocks && o.keys + [] == o.keys;
    } else {
      assert (a + b)[..|a + b| - 1] == a + b[..|b| - 1];
      assert (a + b)[|a + b| - 1] == b[|b| - 1];
      StructureAppend(clean, c, a, b[..|b| - 1]);
      var first := Structure(clean, c, a);
      var mid := Structure(clean, first.0, b[..|b| - 1]);
      var last := BlockOut(clean, mid.0, b[|b| - 1]);
      ConcatAssoc(first.1.blocks, mid.1.blocks, last.1.blocks);
      ConcatAssoc(first.1.keys, mid.1.keys, last.1.keys);
    }
  }

  // ---------------------------------------------------------------------------
  // process_def_commands

  predicate NotOpenBrace(c: char) { c != '{' }

  /** `\\def\\([^{]+)\{([^}]+)\}` at the start of `s`: a name up to the first
    * `{`, then a value up to the first `}`, both non-empty. */
  function DefAt(s: string): (r: Option<(string, string, nat)>)
    ensures r.Some? ==> r.value.0 != [] && r.value.1 != [] && 5 < r.value.2 <= |s|
    ensures r.Some? ==> '{' !in r.value.0 && '}' !in r.value.1
  {
    if !StartsWith(s, "\\def\\") then None
    else
      var name := TakeWhile(s[5..], NotOpenBrace);
      var k := 5 + |name|;
      if name == [] || k >= |s| then None
      else
        var value := TakeWhile(s[k + 1..], BibStore.NotCloseBrace);
        var e := k + 1 + |value|;
        if value == [] || e >= |s| then None
        else Some((name, value, e + 1))
  }

  lemma DefShape(name: string, value: string, rest: string)
    requires name != [] && value != [] && '{' !in name && '}' !in value
    ensures DefAt("\\def\\" + name + "{" + value + "}" + rest) == Some((name, value, 7 + |name| + |value|))
  {
    var s := "\\def\\" + name + "{" + value + "}" + rest;
    assert s[..5] == "\\def\\";
    assert s[5..] == name + ['{'] + (value + "}" + rest);
    TakeWhileStops(name, '{', value + "}" + rest, NotOpenBrace);
    assert s[5 + |name| + 1..] == value + ['}'] + rest;
    TakeWhileStops(value, '}', rest, BibStore.NotCloseBrace);
  }

  /** `re.finditer` of the definition pattern from position `i`. */
  function DefsFrom(s: string, i: nat): (ds: seq<(string, string)>)
    requires i <= |s|
    decreases |s| - i
  {
    if i == |s| then []
    else
      match DefAt(s[i..])
      case Some((n, v, len)) => [(n, v)] + DefsFrom(s, i + len)
      case None => DefsFrom(s, i + 1)
  }

  /** A Python dict as its items in insertion order. */
  type Dict = seq<(string, string)>

  predicate DistinctKeys(d: Dict)
  {
    forall i, j :: 0 <= i < j < |d| ==> d[i].0 != d[j].0
  }

  function Lookup(d: Dict, k: string): Option<string>
    decreases |d|
  {
    if d == [] then None else if d[0].0 == k then Some(d[0].1) else Lookup(d[1..], k)
  }

  /** `d[k] = v`: a key already there keeps its place and takes the new
    * value; a new key goes at the end. */
  function Assign(d: Dict, k: string, v: string): (r: Dict)
    ensures DistinctKeys(d) ==> DistinctKeys(r)
    ensures forall x :: Lookup(r, x) == if x == k then Some(v) else Lookup(d, x)
    decreases |d|
  {
    if d == [] then [(k, v)]
    else if d[0].0 == k then [(k, v)] + d[1..]
    else
      var r := [d[0]] + Assign(d[1..], k, v);
      assert DistinctKeys(d) ==> DistinctKeys(r) by {
        if DistinctKeys(d) {
          assert forall x :: x != d[0].0 ==> Lookup(d[1..], x) == Lookup(d, x);
          assert Lookup(d[1..], d[0].0) == None by { NotFirstAbsent(d); }
          forall j | 1 <= j < |r| ensures r[0].0 != r[j].0 {
            LookupFinds(r[1..], j - 1);
          }
        }
      }
      assert forall x :: Lookup(r, x) == if x == d[0].0 then Some(d[0].1) else Lookup(r[1..], x);
      r
  }

  lemma {:induction false} NotFirstAbsent(d: Dict)
    requires d != [] && DistinctKeys(d)
    ensures Lookup(d[1..], d[0].0) == None
  {
    KeyAbsent(d[1..], d[0].0);
  }

  lemma {:induction false} KeyAbsent(d: Dict, k: string)
    requires forall i :: 0 <= i < |d| ==> d[i].0 != k
    ensures Lookup(d, k) == None
    decreases |d|
  {
    if d != [] {
      KeyAbsent(d[1..], k);
    }
  }

  lemma {:induction false} LookupFinds(d: Dict, i: nat)
    requires i < |d|
    ensures Lookup(d, d[i].0).Some?
    decreases |d|
  {
    if i > 0 && d[0].0 != d[i].0 {
      LookupFinds(d[1..], i - 1);
    }
  }

  /** The definitions, collected in a dict in the order found. */
  function DictOf(ds: seq<(string, string)>): (d: Dict)
    ensures DistinctKeys(d)
    decreases |ds|
  {
    if ds == [] then [] else Assign(DictOf(ds[..|ds| - 1]), ds[|ds| - 1].0, ds[|ds| - 1].1)
  }

  /** A later definition of a name wins: the dict holds the value of the last
    * one, and no value for a name never defined. */
  lemma {:induction false} LastDefinitionWins(ds: seq<(string, string)>, k: string, i: nat)
    requires i < |ds| && ds[i].0 == k
    requires forall j :: i < j < |ds| ==> ds[j].0 != k
    ensures Lookup(DictOf(ds), k) == Some(ds[i].1)
    decreases |ds|
  {
    if i < |ds| - 1 {
      LastDefinitionWins(ds[..|ds| - 1], k, i);
    }
  }

  lemma {:induction false} NeverDefined(ds: seq<(string, string)>, k: string)
    requires forall j :: 0 <= j < |ds| ==> ds[j].0 != k
    ensures Lookup(DictOf(ds), k) == None
    decreases |ds|
  {
    if ds != [] {
      NeverDefined(ds[..|ds| - 1], k);
    }
  }

  /** The replacements in the dict's order, each on the text the previous
    * ones left: `content.replace('\\' + name, value)`. */
  function ApplyDefs(content: string, d: Dict): string
    decreases |d|
  {
    if d == [] then content else ApplyDefs(ReplaceAll(content, ['\\'] + d[0].0, d[0].1), d[1..])
  }

  /** `process_def_commands`. */
  function ProcessDefCommands(content: string): string
  {
    ApplyDefs(content, DictOf(DefsFrom(content, 0)))
  }

  /** The replacement is a plain substring one: the name of `\foo` also
    * rewrites the start of `\foobar`. */
  lemma PrefixRewritten(name: string, rest: string, v: string)
    requires '\\' !in rest
    ensures ReplaceAll(['\\'] + name + rest, ['\\'] + name, v) == v + rest
  {
    var p := ['\\'] + name;
    assert (p + rest)[..|p|] == p && (p + rest)[|p|..] == rest;
    ReplaceAbsent(rest, p, v);
  }

  /** A text without a definition is left as it is. */
  lemma {:induction false} NoDefsFrom(s: string, i: nat)
    requires i <= |s| && '\\' !in s[i..]
    ensures DefsFrom(s, i) == []
    decreases |s| - i
  {
    if i < |s| {
      assert s[i..][0] == s[i];
      assert s[i + 1..] == s[i..][1..];
      NoDefsFrom(s, i + 1);
    }
  }

  lemma NoBackslashNoDefs(s: string)
    requires '\\' !in s
    ensures ProcessDefCommands(s) == s
  {
    NoDefsFrom(s, 0);
  }
}
