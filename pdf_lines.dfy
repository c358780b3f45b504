/** `markdownToLines` of `src/lib/pdf-generator.ts`: every line of a
  * Markdown text becomes one styled line of the PDF. */
module PdfLines {
  import opened Strings
  import opened Scan
  import opened JsPatterns

  datatype Style = Normal | H1 | H2 | H3 | ListItem

  datatype Line = Line(text: string, style: Style)

  // ---------------------------------------------------------------------------
  // The five replacements of a paragraph line

  // The bold pattern, two stars, a lazy group and two stars, with `$1`.
  function BoldAt(s: string): Option<Hit>
  {
    if StartsWith(s, "**") then
      match Lazy(s[2..], "**")
      case Some(k) => Some(Hit(k + 4, s[2..2 + k], []))
      case None => None
    else None
  }

  /** A span delimited by one character `c` on each side, `c(.+?)c`. */
  function Delimited(c: char, s: string): Option<Hit>
  {
    if s != [] && s[0] == c then
      match Lazy(s[1..], [c])
      case Some(k) => Some(Hit(k + 2, s[1..1 + k], []))
      case None => None
    else None
  }

  function ItalicAt(s: string): Option<Hit> { Delimited('*', s) }

  function CodeAt(s: string): Option<Hit> { Delimited('`', s) }

  /** `/\[(.+?)\]\(.+?\)/g` with `$1`. The first `](` the group can reach is
    * the one the match uses: a later one leaves fewer characters for the
    * target and meets the same line terminators. */
  function LinkAt(s: string): Option<Hit>
  {
    if s != [] && s[0] == '[' then
      match Lazy(s[1..], "](")
      case None => None
      case Some(k) =>
        match Lazy(s[k + 3..], ")")
        case None => None
        case Some(m) => Some(Hit(k + m + 4, s[1..1 + k], []))
    else None
  }

  /** `/\[@.+?\]/g` with `[ref]`. */
  function CiteAt(s: string): Option<Hit>
  {
    if StartsWith(s, "[@") then
      match Lazy(s[2..], "]")
      case Some(k) => Some(Hit(k + 3, "[ref]", []))
      case None => None
    else None
  }

  /** The markers of a paragraph line removed, in the order of the source:
    * bold, italic, code, links, then citations. */
  function Unmark(t: string): string
  {
    Sub(Sub(Sub(Sub(Sub(t, BoldAt).out, ItalicAt).out, CodeAt).out, LinkAt).out, CiteAt).out
  }

  // ---------------------------------------------------------------------------
  // One line

  /** `^\d+\.\s`: digits, a dot, and a blank. */
  predicate NumberedItem(t: string)
  {
    var d := TakeWhile(t, IsAsciiDigit);
    d != [] && |d| + 2 <= |t| && t[|d|] == '.' && IsJsSpace(t[|d| + 1])
  }

  /** The bullet as the source writes it: the UTF-8 bytes of "•" read as
    * Windows-1252, after two spaces. */
  const Bullet: string := "  â€¢ "

  /** The entry of one line once trimmed. */
  function Entry(t: string): Line
  {
    if t == [] then Line("", Normal)
    else if StartsWith(t, "### ") then Line(t[4..], H3)
    else if StartsWith(t, "## ") then Line(t[3..], H2)
    else if StartsWith(t, "# ") then Line(t[2..], H1)
    else if NumberedItem(t) then Line("  " + t, ListItem)
    else if StartsWith(t, "- ") || StartsWith(t, "* ") then Line(Bullet + t[2..], ListItem)
    else Line(Unmark(t), Normal)
  }

  /** The entry of one raw line. */
  function LineOf(line: string): Line
  {
    Entry(JsTrim(line))
  }

  /** `markdownToLines`: one entry per line of the text, in order. */
  method MarkdownToLines(markdown: string) returns (lines: seq<Line>)
    ensures var raw := Split(markdown, '\n');
      |lines| == |raw| && forall i :: 0 <= i < |raw| ==> lines[i] == LineOf(raw[i])
  {
    lines := LinesLoop(Split(markdown, '\n'), JsTrim);
  }

  /** The loop over the raw lines, with the trimming of the source. */
  method LinesLoop(raw: seq<string>, trim: string -> string) returns (lines: seq<Line>)
    ensures lines == LinesOf(raw, trim)
  {
    lines := [];
    for i := 0 to |raw|
      invariant lines == LinesOf(raw[..i], trim)
    {
      assert raw[..i + 1][..i] == raw[..i];
      lines := lines + [Entry(trim(raw[i]))];
    }
    assert raw[..|raw|] == raw;
  }

  /** The entries of the raw lines, one each and in order. */
  function LinesOf(raw: seq<string>, trim: string -> string): (r: seq<Line>)
    ensures |r| == |raw| && forall i :: 0 <= i < |raw| ==> r[i] == Entry(trim(raw[i]))
  {
    if raw == [] then [] else LinesOf(raw[..|raw| - 1], trim) + [Entry(trim(raw[|raw| - 1]))]
  }

  // ---------------------------------------------------------------------------
  // Properties

  /** A blank line becomes an empty normal line. */
  lemma BlankLine(line: string)
    requires forall i :: 0 <= i < |line| ==> IsJsSpace(line[i])
    ensures LineOf(line) == Line("", Normal)
  {
    StripAllBlank(line, IsJsSpace);
  }

  /** Headers are tried from the deepest: a line is a level-n header exactly
    * when it starts with n hashes and a space, and loses that prefix. */
  lemma Headers(line: string)
    ensures var t := JsTrim(line);
      (StartsWith(t, "### ") ==> LineOf(line) == Line(t[4..], H3)) &&
      (StartsWith(t, "## ") ==> LineOf(line) == Line(t[3..], H2)) &&
      (StartsWith(t, "# ") ==> LineOf(line) == Line(t[2..], H1)) &&
      (LineOf(line).style in {H1, H2, H3} ==> StartsWith(t, "# ") || StartsWith(t, "## ") || StartsWith(t, "### "))
  {
    HeaderEntry(JsTrim(line));
  }

  lemma HeaderEntry(t: string)
    ensures StartsWith(t, "### ") ==> Entry(t) == Line(t[4..], H3)
    ensures StartsWith(t, "## ") ==> Entry(t) == Line(t[3..], H2)
    ensures StartsWith(t, "# ") ==> Entry(t) == Line(t[2..], H1)
    ensures Entry(t).style in {H1, H2, H3} ==> StartsWith(t, "# ") || StartsWith(t, "## ") || StartsWith(t, "### ")
  {
    if StartsWith(t, "## ") {
      assert t[2] == ' ';
      assert !StartsWith(t, "### ");
    }
    if StartsWith(t, "# ") {
      assert t[1] == ' ';
      assert !StartsWith(t, "### ") && !StartsWith(t, "## ");
    }
  }

  /** Four or more hashes make no header: such a line is a paragraph. */
  lemma DeepHeaderIsParagraph(line: string)
    requires StartsWith(JsTrim(line), "####")
    ensures LineOf(line).style == Normal
  {
    DeepHeaderEntry(JsTrim(line));
  }

  lemma DeepHeaderEntry(t: string)
    requires StartsWith(t, "####")
    ensures Entry(t).style == Normal
  {
    assert t[..4] == "####";
    assert t[3] == '#' && t[2] == '#' && t[1] == '#' && t[0] == '#';
    assert !StartsWith(t, "### ") && !StartsWith(t, "## ") && !StartsWith(t, "# ");
    assert TakeWhile(t, IsAsciiDigit) == [] by {
      assert !IsAsciiDigit(t[0]);
    }
    assert !StartsWith(t, "- ") && !StartsWith(t, "* ");
  }

  /** A numbered item keeps its whole trimmed text after two spaces; a
    * bullet item loses its marker and gets the bullet. */
  lemma ListItems(line: string)
    ensures var t := JsTrim(line);
      t != [] && t[0] != '#' && NumberedItem(t) ==> LineOf(line) == Line("  " + t, ListItem)
    ensures var t := JsTrim(line);
      StartsWith(t, "- ") ==> LineOf(line) == Line(Bullet + t[2..], ListItem)
  {
    var t := JsTrim(line);
    NumberedEntry(t);
    if StartsWith(t, "- ") {
      BulletEntry(t);
    }
  }

  lemma NumberedEntry(t: string)
    ensures t != [] && t[0] != '#' && NumberedItem(t) ==> Entry(t) == Line("  " + t, ListItem)
  {
  }

  lemma BulletEntry(t: string)
    requires StartsWith(t, "- ")
    ensures Entry(t) == Line(Bullet + t[2..], ListItem)
  {
    assert t[0] == '-';
    assert !StartsWith(t, "### ") && !StartsWith(t, "## ") && !StartsWith(t, "# ");
    assert TakeWhile(t, IsAsciiDigit) == [] by {
      assert !IsAsciiDigit(t[0]);
    }
  }

  /** A replacement whose marker character is absent leaves a text as it is. */
  lemma SubWithout(s: string, at: string -> Option<Hit>, c: char)
    requires c !in s
    requires forall t :: at(t).Some? ==> t != [] && t[0] == c
    ensures Sub(s, at) == Subbed(s, [])
  {
    forall i | 0 <= i < |s| ensures at(s[i..]).None? {
      assert s[i..][0] == s[i];
    }
    SubNoMatch(s, at);
  }

  /** A paragraph with no `*`, backquote or `[` is printed as written. */
  lemma PlainParagraph(t: string)
    requires '*' !in t && '`' !in t && '[' !in t
    ensures Unmark(t) == t
  {
    assert Sub(t, BoldAt).out == t by { StarLeads(); SubWithout(t, BoldAt, '*'); }
    assert Sub(t, ItalicAt).out == t by { StarLeads(); SubWithout(t, ItalicAt, '*'); }
    assert Sub(t, CodeAt).out == t by { BackquoteLeads(); SubWithout(t, CodeAt, '`'); }
    assert Sub(t, LinkAt).out == t by { BracketLeads(); SubWithout(t, LinkAt, '['); }
    assert Sub(t, CiteAt).out == t by { BracketLeads(); SubWithout(t, CiteAt, '['); }
  }

  lemma StarLeads()
    ensures forall t :: BoldAt(t).Some? ==> t != [] && t[0] == '*'
    ensures forall t :: ItalicAt(t).Some? ==> t != [] && t[0] == '*'
  {
  }

  lemma BackquoteLeads()
    ensures forall t :: CodeAt(t).Some? ==> t != [] && t[0] == '`'
  {
  }

  lemma BracketLeads()
    ensures forall t :: LinkAt(t).Some? ==> t != [] && t[0] == '['
    ensures forall t :: CiteAt(t).Some? ==> t != [] && t[0] == '['
  {
  }

  /** A bold word is unwrapped by the bold replacement. */
  lemma BoldWord(w: string)
    requires w != [] && '*' !in w && DotsOnly(w, |w|)
    ensures Sub("**" + w + "**", BoldAt) == Subbed(w, [])
  {
    var s := "**" + w + "**";
    assert s[2..] == w + "**";
    assert s[2..2 + |w|] == w;
    LazyBold(w);
    assert BoldAt(s) == Some(Hit(|s|, w, []));
    assert s[|s|..] == [];
    assert w + "" == w;
  }

  lemma LazyBold(w: string)
    requires w != [] && '*' !in w && DotsOnly(w, |w|)
    ensures Lazy(w + "**", "**") == Some(|w|)
  {
    var t := w + "**";
    assert t[|w|..] == "**";
    assert DotsOnly(t, |w|) by {
      forall j | 0 <= j < |w| ensures t[j] == w[j] { }
    }
    forall j | 1 <= j < |w| ensures !StartsWith(t[j..], "**") {
      assert t[j..][0] == w[j];
    }
  }
}
