/** Citation commands of the LaTeX-to-Word converter
  * (`core/scripts/Latex2word.py`): `\cite{k1, k2}` and its five variants
  * become a parenthesised `(Author, Year; ...)` text built from the loaded
  * bibliography, and every key they name is recorded. */
module Citations {
  import opened Strings
  import opened Scan
  import opened BibStore

  /** The six commands, in the order the converter rewrites them. */
  const CiteCommands: seq<string> := ["\\autocite", "\\cite", "\\textcite", "\\parencite", "\\citep", "\\citet"]

  /** The pattern `^([^(]+)\s*\((\d{4})\)` on a formatted reference: the text
    * before the first `(`, which must be non-empty, and the four digits
    * between that `(` and a `)`. */
  function AuthorYear(ref: string): (r: Option<(string, string)>)
    ensures r.Some? ==> r.value.0 != [] && '(' !in r.value.0
    ensures r.Some? ==> |r.value.1| == 4 && AllDigits(r.value.1)
    ensures r.Some? ==> |r.value.0| + 6 <= |ref| && ref == r.value.0 + "(" + r.value.1 + ")" + ref[|r.value.0| + 6..]
  {
    match IndexOfChar(ref, '(')
    case None => None
    case Some(p) =>
      if p >= 1 && p + 6 <= |ref| && AllDigits(ref[p + 1..p + 5]) && ref[p + 5] == ')' then
        assert ref == ref[..p] + "(" + ref[p + 1..p + 5] + ")" + ref[p + 6..];
        Some((ref[..p], ref[p + 1..p + 5]))
      else None
  }

  /** The short author: the text before the first comma, else the last word
    * when there are several, else the whole name. */
  function ShortAuthor(a: string): string
  {
    if ',' in a then PyStrip(Split(a, ',')[0])
    else if ' ' in a then
      var w := Words(a);
      // a stripped name with a space always has a last word
      if w == [] then a else w[|w| - 1]
    else a
  }

  function MissingMarker(key: string): string
  {
    "***MISSING_REF:" + key + "***"
  }

  /** How one key is shown: `Author, Year` for a bibliography reference that
    * starts `Author (Year)`, the key itself for any other reference, and the
    * missing marker for a key the bibliography lacks. */
  function ResolveKey(bib: map<string, string>, key: string): string
  {
    if key in bib then
      match AuthorYear(bib[key])
      case Some((a, y)) => ShortAuthor(PyStrip(a)) + ", " + y
      case None => key
    else MissingMarker(key)
  }

  /** The keys of one command's argument: split at commas, each stripped. */
  function CiteKeys(g: string): (ks: seq<string>)
    ensures |ks| == |Split(g, ',')|
    ensures forall i :: 0 <= i < |ks| ==> ks[i] == PyStrip(Split(g, ',')[i])
  {
    var parts := Split(g, ',');
    seq(|parts|, i requires 0 <= i < |parts| => PyStrip(parts[i]))
  }

  /** The text a citation command is replaced by. */
  function RenderCitation(bib: map<string, string>, g: string): string
  {
    var ks := CiteKeys(g);
    "(" + Join(seq(|ks|, i requires 0 <= i < |ks| => ResolveKey(bib, ks[i])), "; ") + ")"
  }

  /** The pattern `cmd\{([^}]+)\}` tried at the start of `s`. */
  function CiteAt(bib: map<string, string>, cmd: string, s: string): (r: Option<Hit>)
    ensures r.Some? ==> StartsWith(s, cmd + "{") && |cmd| + 3 <= r.value.len <= |s| && s[r.value.len - 1] == '}'
  {
    var open := |cmd| + 1;
    if !StartsWith(s, cmd + "{") then None
    else
      var g := TakeWhile(s[open..], NotCloseBrace);
      if g == [] || open + |g| >= |s| then None
      else Some(Hit(open + |g| + 1, RenderCitation(bib, g), CiteKeys(g)))
  }

  /** One `re.sub` pass for one command. */
  function CitePass(bib: map<string, string>, text: string, cmd: string): Subbed
  {
    Sub(text, s => CiteAt(bib, cmd, s))
  }

  /** The passes for `cmds` in order, each on the output of the previous one. */
  function CitePasses(bib: map<string, string>, text: string, cmds: seq<string>): (r: Subbed)
    decreases |cmds|
  {
    if cmds == [] then Subbed(text, [])
    else
      var first := CitePass(bib, text, cmds[0]);
      var rest := CitePasses(bib, first.out, cmds[1..]);
      Subbed(rest.out, first.keys + rest.keys)
  }

  /** `process_citations`: the rewritten text and, in order, every key met. */
  function ProcessCitations(bib: map<string, string>, text: string): Subbed
  {
    CitePasses(bib, text, CiteCommands)
  }

  // ---------------------------------------------------------------------------
  // Properties

  /** Keys are stripped and never contain a comma; there is one more key than
    * there are commas in the argument. */
  lemma CiteKeysShape(g: string)
    ensures |CiteKeys(g)| == Count(g, ',') + 1
    ensures forall i :: 0 <= i < |CiteKeys(g)| ==> ',' !in CiteKeys(g)[i] && IsStripped(CiteKeys(g)[i], IsPySpace)
  {
    SplitJoin(g, ',');
    var ks := CiteKeys(g);
    forall i | 0 <= i < |ks| ensures ',' !in ks[i] && IsStripped(ks[i], IsPySpace) {
      var part := Split(g, ',')[i];
      StripShape(part, IsPySpace);
      var l := LStrip(part, IsPySpace);
      assert ks[i] == RStrip(l, IsPySpace);
    }
  }

  /** The missing marker is shown exactly for the keys the bibliography lacks. */
  lemma MarkerIffMissing(bib: map<string, string>, key: string)
    ensures ResolveKey(bib, key) == MissingMarker(key) <==> key !in bib
  {
    if key in bib {
      var m := MissingMarker(key);
      assert m[|m| - 1] == '*';
      match AuthorYear(bib[key])
      case Some((a, y)) =>
        var r := ShortAuthor(PyStrip(a)) + ", " + y;
        assert r[|r| - 1] == y[3];
      case None =>
        assert |m| == |key| + 18;
    }
  }

  /** The head `Author (Year). ` of a formatted reference is recognised. */
  lemma AuthorYearOfHead(a: string, y: string, rest: string)
    requires '(' !in a && |y| == 4 && AllDigits(y)
    ensures AuthorYear(a + " (" + y + "). " + rest) == Some((a + " ", y))
  {
    var ref := a + " (" + y + "). " + rest;
    var p := |a| + 1;
    assert ref[p] == '(';
    forall j | 0 <= j < p ensures ref[j] != '(' {
      if j < |a| { assert ref[j] == a[j]; }
    }
    assert IndexOfChar(ref, '(') == Some(p);
    assert ref[..p] == a + " ";
    assert ref[p + 1..p + 5] == y;
  }

  /** A citation of a reference the converter formatted shows the short form
    * of the reference's author and its year, once the author carries no `(`
    * and the year is four digits. */
  lemma ResolveFormatted(bib: map<string, string>, key: string, entryType: string, f: map<string, string>)
    requires key in bib && bib[key] == FormatReference(entryType, f)
    requires '(' !in RefAuthor(f) && |RefYear(f)| == 4 && AllDigits(RefYear(f))
    ensures ResolveKey(bib, key) == ShortAuthor(PyStrip(RefAuthor(f))) + ", " + RefYear(f)
  {
    var a := RefAuthor(f);
    var y := RefYear(f);
    var v := Venue(Lower(entryType), f);
    assert bib[key] == a + " (" + y + "). " + v;
    AuthorYearOfHead(a, y, v);
    StripAppendBlank(a, ' ', IsPySpace);
  }

  /** A reference whose entry has no author shows "Author" in citations: the
    * default "Unknown Author" is shortened to its last word. */
  lemma UnknownAuthorShort()
    ensures ShortAuthor(PyStrip("Unknown Author")) == "Author"
  {
    UnknownAuthorText();
    StripOfStripped("Unknown Author", IsPySpace);
    TwoWords("Unknown", "Author");
  }

  lemma UnknownAuthorText()
    ensures "Unknown" + " " + "Author" == "Unknown Author"
    ensures IsStripped("Unknown Author", IsPySpace) && ',' !in "Unknown Author" && "Unknown Author"[7] == ' '
  {
  }

  /** Text without a backslash has no citation command and is left alone. */
  lemma {:induction false} NoCommandUnchanged(bib: map<string, string>, text: string, cmds: seq<string>)
    requires '\\' !in text
    requires forall i :: 0 <= i < |cmds| ==> cmds[i] != [] && cmds[i][0] == '\\'
    ensures CitePasses(bib, text, cmds) == Subbed(text, [])
    decreases |cmds|
  {
    if cmds != [] {
      var cmd := cmds[0];
      forall i | 0 <= i < |text| ensures CiteAt(bib, cmd, text[i..]).None? {
        assert text[i..][0] == text[i] != (cmd + "{")[0];
      }
      SubNoMatch(text, s => CiteAt(bib, cmd, s));
      NoCommandUnchanged(bib, text, cmds[1..]);
    }
  }

  lemma ProcessCitationsPlain(bib: map<string, string>, text: string)
    requires '\\' !in text
    ensures ProcessCitations(bib, text) == Subbed(text, [])
  {
    NoCommandUnchanged(bib, text, CiteCommands);
  }

  /** A single key is shown on its own between parentheses. */
  lemma RenderSingle(bib: map<string, string>, key: string)
    requires ',' !in key && IsStripped(key, IsPySpace)
    ensures CiteKeys(key) == [key]
    ensures RenderCitation(bib, key) == "(" + ResolveKey(bib, key) + ")"
  {
    SplitNoSep(key, ',');
    StripOfStripped(key, IsPySpace);
    assert CiteKeys(key) == [key];
  }

  /** `cmd{key}` is one whole match that yields its key. */
  lemma SingleCitation(bib: map<string, string>, cmd: string, key: string)
    requires key != [] && '}' !in key && ',' !in key && IsStripped(key, IsPySpace)
    ensures var s := cmd + "{" + key + "}";
      CiteAt(bib, cmd, s) == Some(Hit(|s|, "(" + ResolveKey(bib, key) + ")", [key]))
  {
    var s := cmd + "{" + key + "}";
    var opening := cmd + "{";
    assert s == opening + (key + ['}']);
    assert s[..|opening|] == opening;
    assert s[|cmd| + 1..] == key + ['}'] + [];
    TakeWhileStops(key, '}', [], NotCloseBrace);
    RenderSingle(bib, key);
    var r := CiteAt(bib, cmd, s);
    assert r.Some? && r.value.len == |s|;
    assert r.value.repl == RenderCitation(bib, key);
    assert r.value.keys == CiteKeys(key);
  }
}
