/** The bibliography side of the LaTeX-to-Word converter
  * (`core/scripts/Latex2word.py`): recognising `@type{key, ...}` entries in
  * a .bib text, reading their simple fields, and rendering each entry as an
  * author-year reference string. */
module BibStore {
  import opened Strings

  /** Python's `\w` on the characters this model distinguishes: ASCII letters,
    * digits and `_`, and the Latin-1 letters and numerals. */
  predicate IsPyWordChar(c: char)
  {
    IsAsciiLetter(c) || IsAsciiDigit(c) || c == '_'
    || c == '\U{aa}' || c == '\U{b2}' || c == '\U{b3}' || c == '\U{b5}' || c == '\U{b9}' || c == '\U{ba}'
    || ('\U{bc}' <= c <= '\U{be}') || ('\U{c0}' <= c <= '\U{d6}') || ('\U{d8}' <= c <= '\U{f6}')
    || ('\U{f8}' <= c <= '\U{ff}')
  }

  /** The three groups of one match of the entry pattern
    * `@(\w+)\s*\{\s*([^,\s]+)\s*,([^@]*?)(?=\n@|\Z)`. */
  datatype RawEntry = RawEntry(entryType: string, key: string, body: string)

  predicate KeyChar(c: char) { c != ',' && !IsPySpace(c) }

  /** The entry pattern tried at the start of `s`: the entry and the length
    * of the match. The body runs up to the first `@`, which must start a
    * line, or to the end of the text when there is no further `@`. */
  function EntryAt(s: string): (r: Option<(RawEntry, nat)>)
    ensures r.Some? ==> 1 <= r.value.1 <= |s| && s[0] == '@'
    ensures r.Some? ==> r.value.0.key != [] && forall i :: 0 <= i < |r.value.0.key| ==> KeyChar(r.value.0.key[i])
    ensures r.Some? ==> '@' !in r.value.0.body
  {
    if s == [] || s[0] != '@' then None
    else
      var ty := TakeWhile(s[1..], IsPyWordChar);
      var p1 := 1 + |ty|;
      var p2 := p1 + |TakeWhile(s[p1..], IsPySpace)|;
      if ty == [] || p2 >= |s| || s[p2] != '{' then None
      else
        var p3 := p2 + 1 + |TakeWhile(s[p2 + 1..], IsPySpace)|;
        var key := TakeWhile(s[p3..], KeyChar);
        var p4 := p3 + |key|;
        var p5 := p4 + |TakeWhile(s[p4..], IsPySpace)|;
        if key == [] || p5 >= |s| || s[p5] != ',' then None
        else
          match BodyOf(s[p5 + 1..])
          case None => None
          case Some((body, n)) => Some((RawEntry(ty, key, body), p5 + 1 + n))
  }

  /** The body after the comma: up to the newline before the next `@`, or the
    * rest of the text when there is no `@`; with the length it takes. */
  function BodyOf(rest: string): (r: Option<(string, nat)>)
    ensures r.Some? ==> r.value.1 <= |rest| && '@' !in r.value.0
  {
    match IndexOfChar(rest, '@')
    case None => Some((rest, |rest|))
    case Some(j) =>
      if j >= 1 && rest[j - 1] == '\n' then
        assert forall i :: 0 <= i < j - 1 ==> rest[..j - 1][i] == rest[i];
        Some((rest[..j - 1], j - 1))
      else None
  }

  /** `re.finditer` over the entry pattern: every entry, in text order. */
  function Entries(s: string): (r: seq<RawEntry>)
    ensures |r| <= |s|
    decreases |s|
  {
    if s == [] then []
    else match EntryAt(s)
      case Some((e, n)) => [e] + Entries(s[n..])
      case None => Entries(s[1..])
  }

  /** The entries the converter processes: it stops after the first 500. */
  const EntryLimit: nat := 500

  function Processed(s: string): (r: seq<RawEntry>)
    ensures |r| <= EntryLimit && |r| <= |Entries(s)|
    ensures r == Entries(s)[..|r|]
    ensures |r| < EntryLimit ==> r == Entries(s)
  {
    var es := Entries(s);
    if |es| <= EntryLimit then es else es[..EntryLimit]
  }

  // ---------------------------------------------------------------------------
  // Fields

  /** The ten fields the converter reads from an entry. */
  const SimpleFields: seq<string> :=
    ["author", "title", "year", "date", "journal", "journaltitle", "publisher", "booktitle", "volume", "pages"]

  /** A character of the text matches the lower-case pattern letter `l` under
    * `re.IGNORECASE` (including Python's extra folds for i, s and k). */
  predicate FoldEq(c: char, l: char)
  {
    c == l || c == UpperChar(l) || (l == 'i' && c == '\U{131}') || (l == 's' && c == '\U{17f}') || (l == 'k' && c == '\U{212a}')
  }

  predicate StartsFolded(s: string, name: string)
  {
    |name| <= |s| && forall i :: 0 <= i < |name| ==> FoldEq(s[i], name[i])
  }

  predicate NotCloseBrace(c: char) { c != '}' }

  /** The field pattern `name\s*=\s*\{([^}]*)\}` tried at the start of `s`. */
  function FieldAt(name: string, s: string): (r: Option<string>)
    ensures r.Some? ==> '}' !in r.value
  {
    if !StartsFolded(s, name) then None
    else
      var p1 := |name| + |TakeWhile(s[|name|..], IsPySpace)|;
      if p1 >= |s| || s[p1] != '=' then None
      else
        var p2 := p1 + 1 + |TakeWhile(s[p1 + 1..], IsPySpace)|;
        if p2 >= |s| || s[p2] != '{' then None
        else
          var v := TakeWhile(s[p2 + 1..], NotCloseBrace);
          if p2 + 1 + |v| < |s| then Some(v) else None
  }

  /** `re.search` for the field pattern: the leftmost position where it matches. */
  function SearchField(name: string, s: string): (r: Option<string>)
    ensures r.Some? ==> '}' !in r.value
    decreases |s|
  {
    if s == [] then None
    else match FieldAt(name, s)
      case Some(v) => Some(v)
      case None => SearchField(name, s[1..])
  }

  function FieldsFrom(names: seq<string>, body: string): (m: map<string, string>)
    ensures forall k :: k in m ==> k in names
    ensures forall k :: k in m ==> '}' !in m[k]
  {
    if names == [] then map[]
    else
      var m := FieldsFrom(names[1..], body);
      match SearchField(names[0], body)
      case Some(v) => m[names[0] := v]
      case None => m
  }

  /** The field dictionary built for one entry. */
  function ExtractFields(body: string): (m: map<string, string>)
    ensures forall k :: k in m ==> k in SimpleFields
  {
    FieldsFrom(SimpleFields, body)
  }

  // ---------------------------------------------------------------------------
  // Reference formatting

  predicate NotBrace(c: char) { c != '{' && c != '}' }

  /** Braces removed, then surrounding blanks. */
  function CleanField(s: string): string
  {
    PyStrip(Filter(s, NotBrace))
  }

  function Get(m: map<string, string>, k: string, default: string): string
  {
    if k in m then m[k] else default
  }

  /** The author shown in a reference: cleaned, then only the first of
    * several ` and `-separated names. */
  function RefAuthor(fields: map<string, string>): string
  {
    Before(CleanField(Get(fields, "author", "Unknown Author")), " and ")
  }

  /** The year shown: `date` wins over `year`; only the text before a `-`. */
  function RefYear(fields: map<string, string>): string
  {
    var y := CleanField(if "date" in fields then fields["date"] else Get(fields, "year", "n.d."));
    Before(y, "-")
  }

  function RefTitle(fields: map<string, string>): string
  {
    CleanField(Get(fields, "title", "Untitled"))
  }

  /** The common head of every reference: `Author (Year). ` */
  function Head(fields: map<string, string>): string
  {
    RefAuthor(fields) + " (" + RefYear(fields) + "). "
  }

  function Opt(cond: bool, s: string): string { if cond then s else "" }

  /** The part of a reference after its head, for the lower-cased entry type
    * `t`: article, book and proceedings entries get their venue; every other
    * type only the title. */
  function Venue(t: string, fields: map<string, string>): string
  {
    if t == "article" then ArticleVenue(fields)
    else if t == "book" then BookVenue(fields)
    else if t == "inproceedings" || t == "incollection" then ProceedingsVenue(fields)
    else RefTitle(fields) + "."
  }

  function ArticleVenue(fields: map<string, string>): string
  {
    ArticleText(RefTitle(fields),
      CleanField(if "journaltitle" in fields then fields["journaltitle"] else Get(fields, "journal", "")),
      Get(fields, "volume", ""), Get(fields, "pages", ""))
  }

  function ArticleText(title: string, journal: string, volume: string, pages: string): string
  {
    title + "." + Opt(journal != "", " *" + journal + "*") + Opt(volume != "", ", " + volume)
      + Opt(pages != "", ", " + pages) + "."
  }

  function BookVenue(fields: map<string, string>): string
  {
    BookText(RefTitle(fields), CleanField(Get(fields, "publisher", "")),
      CleanField(if "location" in fields then fields["location"] else Get(fields, "address", "")))
  }

  function BookText(title: string, publisher: string, location: string): string
  {
    "*" + title + "*." + Opt(publisher != "", if location != "" then " " + location + ": " + publisher + "." else " " + publisher + ".")
  }

  function ProceedingsVenue(fields: map<string, string>): string
  {
    ProceedingsText(RefTitle(fields), CleanField(Get(fields, "booktitle", "")), CleanField(Get(fields, "editor", "")))
  }

  function ProceedingsText(title: string, booktitle: string, editor: string): string
  {
    title + "." + Opt(booktitle != "", " In" + Opt(editor != "", " " + editor + " (Ed.),") + " *" + booktitle + "*.")
  }

  /** `format_reference`: `Author (Year). ` followed by the venue part. */
  function FormatReference(entryType: string, fields: map<string, string>): string
  {
    Head(fields) + Venue(Lower(entryType), fields)
  }

  function FormatEntry(e: RawEntry): string
  {
    FormatReference(e.entryType, ExtractFields(e.body))
  }

  /** The keys of a sequence of entries. */
  function KeysOf(es: seq<RawEntry>): (ks: set<string>)
    ensures |ks| <= |es|
  {
    if es == [] then {} else KeysOf(es[..|es| - 1]) + {es[|es| - 1].key}
  }

  /** The bibliography after loading `es` in order on top of `bib`: each
    * entry's key maps to its formatted reference, later entries overwriting
    * earlier ones. */
  function Load(bib: map<string, string>, es: seq<RawEntry>, fmt: RawEntry -> string): (r: map<string, string>)
    ensures r.Keys == bib.Keys + KeysOf(es)
  {
    if es == [] then bib
    else
      var last := es[|es| - 1];
      Load(bib, es[..|es| - 1], fmt)[last.key := fmt(last)]
  }

  /** The bibliography after reading a .bib text on top of `bib`. */
  function LoadText(bib: map<string, string>, content: string): map<string, string>
  {
    Load(bib, Processed(content), FormatEntry)
  }

  // ---------------------------------------------------------------------------
  // Properties

  /** The shown year never contains a `-` and the shown author never contains
    * ` and `: dates are cut to their year, author lists to their first name. */
  lemma HeadParts(fields: map<string, string>)
    ensures '-' !in RefYear(fields)
    ensures !Contains(RefAuthor(fields), " and ")
  {
    var y := CleanField(if "date" in fields then fields["date"] else Get(fields, "year", "n.d."));
    BeforeNoChar(y, '-');
    BeforeCuts(CleanField(Get(fields, "author", "Unknown Author")), " and ");
  }

  lemma BeforeNoChar(s: string, c: char)
    ensures c !in Before(s, [c])
  {
    var b := Before(s, [c]);
    BeforeCuts(s, [c]);
    if c in b {
      var i :| 0 <= i < |b| && b[i] == c;
      assert OccursAt(b, [c], i);
    }
  }

  lemma BeforeCuts(s: string, sep: string)
    requires sep != []
    ensures !Contains(Before(s, sep), sep)
  {
    var b := Before(s, sep);
    match IndexOf(s, sep)
    case None =>
    case Some(i) =>
      if Contains(b, sep) {
        var j :| 0 <= j <= |b| && OccursAt(b, sep, j);
        assert j + |sep| <= i;
        assert s[j..j + |sep|] == b[j..j + |sep|];
        assert OccursAt(s, sep, j);
      }
  }

  /** Entries read from a .bib text only ever carry the ten simple fields, so
    * a book's location and a proceedings editor never appear: a parsed book
    * renders its venue as `*Title*.` plus ` Publisher.` when it has one. */
  lemma ParsedBook(body: string)
    ensures var f := ExtractFields(body); var p := CleanField(Get(f, "publisher", ""));
      Venue("book", f) == "*" + RefTitle(f) + "*." + Opt(p != "", " " + p + ".")
  {
    var f := ExtractFields(body);
    assert "location" !in f && "address" !in f;
    CleanEmpty();
    BookDispatch(f);
    assert BookVenue(f) == BookText(RefTitle(f), CleanField(Get(f, "publisher", "")), "");
  }

  lemma CleanEmpty()
    ensures CleanField("") == ""
  {
    assert Filter("", NotBrace) == "";
  }

  lemma LowerBook()
    ensures Lower("book") == "book" && Lower("article") == "article"
  {
  }

  /** A parsed proceedings paper names its booktitle without an editor. */
  lemma ParsedProceedings(t: string, body: string)
    requires t == "inproceedings" || t == "incollection"
    ensures var f := ExtractFields(body); var b := CleanField(Get(f, "booktitle", ""));
      Venue(t, f) == RefTitle(f) + "." + Opt(b != "", " In *" + b + "*.")
  {
    var f := ExtractFields(body);
    assert "editor" !in f;
    NoEditorVenue(t, f);
  }

  lemma NoEditorVenue(t: string, f: map<string, string>)
    requires t == "inproceedings" || t == "incollection"
    requires "editor" !in f
    ensures var b := CleanField(Get(f, "booktitle", ""));
      Venue(t, f) == RefTitle(f) + "." + Opt(b != "", " In *" + b + "*.")
  {
    var b := CleanField(Get(f, "booktitle", ""));
    if t == "inproceedings" { ProceedingsDispatch(f); } else { CollectionDispatch(f); }
    var e := CleanField(Get(f, "editor", ""));
    assert e == "" by {
      CleanEmpty();
    }
    assert ProceedingsVenue(f) == ProceedingsText(RefTitle(f), b, e);
    ProceedingsWithoutEditor(RefTitle(f), b, e);
  }

  // Each type's venue, one lemma per type: the literal comparisons of the
  // dispatch are cheap one at a time.
  lemma ArticleDispatch(f: map<string, string>)
    ensures Venue("article", f) == ArticleVenue(f)
  {
  }

  lemma BookDispatch(f: map<string, string>)
    ensures Venue("book", f) == BookVenue(f)
  {
  }

  lemma ProceedingsDispatch(f: map<string, string>)
    ensures Venue("inproceedings", f) == ProceedingsVenue(f)
  {
  }

  lemma CollectionDispatch(f: map<string, string>)
    ensures Venue("incollection", f) == ProceedingsVenue(f)
  {
  }

  lemma ProceedingsWithoutEditor(title: string, b: string, e: string)
    requires e == ""
    ensures ProceedingsText(title, b, e) == title + "." + Opt(b != "", " In *" + b + "*.")
  {
    assert " In" + "" + " *" == " In *";
  }

  /** A field value without braces or surrounding blanks is shown as it is. */
  lemma CleanPlain(s: string)
    requires Plain(s)
    ensures CleanField(s) == s
  {
    FilterKeepsAll(s, NotBrace);
    StripOfStripped(s, IsPySpace);
  }

  /** A field value shown as it is: no braces, no surrounding blanks. */
  predicate Plain(s: string)
  {
    (forall i :: 0 <= i < |s| ==> NotBrace(s[i])) && IsStripped(s, IsPySpace)
  }

  /** The head shows author and year as they are when they need no cleaning
    * or cutting. */
  lemma PlainHead(f: map<string, string>, a: string, y: string)
    requires "author" in f && f["author"] == a && "date" !in f && "year" in f && f["year"] == y
    requires Plain(a) && Plain(y) && !Contains(a, " and ") && !Contains(y, "-")
    ensures Head(f) == a + " (" + y + "). "
  {
    CleanPlain(a);
    BeforeAbsent(a, " and ");
    CleanPlain(y);
    BeforeAbsent(y, "-");
  }

  /** An article with a journal and neither volume nor pages. */
  lemma PlainArticleVenue(f: map<string, string>, t: string, j: string)
    requires "title" in f && f["title"] == t && "journaltitle" !in f && "journal" in f && f["journal"] == j
    requires "volume" !in f && "pages" !in f
    requires Plain(t) && Plain(j) && j != []
    ensures Venue("article", f) == t + ". *" + j + "*."
  {
    ArticleDispatch(f);
    var title, journal := RefTitle(f), CleanField(Get(f, "journal", ""));
    assert title == t by { CleanPlain(t); }
    assert journal == j by { CleanPlain(j); }
    var volume, pages := Get(f, "volume", ""), Get(f, "pages", "");
    assert ArticleVenue(f) == ArticleText(title, journal, volume, pages);
    JournalOnly(title, journal, volume, pages);
  }

  lemma JournalOnly(t: string, j: string, v: string, p: string)
    requires j != "" && v == "" && p == ""
    ensures ArticleText(t, j, v, p) == t + ". *" + j + "*."
  {
    assert ArticleText(t, j, v, p) == t + "." + (" *" + j + "*") + "" + "" + ".";
  }

  /** An article with author, year, title and journal and nothing else renders
    * as `Author (Year). Title. *Journal*.` when the values need no cleaning. */
  lemma ArticleReference(f: map<string, string>, a: string, y: string, t: string, j: string)
    requires f == map["author" := a, "year" := y, "title" := t, "journal" := j]
    requires Plain(a) && Plain(y) && Plain(t) && Plain(j) && j != []
    requires !Contains(a, " and ") && !Contains(y, "-")
    ensures FormatReference("article", f) == (a + " (" + y + "). ") + (t + ". *" + j + "*.")
  {
    assert "date" !in f && "journaltitle" !in f && "volume" !in f && "pages" !in f;
    PlainHead(f, a, y);
    PlainArticleVenue(f, t, j);
    LowerBook();
  }

  /** The fields of the worked example of the converter: an article by Smith. */
  const ExampleFields: map<string, string> :=
    map["author" := "Smith, J.", "year" := "2020", "title" := "Title X", "journal" := "Journal"]

  lemma ExampleFieldsPlain()
    ensures Plain("Smith, J.") && Plain("2020") && Plain("Title X") && Plain("Journal")
    ensures !Contains("Smith, J.", " and ") && !Contains("2020", "-")
  {
    MissingCharNotContains("Smith, J.", " and ", 1);
    MissingCharNotContains("2020", "-", 0);
  }

  lemma ExampleText()
    ensures ("Smith, J." + " (" + "2020" + "). ") + ("Title X" + ". *" + "Journal" + "*.")
            == "Smith, J. (2020). Title X. *Journal*."
  {
  }

  /** The worked example renders as `Smith, J. (2020). Title X. *Journal*.` */
  lemma ArticleExample()
    ensures FormatReference("article", ExampleFields) == "Smith, J. (2020). Title X. *Journal*."
  {
    ExampleFieldsPlain();
    ArticleReference(ExampleFields, "Smith, J.", "2020", "Title X", "Journal");
    ExampleText();
  }

  /** A later entry with the same key replaces the earlier one. */
  lemma {:induction false} LoadLastWins(bib: map<string, string>, es: seq<RawEntry>, fmt: RawEntry -> string, i: nat)
    requires i < |es| && forall j :: i < j < |es| ==> es[j].key != es[i].key
    ensures es[i].key in Load(bib, es, fmt) && Load(bib, es, fmt)[es[i].key] == fmt(es[i])
    decreases |es|
  {
    if i < |es| - 1 {
      LoadLastWins(bib, es[..|es| - 1], fmt, i);
    }
  }

  /** Keys that no loaded entry uses keep their earlier reference. */
  lemma {:induction false} LoadKeeps(bib: map<string, string>, es: seq<RawEntry>, fmt: RawEntry -> string, k: string)
    requires k in bib && forall j :: 0 <= j < |es| ==> es[j].key != k
    ensures k in Load(bib, es, fmt) && Load(bib, es, fmt)[k] == bib[k]
    decreases |es|
  {
    if es != [] {
      LoadKeeps(bib, es[..|es| - 1], fmt, k);
    }
  }

  /** At most 500 new keys come out of one .bib text. */
  lemma ProcessedBound(bib: map<string, string>, s: string)
    ensures |LoadText(bib, s).Keys - bib.Keys| <= EntryLimit
  {
    var es := Processed(s);
    assert LoadText(bib, s).Keys - bib.Keys <= KeysOf(es);
    SubsetSize(LoadText(bib, s).Keys - bib.Keys, KeysOf(es));
  }

  lemma SubsetSize<T>(a: set<T>, b: set<T>)
    requires a <= b
    ensures |a| <= |b|
  {
    assert b == a + (b - a);
  }
}
