/** The reference editor of `src/components/editor/BibliographyEditor.tsx`:
  * a `.bib` text is read into a list of citations (`parseBibTeX`), the list
  * is edited in a form (add, update, delete) and written back as BibTeX
  * (`toBibTeX`). Switching between the visual editor and the raw text runs
  * one into the other, so the text the editor writes has to read back as
  * the list it came from.
  *
  * The regular expressions of the source are written out as matchers:
  * the split lookahead `@\w+\s*\{`, the header `@(\w+)\s*\{\s*([^,\s]+)` and
  * the case-insensitive field patterns `name\s*=\s*\{([^}]*)\}`,
  * `name\s*=\s*"([^"]*)"` and `name\s*=\s*(\d+)`, each searched from the
  * leftmost position. */
module BibliographyEditor {
  import opened Strings

  datatype Citation = Citation(
    key: string, entryType: string, title: string, author: string, year: string,
    journal: Option<string>, booktitle: Option<string>, publisher: Option<string>,
    volume: Option<string>, number: Option<string>, pages: Option<string>,
    doi: Option<string>, url: Option<string>, abstractText: Option<string>)

  // ---------------------------------------------------------------------------
  // Splitting the text before each `@type{`

  /** The lookahead `@\w+\s*\{` at the start of `t`. */
  predicate HeaderAt(t: string)
  {
    |t| >= 1 && t[0] == '@' &&
    var w := TakeWhile(t[1..], IsJsWordChar);
    var r := t[1 + |w|..];
    var sp := TakeWhile(r, IsJsSpace);
    w != [] && |sp| < |r| && r[|sp|] == '{'
  }

  /** The first position from `i` on (but not the end) where a header starts. */
  function NextCut(s: string, i: nat): (r: Option<nat>)
    ensures r.Some? ==> i <= r.value < |s| && HeaderAt(s[r.value..])
    decreases |s| - i
  {
    if i >= |s| then None else if HeaderAt(s[i..]) then Some(i) else NextCut(s, i + 1)
  }

  /** `content.split(/(?=@\w+\s*\{)/)`: the text cut before every header
    * except one at the very start. */
  function Pieces(s: string): (r: seq<string>)
    ensures r != []
    decreases |s|
  {
    match NextCut(s, 1)
    case None => [s]
    case Some(q) => [s[..q]] + Pieces(s[q..])
  }

  /** The pieces put back together are the text. */
  lemma {:induction false} PiecesConcat(s: string)
    ensures Concat(Pieces(s)) == s
    decreases |s|
  {
    match NextCut(s, 1)
    case None =>
    case Some(q) =>
      PiecesConcat(s[q..]);
      assert s[..q] + s[q..] == s;
  }

  /** Every piece after the first starts with the `@` of a header. */
  lemma {:induction false} PiecesStartWithAt(s: string, i: nat)
    requires 1 <= i < |Pieces(s)|
    ensures Pieces(s)[i] != [] && Pieces(s)[i][0] == '@'
    decreases |s|
  {
    var q := NextCut(s, 1).value;
    var t := s[q..];
    assert Pieces(s) == [s[..q]] + Pieces(t);
    if i > 1 {
      PiecesStartWithAt(t, i - 1);
    } else {
      FirstPieceStart(t);
    }
  }

  lemma FirstPieceStart(t: string)
    requires t != [] && t[0] == '@'
    ensures Pieces(t)[0] != [] && Pieces(t)[0][0] == '@'
  {
  }

  function Concat(xs: seq<string>): string
  {
    if xs == [] then "" else xs[0] + Concat(xs[1..])
  }

  // ---------------------------------------------------------------------------
  // The entry header

  /** The key class `[^,\s]`. */
  predicate IsKeyChar(c: char) { c != ',' && !IsJsSpace(c) }

  /** `@(\w+)\s*\{\s*([^,\s]+)` matched at the start of `t`: the type and the key. */
  function HeadAt(t: string): (r: Option<(string, string)>)
    ensures r.Some? ==> r.value.0 != [] && AllChars(r.value.0, IsJsWordChar)
    ensures r.Some? ==> r.value.1 != [] && AllChars(r.value.1, IsKeyChar)
  {
    if t == [] || t[0] != '@' then None
    else
      var w := TakeWhile(t[1..], IsJsWordChar);
      var r := t[1 + |w|..];
      var sp := TakeWhile(r, IsJsSpace);
      if w == [] || |sp| >= |r| || r[|sp|] != '{' then None
      else
        var u := r[|sp| + 1..];
        var sp2 := TakeWhile(u, IsJsSpace);
        var k := TakeWhile(u[|sp2|..], IsKeyChar);
        if k == [] then None else Some((w, k))
  }

  /** `entry.match(...)`: the leftmost header in the entry. */
  function FirstHead(t: string): (r: Option<(string, string)>)
    ensures r.Some? ==> r.value.0 != [] && AllChars(r.value.0, IsJsWordChar)
    ensures r.Some? ==> r.value.1 != [] && AllChars(r.value.1, IsKeyChar)
    decreases |t|
  {
    if HeadAt(t).Some? then HeadAt(t) else if t == [] then None else FirstHead(t[1..])
  }

  // ---------------------------------------------------------------------------
  // Fields

  /** The three ways `getField` reads a value: in braces, in double quotes, as digits. */
  datatype Delimiter = Braces | Quotes | Digits

  /** Case-insensitive comparison of a text character with a lower-case
    * character of a field name. */
  predicate CaseEq(c: char, n: char) { c == n || c == UpperChar(n) }

  predicate CaseInsensitivePrefix(t: string, name: string)
  {
    |name| <= |t| && forall i :: 0 <= i < |name| ==> CaseEq(t[i], name[i])
  }

  /** `name\s*=\s*` at the start of `t`: where the value begins. */
  function ValueStart(name: string, t: string): (r: Option<nat>)
    ensures r.Some? ==> |name| < r.value <= |t|
  {
    if !CaseInsensitivePrefix(t, name) then None
    else
      var sp := TakeWhile(t[|name|..], IsJsSpace);
      var e := |name| + |sp|;
      if e < |t| && t[e] == '=' then Some(e + 1 + |TakeWhile(t[e + 1..], IsJsSpace)|) else None
  }

  /** One field pattern matched at the start of `t`: its captured group. */
  function ValueAt(d: Delimiter, name: string, t: string): (r: Option<string>)
    ensures d == Braces && r.Some? ==> '}' !in r.value
    ensures d == Quotes && r.Some? ==> '"' !in r.value
    ensures d == Digits && r.Some? ==> r.value != [] && AllDigits(r.value)
  {
    match ValueStart(name, t)
    case None => None
    case Some(p) =>
      var u := t[p..];
      match d
      case Braces => Enclosed(u, '{', '}')
      case Quotes => Enclosed(u, '"', '"')
      case Digits => if u != [] && IsAsciiDigit(u[0]) then Some(TakeWhile(u, IsAsciiDigit)) else None
  }

  /** `open([^close]*)close` at the start of `u`. */
  function Enclosed(u: string, open: char, close: char): (r: Option<string>)
    ensures r.Some? ==> close !in r.value
    ensures r.Some? ==> StartsWith(u, [open] + r.value + [close])
  {
    if u != [] && u[0] == open then
      match IndexOfChar(u[1..], close)
      case Some(e) =>
        assert u[..e + 2] == [open] + u[1..][..e] + [close];
        Some(u[1..][..e])
      case None => None
    else None
  }

  /** `entry.match(regex)` for one field pattern: the leftmost match. */
  function FirstValue(d: Delimiter, name: string, t: string): (r: Option<string>)
    decreases |t|
  {
    if ValueAt(d, name, t).Some? then ValueAt(d, name, t)
    else if t == [] then None
    else FirstValue(d, name, t[1..])
  }

  /** `getField`: the braced value, else the quoted one, else the digits, trimmed. */
  function GetField(name: string, entry: string): (r: Option<string>)
    ensures r.Some? ==> IsStripped(r.value, IsJsSpace)
  {
    var m :=
      if FirstValue(Braces, name, entry).Some? then FirstValue(Braces, name, entry)
      else if FirstValue(Quotes, name, entry).Some? then FirstValue(Quotes, name, entry)
      else FirstValue(Digits, name, entry);
    match m
    case None => None
    case Some(v) => StripShape(v, IsJsSpace); Some(JsTrim(v))
  }

  /** `getField(name) || ""`. */
  function OrEmpty(o: Option<string>): (r: string)
    ensures o.Some? ==> r == o.value
    ensures o.None? ==> r == ""
  {
    if o.Some? then o.value else ""
  }

  // ---------------------------------------------------------------------------
  // Reading

  /** One piece of the split text read as a citation: nothing for a piece
    * without a header and for an `@comment`. */
  function EntryOf(piece: string): (r: Option<Citation>)
  {
    match FirstHead(piece)
    case None => None
    case Some(h) =>
      var kind := Lower(h.0);
      if kind == "comment" then None
      else Some(Citation(
        JsTrim(h.1), kind,
        OrEmpty(GetField("title", piece)), OrEmpty(GetField("author", piece)), OrEmpty(GetField("year", piece)),
        GetField("journal", piece), GetField("booktitle", piece), GetField("publisher", piece),
        GetField("volume", piece), GetField("number", piece), GetField("pages", piece),
        GetField("doi", piece), GetField("url", piece), GetField("abstract", piece)))
  }

  /** The pieces read in order, keeping the ones `read` accepts. */
  function ReadPieces(read: string -> Option<Citation>, ps: seq<string>): (r: seq<Citation>)
    ensures |r| <= |ps|
    decreases |ps|
  {
    if ps == [] then []
    else
      var last := read(ps[|ps| - 1]);
      ReadPieces(read, ps[..|ps| - 1]) + (if last.Some? then [last.value] else [])
  }

  /** What `parseBibTeX` returns for a text. */
  function Parsed(content: string): seq<Citation>
  {
    ReadPieces(EntryOf, Pieces(content))
  }

  /** `parseBibTeX`: the loop over the split pieces, pushing one citation per
    * entry that is not a comment. */
  method ParseBibTeX(content: string) returns (citations: seq<Citation>)
    ensures citations == Parsed(content)
  {
    var entries := Pieces(content);
    citations := [];
    for i := 0 to |entries|
      invariant citations == ReadPieces(EntryOf, entries[..i])
    {
      assert entries[..i + 1][..i] == entries[..i];
      var c := EntryOf(entries[i]);
      if c.Some? {
        citations := citations + [c.value];
      }
    }
    assert entries[..|entries|] == entries;
  }

  // ---------------------------------------------------------------------------
  // Writing

  /** The field names in the order `toBibTeX` writes them. */
  const FieldNames: seq<string> :=
    ["author", "title", "year", "journal", "booktitle", "publisher", "volume", "number", "pages", "doi", "url", "abstract"]

  /** Every field of a citation under its name, in the order of `FieldNames`. */
  function Slots(c: Citation): (r: seq<(string, Option<string>)>)
    ensures |r| == |FieldNames| && forall i :: 0 <= i < |r| ==> r[i].0 == FieldNames[i]
  {
    [("author", Some(c.author)), ("title", Some(c.title)), ("year", Some(c.year)),
     ("journal", c.journal), ("booktitle", c.booktitle), ("publisher", c.publisher),
     ("volume", c.volume), ("number", c.number), ("pages", c.pages),
     ("doi", c.doi), ("url", c.url), ("abstract", c.abstractText)]
  }

  /** A field is written when it is present and not empty. */
  predicate Filled(o: Option<string>) { o.Some? && o.value != "" }

  /** The (name, value) pairs of the filled slots, in order. */
  function Present(slots: seq<(string, Option<string>)>): (r: seq<(string, string)>)
    ensures |r| <= |slots|
    decreases |slots|
  {
    if slots == [] then []
    else (if Filled(slots[0].1) then [(slots[0].0, slots[0].1.value)] else []) + Present(slots[1..])
  }

  /** The fields `toBibTeX` writes for a citation, in its fixed order. */
  function Written(c: Citation): seq<(string, string)>
  {
    Present(Slots(c))
  }

  function FieldLine(name: string, value: string): string
  {
    "  " + name + " = {" + value + "}"
  }

  function FieldLines(fs: seq<(string, string)>): (r: seq<string>)
    ensures |r| == |fs|
    decreases |fs|
  {
    if fs == [] then [] else [FieldLine(fs[0].0, fs[0].1)] + FieldLines(fs[1..])
  }

  /** `@type{key,\n<fields joined by ",\n">\n}`. */
  function EntryText(c: Citation): string
  {
    "@" + EntryBody(c)
  }

  function EntryBody(c: Citation): string
  {
    c.entryType + "{" + c.key + ",\n" + Join(FieldLines(Written(c)), ",\n") + "\n}"
  }

  function EntryTexts(cs: seq<Citation>): (r: seq<string>)
    ensures |r| == |cs|
    decreases |cs|
  {
    if cs == [] then [] else [EntryText(cs[0])] + EntryTexts(cs[1..])
  }

  /** `toBibTeX`: the entries separated by a blank line. */
  function ToBibTeX(cs: seq<Citation>): string
  {
    Join(EntryTexts(cs), "\n\n")
  }

  // ---------------------------------------------------------------------------
  // What reads back

  predicate IsTypeChar(c: char) { IsAsciiLower(c) || IsAsciiDigit(c) || c == '_' }

  predicate NotLetter(c: char) { !IsAsciiLetter(c) }

  /** A value written in braces that reads back as itself: nothing that
    * closes the braces, starts another field or another entry, and no
    * blank at either end (the reader trims). */
  predicate SafeValue(v: string)
  {
    '}' !in v && '=' !in v && '@' !in v && IsStripped(v, IsJsSpace)
  }

  /** An optional field reads back when it is absent or a non-empty safe value. */
  predicate SafeOptional(o: Option<string>)
  {
    o.Some? ==> o.value != "" && SafeValue(o.value)
  }

  /** A citation `toBibTeX` writes so that `parseBibTeX` finds each of its
    * fields again: a lower-case type other than `comment`, a key without
    * comma, blank, `@` or `=`, and safe values. */
  predicate Writable(c: Citation)
  {
    c.entryType != [] && AllChars(c.entryType, IsTypeChar) && c.entryType != "comment"
    && c.key != [] && AllChars(c.key, IsKeyChar) && '@' !in c.key && '=' !in c.key
    && SafeValue(c.title) && SafeValue(c.author) && SafeValue(c.year)
    && SafeOptional(c.journal) && SafeOptional(c.booktitle) && SafeOptional(c.publisher)
    && SafeOptional(c.volume) && SafeOptional(c.number) && SafeOptional(c.pages)
    && SafeOptional(c.doi) && SafeOptional(c.url) && SafeOptional(c.abstractText)
  }

  /** A writable citation that also has no booktitle under an empty title:
    * the title pattern, which is not anchored, would otherwise find the
    * booktitle. */
  predicate WellFormed(c: Citation)
  {
    Writable(c) && (c.title == "" ==> c.booktitle.None?)
  }

  /** What a writable citation reads back as: itself, but an empty title
    * takes the booktitle. */
  function ReadBack(c: Citation): (r: Citation)
    ensures WellFormed(c) ==> r == c
  {
    c.(title := if c.title != "" then c.title else if Filled(c.booktitle) then c.booktitle.value else "")
  }

  // --- the split

  lemma {:induction false} CutAt(s: string, i: nat, q: nat)
    requires 1 <= i <= q < |s| && HeaderAt(s[q..])
    requires forall j :: i <= j < q ==> s[j] != '@'
    ensures NextCut(s, i) == Some(q)
    decreases q - i
  {
    if i < q {
      assert s[i..][0] == s[i];
      CutAt(s, i + 1, q);
    }
  }

  lemma {:induction false} NoCut(s: string, i: nat)
    requires 1 <= i && forall j :: i <= j < |s| ==> s[j] != '@'
    ensures NextCut(s, i) == None
    decreases |s| - i
  {
    if i < |s| {
      assert s[i..][0] == s[i];
      NoCut(s, i + 1);
    }
  }

  // --- the header

  /** An entry opening `@type{key,` is a header and reads as its type and key. */
  lemma EntryHead(t: string, k: string, rest: string)
    requires t != [] && AllChars(t, IsJsWordChar) && k != [] && AllChars(k, IsKeyChar)
    ensures HeaderAt("@" + t + "{" + k + "," + rest)
    ensures FirstHead("@" + t + "{" + k + "," + rest) == Some((t, k))
  {
    var u := k + [','] + rest;
    assert "@" + t + "{" + k + "," + rest == ['@'] + t + ['{'] + u;
    TakeWhileStops(k, ',', rest, IsKeyChar);
    HeadParts(['@'] + t + ['{'] + u, t, u);
  }

  /** `@`, a word and `{` directly followed by a key character. */
  lemma HeadParts(s: string, t: string, u: string)
    requires s == ['@'] + t + ['{'] + u
    requires t != [] && AllChars(t, IsJsWordChar) && u != [] && IsKeyChar(u[0])
    ensures HeaderAt(s)
    ensures HeadAt(s) == Some((t, TakeWhile(u, IsKeyChar)))
  {
    assert s[1..] == t + ['{'] + u;
    TakeWhileStops(t, '{', u, IsJsWordChar);
    var r := s[1 + |t|..];
    assert r == ['{'] + u;
    assert TakeWhile(r, IsJsSpace) == [];
    assert r[1..] == u;
    assert TakeWhile(u, IsJsSpace) == [];
    assert u[0..] == u;
  }

  // --- the field patterns

  predicate IsFieldName(n: string) { n != [] && AllChars(n, IsAsciiLower) }

  /** No field pattern starts at a character that is not a letter. */
  lemma SkipChar(d: Delimiter, n: string, c: char, rest: string)
    requires IsFieldName(n) && !IsAsciiLetter(c)
    ensures FirstValue(d, n, [c] + rest) == FirstValue(d, n, rest)
  {
    var t := [c] + rest;
    assert !CaseEq(t[0], n[0]);
    assert t[1..] == rest;
  }

  /** No field pattern starts inside a text without `=` that a character
    * other than a letter, a blank or `=` closes. */
  lemma NoStartBefore(n: string, x: string, b: char, rest: string)
    requires IsFieldName(n) && '=' !in x && !IsAsciiLetter(b) && !IsJsSpace(b) && b != '='
    ensures ValueStart(n, x + [b] + rest) == None
  {
    var t := x + [b] + rest;
    assert t[|x|] == b;
    if CaseInsensitivePrefix(t, n) {
      assert |n| <= |x|;
      var sp := TakeWhile(t[|n|..], IsJsSpace);
      assert t[|n|..][|x| - |n|] == b;
      TakeWhileBound(t[|n|..], |x| - |n|, IsJsSpace);
      var e := |n| + |sp|;
      assert e <= |x|;
      assert t[e] == (if e < |x| then x[e] else b);
    }
  }

  lemma {:induction false} SkipUntil(d: Delimiter, n: string, x: string, b: char, rest: string)
    requires IsFieldName(n) && '=' !in x && !IsAsciiLetter(b) && !IsJsSpace(b) && b != '='
    ensures FirstValue(d, n, x + [b] + rest) == FirstValue(d, n, rest)
    decreases |x|
  {
    if x == [] {
      assert x + [b] + rest == [b] + rest;
      SkipChar(d, n, b, rest);
    } else {
      NoStartBefore(n, x, b, rest);
      assert (x + [b] + rest)[1..] == x[1..] + [b] + rest;
      SkipUntil(d, n, x[1..], b, rest);
    }
  }

  lemma {:induction false} NoLetters(d: Delimiter, n: string, t: string)
    requires IsFieldName(n) && AllChars(t, NotLetter)
    ensures FirstValue(d, n, t) == None
    decreases |t|
  {
    if t != [] {
      assert t == [t[0]] + t[1..];
      SkipChar(d, n, t[0], t[1..]);
      NoLetters(d, n, t[1..]);
    }
  }

  /** `name = ` followed by a character that is not blank: the value starts after the blank. */
  lemma StartAfterEquals(n: string, after: string)
    requires IsFieldName(n) && after != [] && !IsJsSpace(after[0])
    ensures ValueStart(n, n + " = " + after) == Some(|n| + 3)
  {
    var t := n + " = " + after;
    assert CaseInsensitivePrefix(t, n) by {
      assert forall i :: 0 <= i < |n| ==> t[i] == n[i];
    }
    assert t[|n|..] == " " + ['='] + (" " + after);
    TakeWhileStops(" ", '=', " " + after, IsJsSpace);
    assert t[|n| + 2..] == " " + [after[0]] + after[1..];
    TakeWhileStops(" ", after[0], after[1..], IsJsSpace);
  }

  /** `{value}` captured in braces. */
  lemma BracedValue(v: string, rest: string)
    requires '}' !in v
    ensures Enclosed("{" + v + "}" + rest, '{', '}') == Some(v)
  {
    var u := "{" + v + "}" + rest;
    assert u[1..] == v + "}" + rest;
    assert u[1..][|v|] == '}';
    assert forall j :: 0 <= j < |v| ==> u[1..][j] == v[j];
    assert u[1..][..|v|] == v;
  }

  /** At a written field whose name is the searched one, the brace pattern
    * captures the value and the others fail. */
  lemma ValueAtName(d: Delimiter, n: string, v: string, rest: string, y: string)
    requires IsFieldName(n) && '}' !in v && y == " = {" + v + "}" + rest
    ensures ValueAt(d, n, n + y) == if d == Braces then Some(v) else None
  {
    var after := "{" + v + "}" + rest;
    assert n + y == n + " = " + after;
    StartAfterEquals(n, after);
    assert (n + y)[|n| + 3..] == after;
    BracedValue(v, rest);
  }

  /** Inside a field's name another field name is matched only where it
    * ends the name. */
  lemma NoStartInName(n: string, m: string, y: string)
    requires IsFieldName(n) && AllChars(m, IsAsciiLower) && m != [] && m != n
    requires y != [] && y[0] == ' '
    ensures ValueStart(n, m + y) == None
  {
    var t := m + y;
    assert t[|m|] == ' ';
    if CaseInsensitivePrefix(t, n) {
      assert |n| <= |m|;
      assert forall i :: 0 <= i < |n| ==> t[i] == m[i] && CaseEq(m[i], n[i]);
      assert |n| == |m| ==> m == n;
      assert t[|n|..][0] == m[|n|];
      assert TakeWhile(t[|n|..], IsJsSpace) == [];
    }
  }

  lemma NameBlock(d: Delimiter, n: string, m: string, v: string, rest: string)
    requires IsFieldName(n) && AllChars(m, IsAsciiLower) && '}' !in v
    ensures FirstValue(d, n, m + " = {" + v + "}" + rest) ==
      if d == Braces && EndsWith(m, n) then Some(v) else FirstValue(d, n, " = {" + v + "}" + rest)
  {
    var y := " = {" + v + "}" + rest;
    assert m + " = {" + v + "}" + rest == m + y;
    NamePrefix(d, n, m, v, rest, y);
  }

  /** The letters of a field's name, read one at a time before ` = {value}`. */
  lemma {:induction false} NamePrefix(d: Delimiter, n: string, m: string, v: string, rest: string, y: string)
    requires IsFieldName(n) && AllChars(m, IsAsciiLower) && '}' !in v
    requires y == " = {" + v + "}" + rest
    ensures FirstValue(d, n, m + y) == if d == Braces && EndsWith(m, n) then Some(v) else FirstValue(d, n, y)
    decreases |m|
  {
    if m == [] {
      assert m + y == y;
    } else {
      var t := m + y;
      assert t[1..] == m[1..] + y;
      NamePrefix(d, n, m[1..], v, rest, y);
      EndsWithTail(m, n);
      if m == n {
        ValueAtName(d, n, v, rest, y);
        assert !EndsWith(m[1..], n);
      } else {
        NoStartInName(n, m, y);
      }
    }
  }

  lemma EndsWithTail(m: string, n: string)
    requires m != []
    ensures EndsWith(m, n) <==> m == n || EndsWith(m[1..], n)
  {
    if |n| < |m| {
      assert m[|m| - |n|..] == m[1..][|m[1..]| - |n|..];
    }
  }

  /** The two blanks that open a field line. */
  lemma LineIndent(d: Delimiter, n: string, m: string, v: string, rest: string)
    requires IsFieldName(n)
    ensures FirstValue(d, n, FieldLine(m, v) + rest) == FirstValue(d, n, m + " = {" + v + "}" + rest)
  {
    var y := m + " = {" + v + "}" + rest;
    assert FieldLine(m, v) + rest == [' '] + ([' '] + y);
    SkipChar(d, n, ' ', [' '] + y);
    SkipChar(d, n, ' ', y);
  }

  /** What follows a field's name: ` = {value}`. */
  lemma AfterName(d: Delimiter, n: string, v: string, rest: string)
    requires IsFieldName(n) && '=' !in v
    ensures FirstValue(d, n, " = {" + v + "}" + rest) == FirstValue(d, n, rest)
  {
    var z := v + ['}'] + rest;
    assert " = {" + v + "}" + rest == [' '] + (['='] + ([' '] + (['{'] + z)));
    SkipChar(d, n, ' ', ['='] + ([' '] + (['{'] + z)));
    SkipChar(d, n, '=', [' '] + (['{'] + z));
    SkipChar(d, n, ' ', ['{'] + z);
    SkipChar(d, n, '{', z);
    SkipUntil(d, n, v, '}', rest);
  }

  /** One written field line, as the field patterns see it: the brace
    * pattern for any name the field's name ends with captures its value,
    * and otherwise the search goes on after the line. */
  lemma FieldChunk(d: Delimiter, n: string, m: string, v: string, rest: string)
    requires IsFieldName(n) && AllChars(m, IsAsciiLower) && '}' !in v && '=' !in v
    ensures FirstValue(d, n, FieldLine(m, v) + rest) ==
      if d == Braces && EndsWith(m, n) then Some(v) else FirstValue(d, n, rest)
  {
    LineIndent(d, n, m, v, rest);
    NameBlock(d, n, m, v, rest);
    AfterName(d, n, v, rest);
  }

  // --- the field lines

  /** The first written value whose field name ends with `n`: what the brace
    * pattern finds for `n` in the field lines. */
  function Lookup(n: string, fs: seq<(string, string)>): Option<string>
    decreases |fs|
  {
    if fs == [] then None
    else if EndsWith(fs[0].0, n) then Some(fs[0].1)
    else Lookup(n, fs[1..])
  }

  predicate SafeFields(fs: seq<(string, string)>)
  {
    forall i :: 0 <= i < |fs| ==> AllChars(fs[i].0, IsAsciiLower) && SafeValue(fs[i].1)
  }

  /** The field lines joined by `,\n` and followed by letter-free text:
    * the brace pattern finds the first value under a name ending with `n`,
    * the other two patterns find nothing. */
  lemma {:induction false} FieldsWalk(d: Delimiter, n: string, fs: seq<(string, string)>, tail: string)
    requires IsFieldName(n) && SafeFields(fs) && AllChars(tail, NotLetter)
    ensures FirstValue(d, n, Join(FieldLines(fs), ",\n") + tail) == if d == Braces then Lookup(n, fs) else None
    decreases |fs|
  {
    if fs == [] {
      assert Join(FieldLines(fs), ",\n") + tail == tail;
      NoLetters(d, n, tail);
    } else {
      assert FieldLines(fs)[0] == FieldLine(fs[0].0, fs[0].1);
      assert FieldLines(fs)[1..] == FieldLines(fs[1..]);
      if |fs| == 1 {
        assert Join(FieldLines(fs), ",\n") + tail == FieldLine(fs[0].0, fs[0].1) + tail;
        FieldChunk(d, n, fs[0].0, fs[0].1, tail);
        NoLetters(d, n, tail);
      } else {
        NextLine(d, n, fs, tail);
        SafeFieldsTail(fs);
        FieldsWalk(d, n, fs[1..], tail);
      }
    }
  }

  lemma NextLine(d: Delimiter, n: string, fs: seq<(string, string)>, tail: string)
    requires IsFieldName(n) && SafeFields(fs) && |fs| >= 2
    ensures FirstValue(d, n, Join(FieldLines(fs), ",\n") + tail) ==
      if d == Braces && EndsWith(fs[0].0, n) then Some(fs[0].1)
      else FirstValue(d, n, Join(FieldLines(fs[1..]), ",\n") + tail)
  {
    assert FieldLines(fs)[0] == FieldLine(fs[0].0, fs[0].1);
    assert FieldLines(fs)[1..] == FieldLines(fs[1..]);
    var more := Join(FieldLines(fs[1..]), ",\n") + tail;
    assert Join(FieldLines(fs), ",\n") + tail == FieldLine(fs[0].0, fs[0].1) + ([','] + (['\n'] + more));
    FieldChunk(d, n, fs[0].0, fs[0].1, [','] + (['\n'] + more));
    SkipChar(d, n, ',', ['\n'] + more);
    SkipChar(d, n, '\n', more);
  }

  lemma SafeFieldsTail(fs: seq<(string, string)>)
    requires SafeFields(fs) && fs != []
    ensures SafeFields(fs[1..])
  {
    assert forall i :: 0 <= i < |fs[1..]| ==> fs[1..][i] == fs[i + 1];
  }

  /** The first filled slot whose name ends with `n`. */
  function LookupSlots(n: string, slots: seq<(string, Option<string>)>): Option<string>
    decreases |slots|
  {
    if slots == [] then None
    else if EndsWith(slots[0].0, n) && Filled(slots[0].1) then slots[0].1
    else LookupSlots(n, slots[1..])
  }

  lemma {:induction false} LookupPresent(n: string, slots: seq<(string, Option<string>)>)
    ensures Lookup(n, Present(slots)) == LookupSlots(n, slots)
    decreases |slots|
  {
    if slots != [] {
      LookupPresent(n, slots[1..]);
      var rest := Present(slots[1..]);
      if Filled(slots[0].1) {
        var fs := [(slots[0].0, slots[0].1.value)] + rest;
        assert Present(slots) == fs;
        assert fs[0] == (slots[0].0, slots[0].1.value) && fs[1..] == rest;
      } else {
        assert Present(slots) == rest;
      }
    }
  }

  /** Slots where only the `k`-th name ends with `n` give the `k`-th value if filled. */
  lemma {:induction false} OnlySlot(n: string, slots: seq<(string, Option<string>)>, k: nat)
    requires k < |slots| && EndsWith(slots[k].0, n)
    requires forall j :: 0 <= j < |slots| && j != k ==> !EndsWith(slots[j].0, n)
    ensures LookupSlots(n, slots) == if Filled(slots[k].1) then slots[k].1 else None
    decreases |slots|
  {
    if k == 0 {
      NoSlot(n, slots[1..]);
    } else {
      OnlySlot(n, slots[1..], k - 1);
    }
  }

  lemma {:induction false} NoSlot(n: string, slots: seq<(string, Option<string>)>)
    requires forall j :: 0 <= j < |slots| ==> !EndsWith(slots[j].0, n)
    ensures LookupSlots(n, slots) == None
    decreases |slots|
  {
    if slots != [] {
      NoSlot(n, slots[1..]);
    }
  }

  /** Slots where only the `k`-th and a later `m`-th name end with `n`: the
    * `k`-th value if filled, else the `m`-th. */
  lemma {:induction false} TwoSlots(n: string, slots: seq<(string, Option<string>)>, k: nat, m: nat)
    requires k < m < |slots| && EndsWith(slots[k].0, n) && EndsWith(slots[m].0, n)
    requires forall j :: 0 <= j < |slots| && j != k && j != m ==> !EndsWith(slots[j].0, n)
    ensures LookupSlots(n, slots) ==
      if Filled(slots[k].1) then slots[k].1 else if Filled(slots[m].1) then slots[m].1 else None
    decreases |slots|
  {
    if k == 0 {
      OnlySlot(n, slots[1..], m - 1);
    } else {
      TwoSlots(n, slots[1..], k - 1, m - 1);
    }
  }

  // --- the field names

  /** No field name but "title" ends another field name. */
  lemma NamesUnrelated(k: nat)
    requires k < |FieldNames| && k != 1
    ensures forall j :: 0 <= j < |FieldNames| && j != k ==> !EndsWith(FieldNames[j], FieldNames[k])
  {
    forall j | 0 <= j < |FieldNames| && j != k
      ensures !EndsWith(FieldNames[j], FieldNames[k])
    {
      var a, b := FieldNames[j], FieldNames[k];
      if |b| <= |a| {
        if a[|a| - 1] != b[|b| - 1] {
          EndsDiffer(a, b, 0);
        } else if a[|a| - 2] != b[|b| - 2] {
          EndsDiffer(a, b, 1);
        } else {
          EndsDiffer(a, b, 2);
        }
      }
    }
  }

  /** A string whose character `d` places from the end differs from `b`'s
    * does not end with `b`. */
  lemma EndsDiffer(a: string, b: string, d: nat)
    requires d < |b| <= |a| && a[|a| - 1 - d] != b[|b| - 1 - d]
    ensures !EndsWith(a, b)
  {
    assert a[|a| - |b|..][|b| - 1 - d] == a[|a| - 1 - d];
  }

  /** "title" ends "booktitle" and no other field name. */
  lemma TitleSuffixes()
    ensures forall j :: 0 <= j < |FieldNames| && j != 1 && j != 4 ==> !EndsWith(FieldNames[j], FieldNames[1])
    ensures EndsWith(FieldNames[4], FieldNames[1])
  {
  }

  lemma NamesAreFieldNames()
    ensures forall k :: 0 <= k < |FieldNames| ==> IsFieldName(FieldNames[k])
  {
  }

  // --- a written entry

  predicate SafeSlots(slots: seq<(string, Option<string>)>)
  {
    forall j :: 0 <= j < |slots| ==> AllChars(slots[j].0, IsAsciiLower) && (Filled(slots[j].1) ==> SafeValue(slots[j].1.value))
  }

  lemma {:induction false} PresentSafe(slots: seq<(string, Option<string>)>)
    requires SafeSlots(slots)
    ensures SafeFields(Present(slots))
    decreases |slots|
  {
    if slots != [] {
      assert SafeSlots(slots[1..]) by {
        assert forall j :: 0 <= j < |slots[1..]| ==> slots[1..][j] == slots[j + 1];
      }
      PresentSafe(slots[1..]);
    }
  }

  lemma WrittenSafe(c: Citation)
    requires Writable(c)
    ensures SafeFields(Written(c))
  {
    NamesAreFieldNames();
    assert SafeSlots(Slots(c));
    PresentSafe(Slots(c));
  }

  lemma {:induction false} LinesAtFree(fs: seq<(string, string)>)
    requires SafeFields(fs)
    ensures '@' !in Join(FieldLines(fs), ",\n")
    decreases |fs|
  {
    if fs != [] {
      assert '@' !in FieldLine(fs[0].0, fs[0].1) by {
        assert '@' !in fs[0].0 by { assert AllChars(fs[0].0, IsAsciiLower); }
      }
      assert FieldLines(fs)[0] == FieldLine(fs[0].0, fs[0].1);
      assert FieldLines(fs)[1..] == FieldLines(fs[1..]);
      if |fs| > 1 {
        SafeFieldsTail(fs);
        LinesAtFree(fs[1..]);
      }
    }
  }

  /** A written entry holds no `@` but the one it starts with. */
  lemma EntryAtFree(c: Citation)
    requires Writable(c)
    ensures EntryText(c) != [] && EntryText(c)[0] == '@'
    ensures forall j :: 1 <= j < |EntryText(c)| ==> EntryText(c)[j] != '@'
  {
    WrittenSafe(c);
    var lines := Join(FieldLines(Written(c)), ",\n");
    LinesAtFree(Written(c));
    var e := EntryText(c);
    var body := EntryBody(c);
    assert '@' !in c.entryType by { assert AllChars(c.entryType, IsTypeChar); }
    assert '@' !in body;
    assert forall j :: 1 <= j < |e| ==> e[j] == body[j - 1];
  }

  /** The field patterns over a written entry and a letter-free trail: the
    * brace pattern finds the first written value under a name ending with
    * `n`, the others nothing. */
  lemma EntryFields(d: Delimiter, n: string, c: Citation, trail: string)
    requires Writable(c) && IsFieldName(n) && AllChars(trail, NotLetter)
    ensures FirstValue(d, n, EntryText(c) + trail) == if d == Braces then Lookup(n, Written(c)) else None
  {
    var lines := Join(FieldLines(Written(c)), ",\n");
    var tail := "\n}" + trail;
    assert AllChars(tail, NotLetter) by {
      assert forall i :: 2 <= i < |tail| ==> tail[i] == trail[i - 2];
    }
    var afterKey := ['\n'] + (lines + tail);
    assert EntryText(c) + trail == ['@'] + (c.entryType + ['{'] + (c.key + [','] + afterKey));
    SkipChar(d, n, '@', c.entryType + ['{'] + (c.key + [','] + afterKey));
    assert '=' !in c.entryType by { assert AllChars(c.entryType, IsTypeChar); }
    SkipUntil(d, n, c.entryType, '{', c.key + [','] + afterKey);
    SkipUntil(d, n, c.key, ',', afterKey);
    SkipChar(d, n, '\n', lines + tail);
    WrittenSafe(c);
    FieldsWalk(d, n, Written(c), tail);
  }

  /** What `getField` reads from a written entry: the first filled slot under
    * a name ending with `n`. */
  lemma EntryField(n: string, c: Citation, trail: string)
    requires Writable(c) && IsFieldName(n) && AllChars(trail, NotLetter)
    ensures GetField(n, EntryText(c) + trail) == LookupSlots(n, Slots(c))
  {
    EntryFields(Braces, n, c, trail);
    EntryFields(Quotes, n, c, trail);
    EntryFields(Digits, n, c, trail);
    LookupPresent(n, Slots(c));
    WrittenSafe(c);
    var r := Lookup(n, Written(c));
    if r.Some? {
      LookupSafe(n, Written(c));
      StripOfStripped(r.value, IsJsSpace);
    }
  }

  lemma {:induction false} LookupSafe(n: string, fs: seq<(string, string)>)
    requires SafeFields(fs) && Lookup(n, fs).Some?
    ensures SafeValue(Lookup(n, fs).value)
    decreases |fs|
  {
    if !EndsWith(fs[0].0, n) {
      SafeFieldsTail(fs);
      LookupSafe(n, fs[1..]);
    }
  }

  lemma ReadField(c: Citation, trail: string, k: nat)
    requires Writable(c) && AllChars(trail, NotLetter) && k < |FieldNames|
    ensures GetField(FieldNames[k], EntryText(c) + trail) == LookupSlots(FieldNames[k], Slots(c))
  {
    NamesAreFieldNames();
    EntryField(FieldNames[k], c, trail);
  }

  lemma SlotValue(slots: seq<(string, Option<string>)>, k: nat)
    requires |slots| == |FieldNames| && forall j :: 0 <= j < |slots| ==> slots[j].0 == FieldNames[j]
    requires k < |FieldNames| && k != 1
    ensures LookupSlots(FieldNames[k], slots) == if Filled(slots[k].1) then slots[k].1 else None
  {
    NamesUnrelated(k);
    OnlySlot(FieldNames[k], slots, k);
  }

  lemma TitleValue(slots: seq<(string, Option<string>)>)
    requires |slots| == |FieldNames| && forall j :: 0 <= j < |slots| ==> slots[j].0 == FieldNames[j]
    ensures LookupSlots(FieldNames[1], slots) ==
      if Filled(slots[1].1) then slots[1].1 else if Filled(slots[4].1) then slots[4].1 else None
  {
    TitleSuffixes();
    TwoSlots(FieldNames[1], slots, 1, 4);
  }

  /** Every field but the title reads back as its own slot. */
  lemma ReadSlot(c: Citation, trail: string, k: nat)
    requires Writable(c) && AllChars(trail, NotLetter) && k < |FieldNames| && k != 1
    ensures GetField(FieldNames[k], EntryText(c) + trail) == if Filled(Slots(c)[k].1) then Slots(c)[k].1 else None
  {
    ReadField(c, trail, k);
    SlotValue(Slots(c), k);
  }

  /** The title reads back as the title when there is one, else as the booktitle. */
  lemma ReadTitle(c: Citation, trail: string)
    requires Writable(c) && AllChars(trail, NotLetter)
    ensures GetField(FieldNames[1], EntryText(c) + trail) ==
      if Filled(Slots(c)[1].1) then Slots(c)[1].1 else if Filled(Slots(c)[4].1) then Slots(c)[4].1 else None
  {
    ReadField(c, trail, 1);
    TitleValue(Slots(c));
  }

  /** A written entry opens with its own type and key. */
  lemma WrittenHead(c: Citation, trail: string)
    requires Writable(c)
    ensures FirstHead(EntryText(c) + trail) == Some((c.entryType, c.key))
    ensures HeaderAt(EntryText(c) + trail)
  {
    var rest := "\n" + Join(FieldLines(Written(c)), ",\n") + "\n}" + trail;
    assert EntryText(c) + trail == "@" + c.entryType + "{" + c.key + "," + rest;
    assert AllChars(c.entryType, IsJsWordChar) by { assert AllChars(c.entryType, IsTypeChar); }
    EntryHead(c.entryType, c.key, rest);
  }

  lemma TypeKept(t: string)
    requires AllChars(t, IsTypeChar)
    ensures Lower(t) == t
  {
  }

  lemma KeyKept(k: string)
    requires k != [] && AllChars(k, IsKeyChar)
    ensures JsTrim(k) == k
  {
    StripOfStripped(k, IsJsSpace);
  }

  lemma FieldNameLiterals()
    ensures FieldNames[0] == "author" && FieldNames[1] == "title" && FieldNames[2] == "year"
    ensures FieldNames[3] == "journal" && FieldNames[4] == "booktitle" && FieldNames[5] == "publisher"
    ensures FieldNames[6] == "volume" && FieldNames[7] == "number" && FieldNames[8] == "pages"
    ensures FieldNames[9] == "doi" && FieldNames[10] == "url" && FieldNames[11] == "abstract"
  {
  }

  /** The three fields the reader defaults to "" read back as written. */
  lemma ReadRequired(c: Citation, trail: string)
    requires Writable(c) && AllChars(trail, NotLetter)
    ensures OrEmpty(GetField("title", EntryText(c) + trail)) == ReadBack(c).title
    ensures OrEmpty(GetField("author", EntryText(c) + trail)) == c.author
    ensures OrEmpty(GetField("year", EntryText(c) + trail)) == c.year
  {
    FieldNameLiterals();
    ReadTitle(c, trail);
    ReadSlot(c, trail, 0);
    ReadSlot(c, trail, 2);
  }

  /** The optional fields read back as written. */
  lemma ReadOptional(c: Citation, trail: string)
    requires Writable(c) && AllChars(trail, NotLetter)
    ensures GetField("journal", EntryText(c) + trail) == c.journal
    ensures GetField("booktitle", EntryText(c) + trail) == c.booktitle
    ensures GetField("publisher", EntryText(c) + trail) == c.publisher
    ensures GetField("volume", EntryText(c) + trail) == c.volume
    ensures GetField("number", EntryText(c) + trail) == c.number
    ensures GetField("pages", EntryText(c) + trail) == c.pages
    ensures GetField("doi", EntryText(c) + trail) == c.doi
    ensures GetField("url", EntryText(c) + trail) == c.url
    ensures GetField("abstract", EntryText(c) + trail) == c.abstractText
  {
    FieldNameLiterals();
    ReadSlot(c, trail, 3);
    ReadSlot(c, trail, 4);
    ReadSlot(c, trail, 5);
    ReadSlot(c, trail, 6);
    ReadSlot(c, trail, 7);
    ReadSlot(c, trail, 8);
    ReadSlot(c, trail, 9);
    ReadSlot(c, trail, 10);
    ReadSlot(c, trail, 11);
  }

  /** A writable citation, written and followed by letter-free text, is read back. */
  lemma EntryRoundTrip(c: Citation, trail: string)
    requires Writable(c) && AllChars(trail, NotLetter)
    ensures EntryOf(EntryText(c) + trail) == Some(ReadBack(c))
  {
    WrittenHead(c, trail);
    TypeKept(c.entryType);
    KeyKept(c.key);
    ReadRequired(c, trail);
    ReadOptional(c, trail);
  }

  // --- the whole text

  lemma {:induction false} ReadPiecesAppend(read: string -> Option<Citation>, a: seq<string>, b: seq<string>)
    ensures ReadPieces(read, a + b) == ReadPieces(read, a) + ReadPieces(read, b)
    decreases |b|
  {
    if b != [] {
      var front := b[..|b| - 1];
      assert (a + b)[..|a + b| - 1] == a + front;
      assert (a + b)[|a + b| - 1] == b[|b| - 1];
      ReadPiecesAppend(read, a, front);
      var last := read(b[|b| - 1]);
      var x := if last.Some? then [last.value] else [];
      assert ReadPieces(read, a) + ReadPieces(read, front) + x == ReadPieces(read, a) + (ReadPieces(read, front) + x);
    } else {
      assert a + b == a;
    }
  }

  /** The text of two or more citations: the first entry, a blank line, the rest. */
  lemma ManyEntries(cs: seq<Citation>)
    requires |cs| >= 2
    ensures ToBibTeX(cs) == EntryText(cs[0]) + "\n\n" + ToBibTeX(cs[1..])
  {
    assert EntryTexts(cs)[0] == EntryText(cs[0]);
    assert EntryTexts(cs)[1..] == EntryTexts(cs[1..]);
  }

  /** The text of citations starts with a header. */
  lemma TextStartsWithHeader(cs: seq<Citation>)
    requires cs != [] && Writable(cs[0])
    ensures HeaderAt(ToBibTeX(cs))
  {
    var t := ToBibTeX(cs);
    FirstEntryPrefix(cs);
    WrittenHead(cs[0], t[|EntryText(cs[0])|..]);
  }

  lemma FirstEntryPrefix(cs: seq<Citation>)
    requires cs != []
    ensures |EntryText(cs[0])| <= |ToBibTeX(cs)|
    ensures ToBibTeX(cs) == EntryText(cs[0]) + ToBibTeX(cs)[|EntryText(cs[0])|..]
  {
    if |cs| == 1 {
      assert ToBibTeX(cs) == EntryText(cs[0]);
    } else {
      ManyEntries(cs);
    }
  }

  /** The text of one citation is read back as one citation. */
  lemma ReadOne(c: Citation)
    requires Writable(c)
    ensures Parsed(ToBibTeX([c])) == [ReadBack(c)]
  {
    var e := EntryText(c);
    assert ToBibTeX([c]) == e;
    EntryAtFree(c);
    NoCut(e, 1);
    assert Pieces(e) == [e];
    assert e + "" == e;
    EntryRoundTrip(c, "");
    assert ReadPieces(EntryOf, [e]) == ReadPieces(EntryOf, []) + [ReadBack(c)];
  }

  /** The text of several citations is cut after the first entry's blank line. */
  lemma CutFirst(cs: seq<Citation>)
    requires |cs| >= 2 && Writable(cs[0]) && Writable(cs[1])
    ensures Pieces(ToBibTeX(cs)) == [EntryText(cs[0]) + "\n\n"] + Pieces(ToBibTeX(cs[1..]))
  {
    ManyEntries(cs);
    EntryAtFree(cs[0]);
    TextStartsWithHeader(cs[1..]);
    CutJoined(EntryText(cs[0]), ToBibTeX(cs[1..]));
  }

  /** Text free of `@` after its first character, a blank line and a header
    * are cut after the blank line. */
  lemma CutJoined(e: string, rest: string)
    requires e != [] && forall j :: 1 <= j < |e| ==> e[j] != '@'
    requires HeaderAt(rest)
    ensures Pieces(e + "\n\n" + rest) == [e + "\n\n"] + Pieces(rest)
  {
    var s := e + "\n\n" + rest;
    assert s[|e| + 2..] == rest;
    assert forall j :: 1 <= j < |e| + 2 ==> s[j] != '@' by {
      assert forall j :: 1 <= j < |e| ==> s[j] == e[j];
    }
    CutAt(s, 1, |e| + 2);
    assert s[..|e| + 2] == e + "\n\n";
  }

  function ReadBacks(cs: seq<Citation>): (r: seq<Citation>)
    ensures |r| == |cs| && forall i :: 0 <= i < |cs| ==> r[i] == ReadBack(cs[i])
  {
    seq(|cs|, i requires 0 <= i < |cs| => ReadBack(cs[i]))
  }

  /** Writable citations, written and read again, come back with only the
    * empty titles changed (to their booktitle). */
  lemma {:induction false} WrittenReadsBack(cs: seq<Citation>)
    requires forall i :: 0 <= i < |cs| ==> Writable(cs[i])
    ensures Parsed(ToBibTeX(cs)) == ReadBacks(cs)
    decreases |cs|
  {
    if cs == [] {
      ReadNothing();
    } else if |cs| == 1 {
      ReadOne(cs[0]);
      assert [cs[0]] == cs;
    } else {
      ReadMany(cs);
      WrittenReadsBack(cs[1..]);
      ReadBacksCons(cs);
    }
  }

  lemma ReadNothing()
    ensures Parsed(ToBibTeX([])) == []
  {
    assert ToBibTeX([]) == "";
    assert Pieces("") == [""];
    assert ReadPieces(EntryOf, [""]) == ReadPieces(EntryOf, []);
  }

  lemma ReadBacksCons(cs: seq<Citation>)
    requires cs != []
    ensures ReadBacks(cs) == [ReadBack(cs[0])] + ReadBacks(cs[1..])
  {
  }

  /** The text of several citations reads as the first one, then the rest. */
  lemma ReadMany(cs: seq<Citation>)
    requires |cs| >= 2 && Writable(cs[0]) && Writable(cs[1])
    ensures Parsed(ToBibTeX(cs)) == [ReadBack(cs[0])] + Parsed(ToBibTeX(cs[1..]))
  {
    var sep := "\n\n";
    SeparatorNotLetter(sep);
    CutFirst(cs);
    EntryRoundTrip(cs[0], sep);
    ReadJoined(ToBibTeX(cs), EntryText(cs[0]) + sep, ToBibTeX(cs[1..]), ReadBack(cs[0]));
  }

  lemma SeparatorNotLetter(sep: string)
    requires sep == "\n\n"
    ensures AllChars(sep, NotLetter)
  {
  }

  lemma ReadJoined(s: string, p: string, rest: string, x: Citation)
    requires Pieces(s) == [p] + Pieces(rest) && EntryOf(p) == Some(x)
    ensures Parsed(s) == [x] + Parsed(rest)
  {
    ReadCons(EntryOf, p, Pieces(rest), x);
  }

  lemma ReadCons(read: string -> Option<Citation>, p: string, ps: seq<string>, x: Citation)
    requires read(p) == Some(x)
    ensures ReadPieces(read, [p] + ps) == [x] + ReadPieces(read, ps)
  {
    assert ReadPieces(read, [p]) == ReadPieces(read, []) + [x];
    ReadPiecesAppend(read, [p], ps);
  }

  /** Switching from the visual editor to the text and back keeps a list of
    * well-formed citations as it was. */
  lemma RoundTrip(cs: seq<Citation>)
    requires forall i :: 0 <= i < |cs| ==> WellFormed(cs[i])
    ensures Parsed(ToBibTeX(cs)) == cs
  {
    WrittenReadsBack(cs);
    assert ReadBacks(cs) == cs;
  }

  /** The unanchored title pattern: a citation with an empty title and a
    * booktitle reads back with the booktitle as its title. */
  lemma EmptyTitleReadsBooktitle(c: Citation)
    requires Writable(c) && c.title == "" && Filled(c.booktitle)
    ensures Parsed(ToBibTeX([c])) == [c.(title := c.booktitle.value)]
  {
    ReadOne(c);
  }

  // ---------------------------------------------------------------------------
  // What the reader guarantees of any text

  /** What every citation read from a header has: a lower-cased word type
    * that is not `comment` and a key with no comma or blank. */
  predicate HeaderShape(c: Citation)
  {
    c.entryType != [] && AllChars(c.entryType, IsTypeChar) && c.entryType != "comment"
    && c.key != [] && AllChars(c.key, IsKeyChar)
  }

  lemma LowerWord(w: string)
    requires w != [] && AllChars(w, IsJsWordChar)
    ensures Lower(w) != [] && AllChars(Lower(w), IsTypeChar)
  {
    forall i | 0 <= i < |w| ensures IsTypeChar(Lower(w)[i]) {
      assert IsJsWordChar(w[i]);
    }
  }

  /** The type and key of a read entry come from its first header. */
  lemma EntryHeader(piece: string)
    requires EntryOf(piece).Some?
    ensures FirstHead(piece).Some?
    ensures EntryOf(piece).value.entryType == Lower(FirstHead(piece).value.0) != "comment"
    ensures EntryOf(piece).value.key == JsTrim(FirstHead(piece).value.1)
  {
  }

  lemma EntryShape(piece: string)
    requires EntryOf(piece).Some?
    ensures HeaderShape(EntryOf(piece).value)
  {
    EntryHeader(piece);
    var h := FirstHead(piece).value;
    KeyKept(h.1);
    LowerWord(h.0);
  }

  lemma {:induction false} ReadShape(ps: seq<string>)
    ensures forall i :: 0 <= i < |ReadPieces(EntryOf, ps)| ==> HeaderShape(ReadPieces(EntryOf, ps)[i])
    decreases |ps|
  {
    if ps != [] {
      ReadShape(ps[..|ps| - 1]);
      var last := EntryOf(ps[|ps| - 1]);
      if last.Some? {
        EntryShape(ps[|ps| - 1]);
      }
    }
  }

  /** No text reads as a `comment` entry, or as a key with a comma or a blank. */
  lemma ParsedShape(content: string)
    ensures forall i :: 0 <= i < |Parsed(content)| ==> HeaderShape(Parsed(content)[i])
  {
    ReadShape(Pieces(content));
  }

  // ---------------------------------------------------------------------------
  // Display

  /** `authors.split(" ").pop()`. */
  function LastWord(s: string): string
  {
    var parts := Split(s, ' ');
    parts[|parts| - 1]
  }

  /** `formatCitation`: the first author's surname (the text before a comma,
    * else the last word) and the year in parentheses. */
  function FormatCitation(c: Citation): string
  {
    var first := Before(c.author, " and ");
    var lead := Before(first, ",");
    (if lead != "" then lead else LastWord(first)) + " (" + c.year + ")"
  }

  /** Only the author before the first " and " counts. */
  lemma FirstAuthorOnly(c: Citation, a: string, b: string)
    requires c.author == a + " and " + b && !Contains(a + " and", " and ")
    ensures FormatCitation(c) == FormatCitation(c.(author := a))
  {
    var s := c.author;
    forall j | 0 <= j < |a| && OccursAt(s, " and ", j)
      ensures OccursAt(a + " and", " and ", j)
    {
      assert s[j..j + 5] == (a + " and")[j..j + 5];
    }
    assert OccursAt(s, " and ", |a|) by {
      assert s[|a|..|a| + 5] == " and ";
    }
    BeforeAt(s, " and ", |a|);
    assert s[..|a|] == a;
    assert !Contains(a, " and ") by {
      forall j | 0 <= j <= |a| && OccursAt(a, " and ", j)
        ensures OccursAt(a + " and", " and ", j)
      {
        assert a[j..j + 5] == (a + " and")[j..j + 5];
      }
    }
    BeforeAbsent(a, " and ");
  }

  /** A single author written "Surname, Given" shows the surname. */
  lemma SurnameBeforeComma(c: Citation, surname: string, given: string)
    requires c.author == surname + "," + given && surname != "" && ',' !in surname
    requires !Contains(c.author, " and ")
    ensures FormatCitation(c) == surname + " (" + c.year + ")"
  {
    BeforeAbsent(c.author, " and ");
    assert OccursAt(c.author, ",", |surname|) by {
      assert c.author[|surname|..|surname| + 1] == ",";
    }
    forall j | 0 <= j < |surname| ensures !OccursAt(c.author, ",", j) {
      assert c.author[j] == surname[j];
    }
    BeforeAt(c.author, ",", |surname|);
    assert c.author[..|surname|] == surname;
  }

  /** A single author written without a comma shows whole, since the text
    * before a missing comma is all of it. */
  lemma WholeNameWithoutComma(c: Citation)
    requires c.author != "" && ',' !in c.author && !Contains(c.author, " and ")
    ensures FormatCitation(c) == c.author + " (" + c.year + ")"
  {
    BeforeAbsent(c.author, " and ");
    MissingCharNotContains(c.author, ",", 0);
    BeforeAbsent(c.author, ",");
  }

  /** Only an author starting with a comma falls back to the last blank-separated word. */
  lemma LastWordAfterLeadingComma(c: Citation, given: string, surname: string)
    requires c.author == "," + given + " " + surname && ' ' !in surname
    requires !Contains(c.author, " and ")
    ensures FormatCitation(c) == surname + " (" + c.year + ")"
  {
    BeforeAbsent(c.author, " and ");
    assert OccursAt(c.author, ",", 0) by { assert c.author[..1] == ","; }
    BeforeAt(c.author, ",", 0);
    assert c.author == ("," + given) + [' '] + surname;
    SplitLast("," + given, ' ', surname);
  }

  lemma {:induction false} SplitLast(x: string, c: char, b: string)
    requires c !in b
    ensures |Split(x + [c] + b, c)| >= 2
    ensures Split(x + [c] + b, c)[|Split(x + [c] + b, c)| - 1] == b
    decreases |x|
  {
    var s := x + [c] + b;
    if x == [] {
      assert s == [c] + b && s[1..] == b;
      SplitNoSep(b, c);
    } else {
      assert s[0] == x[0] && s[1..] == x[1..] + [c] + b;
      SplitLast(x[1..], c, b);
    }
  }

  /** The reference types the form offers, with their labels. */
  const ReferenceTypes: seq<(string, string)> := [
    ("article", "Artigo de Periodico"), ("book", "Livro"),
    ("inproceedings", "Artigo de Conferencia"), ("incollection", "Capitulo de Livro"),
    ("phdthesis", "Tese de Doutorado"), ("mastersthesis", "Dissertacao de Mestrado"),
    ("techreport", "Relatorio Tecnico"), ("misc", "Outros")]

  /** `REFERENCE_TYPES.find(t => t.value === type)?.label`. */
  function FindLabel(types: seq<(string, string)>, t: string): (r: Option<string>)
    ensures r.Some? ==> exists i :: 0 <= i < |types| && types[i] == (t, r.value)
    ensures r.None? <==> forall i :: 0 <= i < |types| ==> types[i].0 != t
    decreases |types|
  {
    if types == [] then None
    else if types[0].0 == t then Some(types[0].1)
    else
      var r := FindLabel(types[1..], t);
      assert forall i :: 1 <= i < |types| ==> types[i] == types[1..][i - 1];
      r
  }

  /** `getTypeLabel`: the label of a known type, the type itself otherwise. */
  function TypeLabel(t: string): (r: string)
  {
    match FindLabel(ReferenceTypes, t)
    case Some(l) => if l != "" then l else t
    case None => t
  }

  lemma {:induction false} FindFirst(types: seq<(string, string)>, k: nat)
    requires k < |types| && forall j :: 0 <= j < k ==> types[j].0 != types[k].0
    ensures FindLabel(types, types[k].0) == Some(types[k].1)
    decreases k
  {
    if k > 0 {
      FindFirst(types[1..], k - 1);
    }
  }

  lemma DistinctTypes()
    ensures forall j, k :: 0 <= j < k < |ReferenceTypes| ==> ReferenceTypes[j].0 != ReferenceTypes[k].0
  {
    var n := seq(|ReferenceTypes|, i requires 0 <= i < |ReferenceTypes| => |ReferenceTypes[i].0|);
    assert n == [7, 4, 13, 12, 9, 13, 10, 4];
    assert ReferenceTypes[1].0[0] == 'b' && ReferenceTypes[7].0[0] == 'm';
    assert ReferenceTypes[2].0[0] == 'i' && ReferenceTypes[5].0[0] == 'm';
  }

  /** Each listed type shows its own label; any other type shows as itself. */
  lemma TypeLabels(t: string)
    ensures forall k :: 0 <= k < |ReferenceTypes| ==> TypeLabel(ReferenceTypes[k].0) == ReferenceTypes[k].1
    ensures (forall k :: 0 <= k < |ReferenceTypes| ==> ReferenceTypes[k].0 != t) ==> TypeLabel(t) == t
  {
    DistinctTypes();
    forall k | 0 <= k < |ReferenceTypes|
      ensures TypeLabel(ReferenceTypes[k].0) == ReferenceTypes[k].1
    {
      FindFirst(ReferenceTypes, k);
      assert ReferenceTypes[k].1 != "";
    }
  }

  /** `filteredCitations`: the citations whose key, title or author contains
    * the search term, ignoring case, in order. */
  function Matching(cs: seq<Citation>, term: string): (r: seq<Citation>)
    ensures |r| <= |cs|
    ensures forall c :: c in r <==> c in cs && (ContainsFolded(c.key, term) || ContainsFolded(c.title, term) || ContainsFolded(c.author, term))
    decreases |cs|
  {
    if cs == [] then []
    else
      var rest := Matching(cs[1..], term);
      assert forall c :: c in cs <==> c == cs[0] || c in cs[1..];
      var c := cs[0];
      if ContainsFolded(c.key, term) || ContainsFolded(c.title, term) || ContainsFolded(c.author, term) then [c] + rest else rest
  }

  /** Filtering works element by element: on a concatenation it gives the
    * results on the parts, one after the other. */
  lemma {:induction false} MatchingAppend(a: seq<Citation>, b: seq<Citation>, term: string)
    ensures Matching(a + b, term) == Matching(a, term) + Matching(b, term)
    decreases |a|
  {
    if a == [] {
      assert a + b == b;
    } else {
      assert (a + b)[0] == a[0];
      assert (a + b)[1..] == a[1..] + b;
      MatchingAppend(a[1..], b, term);
    }
  }

  /** The result keeps each element, in its place, exactly when it passes the
    * test: an element between two runs of the list is kept between their
    * results, or dropped. */
  lemma MatchingInPlace(a: seq<Citation>, x: Citation, b: seq<Citation>, term: string)
    ensures Matching(a + [x] + b, term) == Matching(a, term) + (if ContainsFolded(x.key, term) || ContainsFolded(x.title, term) || ContainsFolded(x.author, term) then [x] else []) + Matching(b, term)
  {
    MatchingAppend(a + [x], b, term);
    MatchingAppend(a, [x], term);
    MatchingOne(x, term);
  }

  lemma MatchingOne(x: Citation, term: string)
    ensures Matching([x], term) == if ContainsFolded(x.key, term) || ContainsFolded(x.title, term) || ContainsFolded(x.author, term) then [x] else []
  {
    assert [x][1..] == [];
  }

  // ---------------------------------------------------------------------------
  // The list handlers

  /** `citations.findIndex(c => c.key === key)`: the first index holding the
    * key, or -1 when none does. */
  function FindIndex(cs: seq<Citation>, key: string): (r: int)
    ensures -1 <= r < |cs|
    ensures r == -1 <==> forall i :: 0 <= i < |cs| ==> cs[i].key != key
    ensures r >= 0 ==> cs[r].key == key && forall i :: 0 <= i < r ==> cs[i].key != key
    decreases |cs|
  {
    if cs == [] then -1
    else if cs[0].key == key then 0
    else
      var r := FindIndex(cs[1..], key);
      assert forall i :: 1 <= i < |cs| ==> cs[i] == cs[1..][i - 1];
      if r == -1 then -1 else r + 1
  }

  /** `handleUpdateCitation`: the entry at `index` replaced; a negative
    * index names no element and changes none. */
  function Updated(cs: seq<Citation>, index: int, u: Citation): (r: seq<Citation>)
    requires index < |cs|
    ensures |r| == |cs|
    ensures index >= 0 ==> r[index] == u
    ensures forall i :: 0 <= i < |cs| && i != index ==> r[i] == cs[i]
  {
    if index < 0 then cs else cs[index := u]
  }

  /** `handleDeleteCitation`: `citations.filter((_, i) => i !== index)`. */
  function Deleted(cs: seq<Citation>, index: int): (r: seq<Citation>)
    ensures 0 <= index < |cs| ==> r == cs[..index] + cs[index + 1..]
    ensures !(0 <= index < |cs|) ==> r == cs
    decreases |cs|
  {
    if cs == [] then []
    else (if index == 0 then [] else [cs[0]]) + Deleted(cs[1..], index - 1)
  }

  /** Editing through a key reaches the first citation with that key: when
    * two citations share a key, the later one is never the one changed. */
  lemma DuplicateKeyEditsFirst(cs: seq<Citation>, i: nat, j: nat, u: Citation)
    requires i < j < |cs| && cs[i].key == cs[j].key
    ensures FindIndex(cs, cs[j].key) <= i
    ensures Updated(cs, FindIndex(cs, cs[j].key), u)[j] == cs[j]
    ensures Deleted(cs, FindIndex(cs, cs[j].key))[j - 1] == cs[j]
  {
    var k := FindIndex(cs, cs[j].key);
    assert 0 <= k <= i by {
      assert cs[i].key == cs[j].key;
    }
    DeletedBefore(cs, k, j);
  }

  /** Deleting an index moves every later citation down by one. */
  lemma DeletedBefore(cs: seq<Citation>, k: nat, j: nat)
    requires k < j < |cs|
    ensures Deleted(cs, k)[j - 1] == cs[j]
  {
    var d := Deleted(cs, k);
    assert d == cs[..k] + cs[k + 1..];
    assert d[j - 1] == cs[k + 1..][j - 1 - k];
  }

  /** A digit of `Number.prototype.toString(36)`. */
  function Base36Digit(d: nat): (r: char)
    requires d < 36
    ensures IsAsciiDigit(r) || IsAsciiLower(r)
  {
    if d < 10 then DigitChar(d) else ((d - 10) + 'a' as int) as char
  }

  /** `n.toString(36)` for a natural number. */
  function Base36(n: nat): (r: string)
    ensures r != [] && forall i :: 0 <= i < |r| ==> IsAsciiDigit(r[i]) || IsAsciiLower(r[i])
    decreases n
  {
    if n < 36 then [Base36Digit(n)] else Base36(n / 36) + [Base36Digit(n % 36)]
  }

  function Base36Value(c: char): nat
  {
    if IsAsciiDigit(c) then c as int - '0' as int
    else if IsAsciiLower(c) then c as int - 'a' as int + 10
    else 0
  }

  /** The number a base-36 numeral denotes. */
  function ParseBase36(s: string): nat
    decreases |s|
  {
    if s == [] then 0 else ParseBase36(s[..|s| - 1]) * 36 + Base36Value(s[|s| - 1])
  }

  /** The generated keys tell their times apart: base 36 reads back. */
  lemma {:induction false} Base36RoundTrip(n: nat)
    ensures ParseBase36(Base36(n)) == n
    decreases n
  {
    if n < 36 {
      assert Base36Value(Base36Digit(n)) == n;
    } else {
      Base36RoundTrip(n / 36);
      var s := Base36(n);
      assert s[..|s| - 1] == Base36(n / 36);
      assert Base36Value(Base36Digit(n % 36)) == n % 36;
    }
  }

  /** `handleAddCitation`'s new entry, for the clock reading `now` (in
    * milliseconds) and the current year. */
  function NewCitation(now: nat, year: nat): Citation
  {
    Citation("ref" + Base36(now), "article", "", "", NatToString(year),
      None, None, None, None, None, None, None, None, None)
  }

  /** A new citation is written and read back unchanged. */
  lemma NewCitationWellFormed(now: nat, year: nat)
    ensures WellFormed(NewCitation(now, year))
    ensures Parsed(ToBibTeX([NewCitation(now, year)])) == [NewCitation(now, year)]
  {
    var c := NewCitation(now, year);
    NewKeyChars(now);
    NewYearSafe(year);
    ArticleShape("ref" + Base36(now), NatToString(year));
    assert WellFormed(c);
    assert forall i :: 0 <= i < |[c]| ==> [c][i] == c;
    RoundTrip([c]);
  }

  lemma ArticleShape(k: string, y: string)
    requires k != [] && AllChars(k, IsKeyChar) && '@' !in k && '=' !in k && SafeValue(y)
    ensures WellFormed(Citation(k, "article", "", "", y, None, None, None, None, None, None, None, None, None))
  {
    assert AllChars("article", IsTypeChar);
  }

  lemma NewKeyChars(now: nat)
    ensures AllChars("ref" + Base36(now), IsKeyChar)
    ensures '@' !in "ref" + Base36(now) && '=' !in "ref" + Base36(now)
  {
    var k := "ref" + Base36(now);
    assert forall i :: 0 <= i < |k| ==> i < 3 || k[i] == Base36(now)[i - 3];
  }

  lemma NewYearSafe(year: nat)
    ensures SafeValue(NatToString(year))
  {
    var y := NatToString(year);
    assert forall i :: 0 <= i < |y| ==> IsAsciiDigit(y[i]);
  }

  /** Two clock readings give two keys. */
  lemma NewKeysDiffer(now: nat, later: nat, year: nat)
    requires now != later
    ensures NewCitation(now, year).key != NewCitation(later, year).key
  {
    var a := NewCitation(now, year).key;
    var b := NewCitation(later, year).key;
    if a == b {
      assert Base36(now) == a[3..] && Base36(later) == b[3..];
      Base36RoundTrip(now);
      Base36RoundTrip(later);
    }
  }

  // ---------------------------------------------------------------------------
  // The editor

  datatype Tab = Visual | Raw

  /** The editor's state: the citation list of the visual tab, the text of
    * the raw tab and the tab on show. */
  class EditorState {
    var citations: seq<Citation>
    var rawContent: string
    var activeTab: Tab

    /** The initial state: the parsed text, the text itself, the visual tab. */
    constructor(bibContent: string)
      ensures citations == Parsed(bibContent) && rawContent == bibContent && activeTab == Visual
    {
      var parsed := ParseBibTeX(bibContent);
      citations := parsed;
      rawContent := bibContent;
      activeTab := Visual;
    }

    /** `handleSave`: the text handed to `onSave`. */
    function SavedContent(): string
      reads this
    {
      if activeTab == Visual then ToBibTeX(citations) else rawContent
    }

    method AddCitation(now: nat, year: nat)
      modifies this
      ensures citations == [NewCitation(now, year)] + old(citations)
      ensures rawContent == old(rawContent) && activeTab == old(activeTab)
    {
      citations := [NewCitation(now, year)] + citations;
    }

    /** The form's change handler; the index comes from `findIndex`, so it
      * is below the length. */
    method UpdateCitation(index: int, updated: Citation)
      requires index < |citations|
      modifies this
      ensures citations == Updated(old(citations), index, updated)
      ensures rawContent == old(rawContent) && activeTab == old(activeTab)
    {
      citations := Updated(citations, index, updated);
    }

    method DeleteCitation(index: int)
      modifies this
      ensures citations == Deleted(old(citations), index)
      ensures rawContent == old(rawContent) && activeTab == old(activeTab)
    {
      citations := Deleted(citations, index);
    }

    /** An edit in the form of the citation with key `key`. */
    method UpdateByKey(key: string, updated: Citation)
      modifies this
      ensures citations == Updated(old(citations), FindIndex(old(citations), key), updated)
      ensures rawContent == old(rawContent) && activeTab == old(activeTab)
    {
      UpdateCitation(FindIndex(citations, key), updated);
    }

    method DeleteByKey(key: string)
      modifies this
      ensures citations == Deleted(old(citations), FindIndex(old(citations), key))
      ensures rawContent == old(rawContent) && activeTab == old(activeTab)
    {
      DeleteCitation(FindIndex(citations, key));
    }

    /** `handleTabChange`: leaving the visual tab for the raw one writes the
      * list out; leaving the raw tab for the visual one reads the text in. */
    method ChangeTab(tab: Tab)
      modifies this
      ensures activeTab == tab
      ensures old(activeTab) == Visual && tab == Raw ==> rawContent == ToBibTeX(old(citations)) && citations == old(citations)
      ensures old(activeTab) == Raw && tab == Visual ==> citations == Parsed(old(rawContent)) && rawContent == old(rawContent)
      ensures old(activeTab) == tab ==> citations == old(citations) && rawContent == old(rawContent)
    {
      if tab == Raw && activeTab == Visual {
        rawContent := ToBibTeX(citations);
      } else if tab == Visual && activeTab == Raw {
        var parsed := ParseBibTeX(rawContent);
        citations := parsed;
      }
      activeTab := tab;
    }
  }
}
