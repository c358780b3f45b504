/** The citation features of the markdown editor
  * (src/components/editor/MarkdownEditor.tsx): its own small BibTeX reader,
  * the label a citation widget shows for a key, the splitting of a
  * `[@a; @b]` citation into keys, the ranges a decoration may cover,
  * completion inside an open `[@`, and the edits that replace or add a key.
  * Each regular expression is written out as the matcher it denotes. */
module MarkdownEditor {
  import opened Strings
  import BibliographyEditor

  // ---------------------------------------------------------------------------
  // The BibTeX reader

  datatype BibEntry = BibEntry(key: string, entryType: string, author: Option<string>, title: Option<string>, year: Option<string>)

  predicate IsCloser(c: char) { c == '}' || c == '"' }
  predicate NotCloser(c: char) { !IsCloser(c) }
  predicate NotAt(c: char) { c != '@' }
  predicate NotComma(c: char) { c != ',' }

  /** `[{"]([^}"]+)[}"]` at the start of `u`: the captured value. Either
    * delimiter may open or close it. */
  function Delimited(u: string): (r: Option<string>)
    ensures r.Some? ==> r.value != [] && AllChars(r.value, NotCloser)
    ensures r.Some? ==> 1 + |r.value| < |u| && u[1..1 + |r.value|] == r.value && IsCloser(u[1 + |r.value|])
  {
    if u != [] && (u[0] == '{' || u[0] == '"') then
      var v := TakeWhile(u[1..], NotCloser);
      if v != [] && 1 + |v| < |u| then Some(v) else None
    else None
  }

  /** `name\s*=\s*[{"]([^}"]+)[}"]`, ignoring case, at the start of `t`. */
  function FieldAt(name: string, t: string): Option<string>
  {
    match BibliographyEditor.ValueStart(name, t)
    case None => None
    case Some(p) => Delimited(t[p..])
  }

  /** `content.match(fieldRegex)`: the leftmost match. */
  function FirstField(name: string, t: string): Option<string>
    decreases |t|
  {
    if FieldAt(name, t).Some? then FieldAt(name, t)
    else if t == [] then None
    else FirstField(name, t[1..])
  }

  /** `getField`: the first value of the field, trimmed. */
  function GetField(name: string, content: string): (r: Option<string>)
    ensures r.Some? ==> IsStripped(r.value, IsJsSpace)
  {
    match FirstField(name, content)
    case None => None
    case Some(v) => StripShape(v, IsJsSpace); Some(JsTrim(v))
  }

  /** One match of the entry pattern: the type, the key group, the field
    * text after the comma, and the length of the match. */
  datatype Header = Header(kind: string, keyGroup: string, body: string, end: nat)

  /** What a match of the entry pattern at the start of `t` always is: it
    * starts at an `@`, has a word as type and a key group, its field text
    * holds no `@`, and it ends inside `t`. */
  predicate Fits(t: string, h: Header)
  {
    0 < h.end <= |t| && t[0] == '@'
    && h.kind != [] && AllChars(h.kind, IsJsWordChar)
    && h.keyGroup != [] && AllChars(h.body, NotAt)
  }

  /** A matcher of the entry pattern, as the global search uses one. */
  type Matcher = m: string -> Option<Header> | forall t :: m(t).Some? ==> Fits(t, m(t).value)
    witness (t: string) => None

  /** `@\w+\s*\{` at the start of `t`: the type and the position of the
    * brace. The word and the blanks cannot give characters back to each
    * other, so the greedy reading is the only match. */
  function Opening(t: string): (r: Option<(string, nat)>)
    ensures r.Some? ==> t != [] && t[0] == '@' && r.value.0 != [] && AllChars(r.value.0, IsJsWordChar)
    ensures r.Some? ==> |r.value.0| < r.value.1 < |t| && t[r.value.1] == '{'
  {
    if t == [] || t[0] != '@' then None
    else
      var w := TakeWhile(t[1..], IsJsWordChar);
      var b := 1 + |w| + |TakeWhile(t[1 + |w|..], IsJsSpace)|;
      if w == [] || b >= |t| || t[b] != '{' then None else Some((w, b))
  }

  /** `\s*([^,]+)\s*,([^@]*)` after the brace: the key group runs to the
    * first comma (its leading blanks are trimmed away with the rest), the field text
    * to the next `@`. */
  function KeyAndBody(u: string): (r: Option<(string, string)>)
    ensures r.Some? ==> r.value.0 != [] && |r.value.0| + 1 + |r.value.1| <= |u| && AllChars(r.value.1, NotAt)
  {
    var k := TakeWhile(u, NotComma);
    if k == [] || |k| >= |u| then None else Some((k, TakeWhile(u[|k| + 1..], NotAt)))
  }

  /** `@(\w+)\s*\{\s*([^,]+)\s*,([^@]*)` at the start of `t`. */
  function HeadMatch(t: string): (r: Option<Header>)
    ensures r.Some? ==> Fits(t, r.value)
  {
    HeadAfter(t, Opening(t))
  }

  /** The rest of the match once the opening `@type{` is known. */
  function HeadAfter(t: string, o: Option<(string, nat)>): (r: Option<Header>)
    requires o.Some? ==> o.value.1 < |t|
  {
    match o
    case None => None
    case Some(o) =>
      match KeyAndBody(t[o.1 + 1..])
      case None => None
      case Some(kb) => Some(Header(o.0, kb.0, kb.1, o.1 + 2 + |kb.0| + |kb.1|))
  }

  /** The matches the global `exec` loop finds in `t`: each search resumes
    * where the last match ended. */
  function ScanWith(m: Matcher, t: string): seq<Header>
    decreases |t|
  {
    if t == [] then []
    else match m(t)
      case Some(h) => [h] + ScanWith(m, t[h.end..])
      case None => ScanWith(m, t[1..])
  }

  /** The entry pushed for a match: the type lower-cased, the key trimmed. */
  function EntryOf(h: Header): BibEntry
  {
    BibEntry(JsTrim(h.keyGroup), Lower(h.kind), GetField("author", h.body), GetField("title", h.body), GetField("year", h.body))
  }

  function ReadAll(read: Header -> BibEntry, hs: seq<Header>): (r: seq<BibEntry>)
    ensures |r| == |hs| && forall i :: 0 <= i < |hs| ==> r[i] == read(hs[i])
  {
    seq(|hs|, i requires 0 <= i < |hs| => read(hs[i]))
  }

  /** What `parseBibTeX` returns. */
  function Scanned(bibContent: string): seq<BibEntry>
  {
    ReadAll(EntryOf, ScanWith(HeadMatch, bibContent))
  }

  /** The `exec` loop, for a matcher and a reading of each match. */
  method ScanLoop(m: Matcher, read: Header -> BibEntry, text: string) returns (entries: seq<BibEntry>)
    ensures entries == ReadAll(read, ScanWith(m, text))
  {
    entries := [];
    ghost var found: seq<Header> := [];
    var i := 0;
    while i < |text|
      invariant 0 <= i <= |text|
      invariant found + ScanWith(m, text[i..]) == ScanWith(m, text)
      invariant entries == ReadAll(read, found)
      decreases |text| - i
    {
      var rest := text[i..];
      match m(rest)
      case Some(h) =>
        assert rest[h.end..] == text[i + h.end..];
        assert found + [h] + ScanWith(m, text[i + h.end..]) == ScanWith(m, text);
        entries := entries + [read(h)];
        found := found + [h];
        i := i + h.end;
      case None =>
        assert rest[1..] == text[i + 1..];
        i := i + 1;
    }
    assert text[i..] == [];
  }

  /** `parseBibTeX` of the markdown editor. */
  method ParseBibTeX(bibContent: string) returns (entries: seq<BibEntry>)
    ensures entries == Scanned(bibContent)
  {
    entries := ScanLoop(HeadMatch, EntryOf, bibContent);
  }

  /** Every match fits the pattern. */
  lemma {:induction false} ScanFits(m: Matcher, t: string)
    ensures forall i :: 0 <= i < |ScanWith(m, t)| ==> ScanWith(m, t)[i].kind != [] && AllChars(ScanWith(m, t)[i].kind, IsJsWordChar)
    decreases |t|
  {
    if t != [] {
      match m(t)
      case Some(h) => ScanFits(m, t[h.end..]);
      case None => ScanFits(m, t[1..]);
    }
  }

  /** Every entry has a lower-cased word as type and a trimmed key. */
  lemma ScannedShape(bibContent: string)
    ensures forall i :: 0 <= i < |Scanned(bibContent)| ==>
      Scanned(bibContent)[i].entryType != [] && AllChars(Scanned(bibContent)[i].entryType, BibliographyEditor.IsTypeChar)
    ensures forall i :: 0 <= i < |Scanned(bibContent)| ==> IsStripped(Scanned(bibContent)[i].key, IsJsSpace)
  {
    var hs := ScanWith(HeadMatch, bibContent);
    ScanFits(HeadMatch, bibContent);
    forall i | 0 <= i < |hs|
      ensures Lower(hs[i].kind) != [] && AllChars(Lower(hs[i].kind), BibliographyEditor.IsTypeChar)
      ensures IsStripped(JsTrim(hs[i].keyGroup), IsJsSpace)
    {
      BibliographyEditor.LowerWord(hs[i].kind);
      StripShape(hs[i].keyGroup, IsJsSpace);
    }
  }

  lemma {:induction false} CountSuffix(t: string, i: nat, c: char)
    requires i <= |t|
    ensures Count(t[i..], c) <= Count(t, c)
    decreases i
  {
    if i > 0 {
      CountSuffix(t[1..], i - 1, c);
      assert t[1..][i - 1..] == t[i..];
    }
  }

  /** Each match takes an `@` of its own. */
  lemma {:induction false} ScanCount(m: Matcher, t: string)
    ensures |ScanWith(m, t)| <= Count(t, '@')
    decreases |t|
  {
    if t != [] {
      match m(t)
      case Some(h) =>
        ScanCount(m, t[h.end..]);
        CountSuffix(t[1..], h.end - 1, '@');
        assert t[1..][h.end - 1..] == t[h.end..];
      case None =>
        ScanCount(m, t[1..]);
    }
  }

  /** No more entries than `@` signs. */
  lemma ScannedCount(bibContent: string)
    ensures |Scanned(bibContent)| <= Count(bibContent, '@')
  {
    ScanCount(HeadMatch, bibContent);
  }

  /** Text without an `@` holds no match. */
  lemma {:induction false} NoAtSkipped(m: Matcher, a: string, rest: string)
    requires AllChars(a, NotAt)
    ensures ScanWith(m, a + rest) == ScanWith(m, rest)
    decreases |a|
  {
    if a != [] {
      assert (a + rest)[0] == a[0];
      assert (a + rest)[1..] == a[1..] + rest;
      NoAtSkipped(m, a[1..], rest);
    } else {
      assert a + rest == rest;
    }
  }

  lemma OpeningOfWritten(kind: string, x: string)
    requires kind != [] && AllChars(kind, IsJsWordChar)
    ensures Opening("@" + kind + "{" + x) == Some((kind, |kind| + 1))
  {
    var t := "@" + kind + "{" + x;
    assert t[1..] == kind + ['{'] + x;
    TakeWhileStops(kind, '{', x, IsJsWordChar);
    var v := t[1 + |kind|..];
    assert v == "{" + x;
    assert !IsJsSpace(v[0]);
    assert TakeWhile(v, IsJsSpace) == [];
  }

  lemma KeyAndBodyOfWritten(key: string, body: string, rest: string)
    requires key != [] && AllChars(key, NotComma) && AllChars(body, NotAt)
    requires rest == [] || rest[0] == '@'
    ensures KeyAndBody(key + "," + body + rest) == Some((key, body))
  {
    var u := key + "," + body + rest;
    assert u == key + [','] + (body + rest);
    TakeWhileStops(key, ',', body + rest, NotComma);
    assert u[|key| + 1..] == body + rest;
    if rest == [] {
      assert body + rest == body;
      TakeWhileWhole(body, NotAt);
    } else {
      assert body + rest == body + [rest[0]] + rest[1..];
      TakeWhileStops(body, rest[0], rest[1..], NotAt);
    }
  }

  lemma HeadFrom(t: string, o: (string, nat), kb: (string, string))
    requires Opening(t) == Some(o) && KeyAndBody(t[o.1 + 1..]) == Some(kb)
    ensures HeadMatch(t) == Some(Header(o.0, kb.0, kb.1, o.1 + 2 + |kb.0| + |kb.1|))
  {
    HeadAfterSome(t, o, kb);
  }

  lemma HeadAfterSome(t: string, o: (string, nat), kb: (string, string))
    requires o.1 < |t| && KeyAndBody(t[o.1 + 1..]) == Some(kb)
    ensures HeadAfter(t, Some(o)) == Some(Header(o.0, kb.0, kb.1, o.1 + 2 + |kb.0| + |kb.1|))
  {
  }

  lemma HeadAfterOpening(kind: string, x: string, kb: (string, string))
    requires kind != [] && AllChars(kind, IsJsWordChar) && KeyAndBody(x) == Some(kb)
    ensures HeadMatch("@" + kind + "{" + x) == Some(Header(kind, kb.0, kb.1, |kind| + 3 + |kb.0| + |kb.1|))
  {
    var t := "@" + kind + "{" + x;
    OpeningOfWritten(kind, x);
    assert t[|kind| + 2..] == x;
    HeadFrom(t, (kind, |kind| + 1), kb);
  }

  /** `@type{key,fields` before the next `@` is one match. */
  lemma HeadOfWritten(kind: string, key: string, body: string, rest: string, x: string)
    requires kind != [] && AllChars(kind, IsJsWordChar)
    requires key != [] && AllChars(key, NotComma) && AllChars(body, NotAt)
    requires rest == [] || rest[0] == '@'
    requires x == key + "," + body + rest
    ensures HeadMatch("@" + kind + "{" + x) == Some(Header(kind, key, body, |kind| + |key| + |body| + 3))
  {
    KeyAndBodyOfWritten(key, body, rest);
    HeadAfterOpening(kind, x, (key, body));
  }

  lemma ReadStep(m: Matcher, read: Header -> BibEntry, t: string, h: Header)
    requires t != [] && m(t) == Some(h)
    ensures ReadAll(read, ScanWith(m, t)) == [read(h)] + ReadAll(read, ScanWith(m, t[h.end..]))
  {
    var hs := ScanWith(m, t[h.end..]);
    assert ScanWith(m, t) == [h] + hs;
    assert ReadAll(read, [h] + hs) == [read(h)] + ReadAll(read, hs);
  }

  lemma ScannedStep(t: string, h: Header)
    requires t != [] && HeadMatch(t) == Some(h)
    ensures Scanned(t) == [EntryOf(h)] + Scanned(t[h.end..])
  {
    ReadStep(HeadMatch, EntryOf, t, h);
  }

  /** An entry written `@type{key,fields` before the next `@` reads as one entry. */
  lemma WrittenEntry(kind: string, key: string, body: string, rest: string)
    requires kind != [] && AllChars(kind, IsJsWordChar)
    requires key != [] && AllChars(key, NotComma) && AllChars(body, NotAt)
    requires rest == [] || rest[0] == '@'
    ensures Scanned("@" + kind + "{" + key + "," + body + rest)
      == [BibEntry(JsTrim(key), Lower(kind), GetField("author", body), GetField("title", body), GetField("year", body))] + Scanned(rest)
  {
    var x := key + "," + body + rest;
    var t := "@" + kind + "{" + x;
    assert t == "@" + kind + "{" + key + "," + body + rest;
    var h := Header(kind, key, body, |kind| + |key| + |body| + 3);
    HeadOfWritten(kind, key, body, rest, x);
    assert t[h.end..] == rest;
    ScannedStep(t, h);
  }

  // ---------------------------------------------------------------------------
  // The citation widget

  predicate NotUpper(c: char) { !IsAsciiUpper(c) }

  /** A key the widget pattern can match: ASCII letters, then four digits. */
  predicate DatedKey(key: string)
  {
    |key| > 4 && AllChars(key[..|key| - 4], IsAsciiLetter) && AllDigits(key[|key| - 4..])
  }

  /** The label shown for a key: for `^([a-zA-Z]+?)([A-Z][a-zA-Z]*)?(\d{4})$`
    * the lazy first group is the shortest run of letters followed by an
    * upper-case letter or by the year, shown capitalised, then the year. */
  function Label(key: string): (r: string)
    ensures !DatedKey(key) ==> r == key
    ensures DatedKey(key) ==> EndsWith(r, ", " + key[|key| - 4..])
  {
    if DatedKey(key) then
      var letters := key[..|key| - 4];
      var first := [letters[0]] + TakeWhile(letters[1..], NotUpper);
      [UpperChar(first[0])] + first[1..] + ", " + key[|key| - 4..]
    else key
  }

  /** A camel-case key shows its first word, capitalised, and its year. */
  lemma CamelKeyLabel(word: string, rest: string, year: string)
    requires word != [] && IsAsciiLetter(word[0]) && AllChars(word[1..], IsAsciiLower)
    requires AllChars(rest, IsAsciiLetter) && (rest == [] || IsAsciiUpper(rest[0]))
    requires |year| == 4 && AllDigits(year)
    ensures Label(word + rest + year) == [UpperChar(word[0])] + word[1..] + ", " + year
  {
    var key := word + rest + year;
    var letters := key[..|key| - 4];
    assert letters == word + rest;
    assert key[|key| - 4..] == year;
    assert letters[1..] == word[1..] + rest;
    if rest == [] {
      assert word[1..] + rest == word[1..];
      TakeWhileWhole(word[1..], NotUpper);
    } else {
      assert word[1..] + rest == word[1..] + [rest[0]] + rest[1..];
      TakeWhileStops(word[1..], rest[0], rest[1..], NotUpper);
    }
    assert [letters[0]] + word[1..] == word;
  }

  function Labels(keys: seq<string>): (r: seq<string>)
    ensures |r| == |keys| && forall i :: 0 <= i < |keys| ==> r[i] == Label(keys[i])
  {
    seq(|keys|, i requires 0 <= i < |keys| => Label(keys[i]))
  }

  /** The text of a widget: the labels in parentheses, separated by "; ". */
  function WidgetText(keys: seq<string>): string
  {
    "(" + Join(Labels(keys), "; ") + ")"
  }

  /** "; " stands between two items and nowhere else. */
  lemma WidgetSeparators(keys: seq<string>, k: string)
    ensures WidgetText([k]) == "(" + Label(k) + ")"
    ensures keys != [] ==> WidgetText(keys + [k]) == "(" + Join(Labels(keys), "; ") + "; " + Label(k) + ")"
  {
    if keys != [] {
      assert Labels(keys + [k]) == Labels(keys) + [Label(k)];
      JoinAppend(Labels(keys), Label(k), "; ");
    }
  }

  // ---------------------------------------------------------------------------
  // Citations in the text

  function DropAt(s: string): (r: string)
    ensures r == s || (s != [] && s[0] == '@' && r == s[1..])
  {
    if s != [] && s[0] == '@' then s[1..] else s
  }

  /** `match[1].split(";").map(c => c.trim().replace(/^@/, ""))`. */
  function CitationKeys(inner: string): (r: seq<string>)
    ensures |r| == |Split(inner, ';')|
  {
    var parts := Split(inner, ';');
    seq(|parts|, i requires 0 <= i < |parts| => DropAt(JsTrim(parts[i])))
  }

  /** One key more than there are `;`, each trimmed and without a leading `@`. */
  lemma CitationKeysShape(inner: string)
    ensures |CitationKeys(inner)| == Count(inner, ';') + 1
    ensures forall i :: 0 <= i < |CitationKeys(inner)| ==> CitationKeys(inner)[i] == DropAt(JsTrim(Split(inner, ';')[i]))
  {
    SplitJoin(inner, ';');
  }

  /** A citation in the text: where `[@…]` starts and ends, and the text between `[@` and `]`. */
  datatype Cite = Cite(from: nat, to: nat, inner: string)

  /** `\[@([^\]]+)\]` at the start of `t`: the captured text. */
  function CiteMatch(t: string): (r: Option<string>)
    ensures r.Some? ==> r.value != [] && ']' !in r.value && 3 + |r.value| <= |t|
    ensures r.Some? ==> t[..3 + |r.value|] == "[@" + r.value + "]"
  {
    if |t| >= 2 && t[0] == '[' && t[1] == '@' then
      match IndexOfChar(t[2..], ']')
      case None => None
      case Some(k) =>
        if k == 0 then None
        else
          assert t[..3 + k] == "[@" + t[2..][..k] + "]";
          Some(t[2..][..k])
    else None
  }

  /** The citations the global `exec` loop finds in `t`, positions counted from `offset`. */
  function Cites(t: string, offset: nat): (r: seq<Cite>)
    ensures forall i :: 0 <= i < |r| ==> offset <= r[i].from < r[i].to <= offset + |t|
    ensures forall i :: 0 <= i < |r| ==> r[i].to == r[i].from + 3 + |r[i].inner|
    decreases |t|
  {
    if t == [] then []
    else match CiteMatch(t)
      case Some(v) => [Cite(offset, offset + 3 + |v|, v)] + Cites(t[3 + |v|..], offset + 3 + |v|)
      case None => Cites(t[1..], offset + 1)
  }

  /** Every citation found covers `[@`, its captured text and `]`. */
  lemma {:induction false} CitesCover(doc: string, t: string, offset: nat)
    requires offset + |t| == |doc| && doc[offset..] == t
    ensures forall i :: 0 <= i < |Cites(t, offset)| ==>
      doc[Cites(t, offset)[i].from..Cites(t, offset)[i].to] == "[@" + Cites(t, offset)[i].inner + "]"
    decreases |t|
  {
    if t != [] {
      match CiteMatch(t)
      case Some(v) =>
        assert doc[offset + 3 + |v|..] == t[3 + |v|..];
        CitesCover(doc, t[3 + |v|..], offset + 3 + |v|);
        assert doc[offset..offset + 3 + |v|] == t[..3 + |v|];
      case None =>
        assert doc[offset + 1..] == t[1..];
        CitesCover(doc, t[1..], offset + 1);
    }
  }

  // ---------------------------------------------------------------------------
  // Decoration ranges

  /** A decoration: the text range it covers (`from` and `to` are offsets). */
  datatype Range = Range(from: nat, to: nat)

  /** `doc.lineAt(pos).number`. */
  function LineNumber(doc: string, pos: nat): nat
    requires pos <= |doc|
  {
    Count(doc[..pos], '\n') + 1
  }

  /** The filter's test: a non-empty range whose ends are on one line; an
    * end past the text makes `lineAt` throw, and the range is dropped. */
  predicate Kept(doc: string, d: Range)
  {
    d.from < d.to && d.to <= |doc| && LineNumber(doc, d.from) == LineNumber(doc, d.to)
  }

  /** A range is kept exactly when it is non-empty, inside the text and
    * crosses no line break. */
  lemma KeptSingleLine(doc: string, d: Range)
    ensures Kept(doc, d) <==> d.from < d.to <= |doc| && '\n' !in doc[d.from..d.to]
  {
    if d.from < d.to <= |doc| {
      assert doc[..d.to] == doc[..d.from] + doc[d.from..d.to];
      CountConcat(doc[..d.from], doc[d.from..d.to], '\n');
      CountZero(doc[d.from..d.to], '\n');
    }
  }

  /** The decorations handed to `Decoration.set`, in order. */
  function KeptRanges(doc: string, ds: seq<Range>): (r: seq<Range>)
    ensures |r| <= |ds|
    ensures forall d :: d in r <==> d in ds && Kept(doc, d)
    decreases |ds|
  {
    if ds == [] then []
    else
      assert forall d :: d in ds <==> d == ds[0] || d in ds[1..];
      (if Kept(doc, ds[0]) then [ds[0]] else []) + KeptRanges(doc, ds[1..])
  }

  /** Filtering works element by element: on a concatenation it gives the
    * results on the parts, one after the other. */
  lemma {:induction false} KeptRangesAppend(a: seq<Range>, b: seq<Range>, doc: string)
    ensures KeptRanges(doc, a + b) == KeptRanges(doc, a) + KeptRanges(doc, b)
    decreases |a|
  {
    if a == [] {
      assert a + b == b;
    } else {
      assert (a + b)[0] == a[0];
      assert (a + b)[1..] == a[1..] + b;
      KeptRangesAppend(a[1..], b, doc);
    }
  }

  /** The result keeps each element, in its place, exactly when it passes the
    * test: an element between two runs of the list is kept between their
    * results, or dropped. */
  lemma KeptRangesInPlace(a: seq<Range>, x: Range, b: seq<Range>, doc: string)
    ensures KeptRanges(doc, a + [x] + b) == KeptRanges(doc, a) + (if Kept(doc, x) then [x] else []) + KeptRanges(doc, b)
  {
    KeptRangesAppend(a + [x], b, doc);
    KeptRangesAppend(a, [x], doc);
    KeptRangesOne(x, doc);
  }

  lemma KeptRangesOne(x: Range, doc: string)
    ensures KeptRanges(doc, [x]) == if Kept(doc, x) then [x] else []
  {
    assert [x][1..] == [];
  }

  /** A citation written across a line break gets no decoration. */
  lemma MultiLineCiteDropped(doc: string, c: Cite, k: nat)
    requires c.from <= k < c.to <= |doc| && doc[k] == '\n'
    ensures !Kept(doc, Range(c.from, c.to))
  {
    KeptSingleLine(doc, Range(c.from, c.to));
    assert doc[c.from..c.to][k - c.from] == '\n';
  }

  // ---------------------------------------------------------------------------
  // Completion

  /** An unclosed `[@` at `j` of the text before the cursor. */
  predicate OpensAt(before: string, j: nat)
  {
    OccursAt(before, "[@", j) && forall k :: j <= k < |before| ==> before[k] != ']'
  }

  /** `matchBefore(/\[@[^\]]*$/)`: the leftmost unclosed `[@`. */
  function OpenFrom(before: string, j: nat): (r: Option<nat>)
    ensures r.Some? ==> j <= r.value && OpensAt(before, r.value)
    ensures r.Some? ==> forall i :: j <= i < r.value ==> !OpensAt(before, i)
    ensures r.None? ==> forall i :: j <= i ==> !OpensAt(before, i)
    decreases |before| - j
  {
    if j + 2 > |before| then None
    else if OpensAt(before, j) then Some(j)
    else OpenFrom(before, j + 1)
  }

  /** The index of the last `c` in `s`. */
  function LastIndexOfChar(s: string, c: char): (r: Option<nat>)
    ensures r.Some? ==> r.value < |s| && s[r.value] == c && forall j :: r.value < j < |s| ==> s[j] != c
    ensures r.None? ==> forall j :: 0 <= j < |s| ==> s[j] != c
    decreases |s|
  {
    if s == [] then None
    else if s[|s| - 1] == c then Some(|s| - 1)
    else LastIndexOfChar(s[..|s| - 1], c)
  }

  /** What is being typed after `[@`: the last key, without its `@`. */
  function SearchText(after: string): string
  {
    match LastIndexOfChar(after, ';')
    case Some(k) => DropAt(JsTrim(after[k + 1..]))
    case None => DropAt(after)
  }

  /** Where the completion replaces from, counted within `after`. */
  function ReplaceOffset(after: string): (r: nat)
    ensures r <= |after|
  {
    match LastIndexOfChar(after, ';')
    case Some(k) => k + 1 + |TakeWhile(after[k + 1..], IsJsSpace)|
    case None => 0
  }

  predicate Offered(e: BibEntry, search: string)
  {
    search == "" || ContainsFolded(e.key, search)
    || (e.author.Some? && ContainsFolded(e.author.value, search))
    || (e.title.Some? && ContainsFolded(e.title.value, search))
  }

  /** The entries offered for a search, in order. */
  function Offers(entries: seq<BibEntry>, search: string): (r: seq<BibEntry>)
    ensures |r| <= |entries|
    ensures forall e :: e in r <==> e in entries && Offered(e, search)
    decreases |entries|
  {
    if entries == [] then []
    else
      assert forall e :: e in entries <==> e == entries[0] || e in entries[1..];
      (if Offered(entries[0], search) then [entries[0]] else []) + Offers(entries[1..], search)
  }

  /** Filtering works element by element: on a concatenation it gives the
    * results on the parts, one after the other. */
  lemma {:induction false} OffersAppend(a: seq<BibEntry>, b: seq<BibEntry>, search: string)
    ensures Offers(a + b, search) == Offers(a, search) + Offers(b, search)
    decreases |a|
  {
    if a == [] {
      assert a + b == b;
    } else {
      assert (a + b)[0] == a[0];
      assert (a + b)[1..] == a[1..] + b;
      OffersAppend(a[1..], b, search);
    }
  }

  /** The result keeps each element, in its place, exactly when it passes the
    * test: an element between two runs of the list is kept between their
    * results, or dropped. */
  lemma OffersInPlace(a: seq<BibEntry>, x: BibEntry, b: seq<BibEntry>, search: string)
    ensures Offers(a + [x] + b, search) == Offers(a, search) + (if Offered(x, search) then [x] else []) + Offers(b, search)
  {
    OffersAppend(a + [x], b, search);
    OffersAppend(a, [x], search);
    OffersOne(x, search);
  }

  lemma OffersOne(x: BibEntry, search: string)
    ensures Offers([x], search) == if Offered(x, search) then [x] else []
  {
    assert [x][1..] == [];
  }

  datatype Suggestion = Suggestion(labelText: string, detail: string, info: Option<string>, apply: string)
  datatype Completion = Completion(from: nat, options: seq<Suggestion>)

  /** The first author's text before a comma and before " and ", else "Unknown". */
  function AuthorShort(author: Option<string>): (r: string)
    ensures r != ""
  {
    match author
    case None => "Unknown"
    case Some(a) => var s := Before(Before(a, ","), " and "); if s == "" then "Unknown" else s
  }

  function SuggestionFor(e: BibEntry, closed: bool): Suggestion
  {
    var year := if e.year.Some? && e.year.value != "" then e.year.value else "n.d.";
    Suggestion("@" + e.key, AuthorShort(e.author) + ", " + year, e.title,
      if closed then "@" + e.key else "@" + e.key + "]")
  }

  /** `createCitationAutocomplete`: `before` is the text of the line up to the
    * cursor that `matchBefore` looks at, starting at document offset
    * `start`; `rest` is the document after the cursor. */
  function Complete(before: string, start: nat, rest: string, entries: seq<BibEntry>): (r: Option<Completion>)
    ensures r.Some? <==> exists j :: 0 <= j <= |before| && OpensAt(before, j)
  {
    match OpenFrom(before, 0)
    case None => None
    case Some(j) =>
      var after := before[j + 2..];
      var closed := rest != [] && rest[0] == ']';
      var offers := Offers(entries, SearchText(after));
      Some(Completion(start + j + 2 + ReplaceOffset(after),
        seq(|offers|, i requires 0 <= i < |offers| => SuggestionFor(offers[i], closed))))
  }

  /** Directly after `[@` every entry is offered, each applying `@key`
    * followed by `]` unless one is already there. */
  lemma EmptySearchOffersAll(before: string, start: nat, rest: string, entries: seq<BibEntry>)
    requires |before| >= 2 && before[|before| - 2..] == "[@" && forall k :: 0 <= k < |before| - 2 ==> !OpensAt(before, k)
    ensures Complete(before, start, rest, entries).Some?
    ensures Complete(before, start, rest, entries).value.from == start + |before|
    ensures |Complete(before, start, rest, entries).value.options| == |entries|
    ensures forall i :: 0 <= i < |entries| ==>
      Complete(before, start, rest, entries).value.options[i].apply == (if rest != [] && rest[0] == ']' then "@" + entries[i].key else "@" + entries[i].key + "]")
  {
    assert OpensAt(before, |before| - 2);
    AllOffered(entries, "");
  }

  lemma {:induction false} AllOffered(entries: seq<BibEntry>, search: string)
    requires search == ""
    ensures Offers(entries, search) == entries
    decreases |entries|
  {
    if entries != [] {
      AllOffered(entries[1..], search);
    }
  }

  /** After a `;` the search is the last key, trimmed, without its `@`. */
  lemma SearchAfterLastSemicolon(a: string, b: string)
    requires ';' !in b
    ensures SearchText(a + ";" + b) == DropAt(JsTrim(b))
    ensures ReplaceOffset(a + ";" + b) == |a| + 1 + |TakeWhile(b, IsJsSpace)|
  {
    var s := a + ";" + b;
    assert s[|a|] == ';' && s[|a| + 1..] == b;
    assert forall j :: |a| < j < |s| ==> s[j] == b[j - |a| - 1];
  }

  /** Without a `;` the whole text is the search, without its `@` but not trimmed. */
  lemma SearchWithoutSemicolon(after: string)
    requires ';' !in after
    ensures SearchText(after) == DropAt(after) && ReplaceOffset(after) == 0
  {
  }

  // ---------------------------------------------------------------------------
  // Edits

  /** `raw.slice(1, -1)`: the text between the brackets. */
  function Inside(raw: string): (r: string)
    ensures |raw| >= 2 ==> r == raw[1..|raw| - 1]
    ensures |raw| < 2 ==> r == ""
  {
    if |raw| >= 2 then raw[1..|raw| - 1] else ""
  }

  /** `parts.map(f)`. */
  function MapAll(f: string -> string, parts: seq<string>): (r: seq<string>)
    ensures |r| == |parts| && forall i :: 0 <= i < |parts| ==> r[i] == f(parts[i])
  {
    seq(|parts|, i requires 0 <= i < |parts| => f(parts[i]))
  }

  lemma MapAllAppend(f: string -> string, parts: seq<string>, x: string)
    ensures MapAll(f, parts + [x]) == MapAll(f, parts) + [f(x)]
  {
  }

  lemma MapAllIs(f: string -> string, parts: seq<string>, ys: seq<string>)
    requires |parts| == |ys| && forall i :: 0 <= i < |parts| ==> f(parts[i]) == ys[i]
    ensures MapAll(f, parts) == ys
  {
  }

  /** `insideBrackets.split(";").map(c => c.trim())`. */
  function Items(inside: string): (r: seq<string>)
    ensures |r| == |Split(inside, ';')|
  {
    MapAll(JsTrim, Split(inside, ';'))
  }

  /** One item more than there are `;`. */
  lemma ItemCount(inside: string)
    ensures |Items(inside)| == Count(inside, ';') + 1
  {
    SplitJoin(inside, ';');
  }

  /** A key that reads back as itself after `@`: no `;`, no blank at the end. */
  predicate PlainKey(key: string)
  {
    ';' !in key && (key == [] || !IsJsSpace(key[|key| - 1]))
  }

  /** The replace mode's new citation: item `index` becomes `@key`. The
    * index is the widget's, one of the keys of the same citation. */
  function Replaced(raw: string, index: nat, key: string): string
    requires index < |Items(Inside(raw))|
  {
    "[" + Join(Items(Inside(raw))[index := "@" + key], "; ") + "]"
  }

  /** A click on a widget or a raw citation: add `@key` when there are
    * several keys already, else replace the citation by `[@key]`. */
  function Added(raw: string, key: string): string
  {
    var inside := Inside(raw);
    if ';' in inside then "[" + inside + "; @" + key + "]" else "[@" + key + "]"
  }

  /** `view.dispatch` of one change: the text from `from` to `to` replaced. */
  function Splice(doc: string, from: nat, to: nat, insert: string): (r: string)
    requires from <= to <= |doc|
    ensures |r| == |doc| - (to - from) + |insert|
    ensures r[..from] == doc[..from] && r[from..from + |insert|] == insert && r[from + |insert|..] == doc[to..]
  {
    doc[..from] + insert + doc[to..]
  }

  /** The replace mode's edit of the document: the first occurrence of the
    * raw citation is rewritten; without one nothing changes. */
  function ReplaceInDoc(doc: string, raw: string, index: nat, key: string): (r: string)
    requires index < |Items(Inside(raw))|
    ensures IndexOf(doc, raw).None? ==> r == doc
    ensures IndexOf(doc, raw).Some? ==> r == Splice(doc, IndexOf(doc, raw).value, IndexOf(doc, raw).value + |raw|, Replaced(raw, index, key))
  {
    match IndexOf(doc, raw)
    case None => doc
    case Some(i) => Splice(doc, i, i + |raw|, Replaced(raw, index, key))
  }

  /** The items as they stand between the separators of a "; " join. */
  function Spaced(xs: seq<string>): (r: seq<string>)
    requires xs != []
    ensures |r| == |xs| && r[0] == xs[0] && forall i :: 1 <= i < |xs| ==> r[i] == " " + xs[i]
  {
    [xs[0]] + seq(|xs| - 1, i requires 0 <= i < |xs| - 1 => " " + xs[i + 1])
  }

  /** Items written back with "; " split again as themselves, one blank in front. */
  lemma {:induction false} SplitSpaced(xs: seq<string>)
    requires xs != [] && forall i :: 0 <= i < |xs| ==> ';' !in xs[i]
    ensures Split(Join(xs, "; "), ';') == Spaced(xs)
    decreases |xs|
  {
    if |xs| == 1 {
      SplitNoSep(xs[0], ';');
    } else {
      SplitSpaced(xs[1..]);
      var tail := Join(xs[1..], "; ");
      assert Join(xs, "; ") == xs[0] + [';'] + (" " + tail);
      SplitAppendSep(xs[0], ';', " " + tail);
      var st := Split(tail, ';');
      assert Split(" " + tail, ';') == [" " + st[0]] + st[1..] by {
        assert (" " + tail)[0] == ' ' && (" " + tail)[1..] == tail;
      }
      assert [xs[0]] + ([" " + st[0]] + st[1..]) == Spaced(xs);
    }
  }

  lemma TrimSpaced(x: string)
    requires IsStripped(x, IsJsSpace)
    ensures JsTrim(" " + x) == x
  {
    if x == [] {
      assert " " + x == " ";
    } else {
      assert (" " + x)[1..] == x;
      StripOfStripped(x, IsJsSpace);
    }
  }

  lemma TrimmedPieces(parts: seq<string>)
    requires forall i :: 0 <= i < |parts| ==> ';' !in parts[i]
    ensures forall i :: 0 <= i < |parts| ==> IsStripped(MapAll(JsTrim, parts)[i], IsJsSpace) && ';' !in MapAll(JsTrim, parts)[i]
  {
    forall i | 0 <= i < |parts|
      ensures IsStripped(JsTrim(parts[i]), IsJsSpace) && ';' !in JsTrim(parts[i])
    {
      StripShape(parts[i], IsJsSpace);
      StripNoChar(parts[i], IsJsSpace, ';');
    }
  }

  lemma StrippedItems(inside: string)
    ensures forall i :: 0 <= i < |Items(inside)| ==> IsStripped(Items(inside)[i], IsJsSpace) && ';' !in Items(inside)[i]
  {
    var parts := Split(inside, ';');
    assert forall i :: 0 <= i < |parts| ==> ';' !in parts[i] by {
      assert forall i, j :: 0 <= i < |parts| && 0 <= j < |parts[i]| ==> parts[i][j] != ';';
    }
    TrimmedPieces(parts);
  }

  lemma TrimSpacedAt(xs: seq<string>, i: nat)
    requires i < |xs| && IsStripped(xs[i], IsJsSpace) && xs != []
    ensures JsTrim(Spaced(xs)[i]) == xs[i]
  {
    if i == 0 {
      StripOfStripped(xs[0], IsJsSpace);
    } else {
      TrimSpaced(xs[i]);
    }
  }

  lemma TrimSpacedAll(xs: seq<string>)
    requires xs != [] && forall i :: 0 <= i < |xs| ==> IsStripped(xs[i], IsJsSpace)
    ensures MapAll(JsTrim, Spaced(xs)) == xs
  {
    forall i | 0 <= i < |xs| ensures JsTrim(Spaced(xs)[i]) == xs[i] {
      TrimSpacedAt(xs, i);
    }
    MapAllIs(JsTrim, Spaced(xs), xs);
  }

  /** Stripped items without `;` read back from their "; " join. */
  lemma ItemsOfJoin(xs: seq<string>)
    requires xs != [] && forall i :: 0 <= i < |xs| ==> ';' !in xs[i] && IsStripped(xs[i], IsJsSpace)
    ensures Items(Join(xs, "; ")) == xs
  {
    SplitSpaced(xs);
    TrimSpacedAll(xs);
  }

  /** Replacing keeps the number of items and every other item; the new
    * item reads back as `@key`. */
  lemma ReplaceKeepsOthers(raw: string, index: nat, key: string)
    requires index < |Items(Inside(raw))|
    requires PlainKey(key)
    ensures Items(Inside(Replaced(raw, index, key))) == Items(Inside(raw))[index := "@" + key]
  {
    var xs := Items(Inside(raw))[index := "@" + key];
    StrippedItems(Inside(raw));
    assert ';' !in "@" + key;
    assert IsStripped("@" + key, IsJsSpace);
    var r := Replaced(raw, index, key);
    assert Inside(r) == Join(xs, "; ");
    ItemsOfJoin(xs);
  }

  lemma AddedInside(raw: string, key: string)
    ensures ';' in Inside(raw) ==> Inside(Added(raw, key)) == Inside(raw) + [';'] + (" " + ("@" + key))
    ensures ';' !in Inside(raw) ==> Inside(Added(raw, key)) == "@" + key
  {
  }

  lemma ItemsAppend(inside: string, last: string)
    requires ';' !in last
    ensures Items(inside + [';'] + last) == Items(inside) + [JsTrim(last)]
  {
    SplitAppendLast(inside, ';', last);
    MapAllAppend(JsTrim, Split(inside, ';'), last);
  }

  lemma ItemsSingle(x: string)
    requires ';' !in x && IsStripped(x, IsJsSpace)
    ensures Items(x) == [x]
  {
    SplitNoSep(x, ';');
    StripOfStripped(x, IsJsSpace);
  }

  /** With several keys, adding puts `@key` after the others. */
  lemma AddAppends(raw: string, key: string)
    requires ';' in Inside(raw) && PlainKey(key)
    ensures Items(Inside(Added(raw, key))) == Items(Inside(raw)) + ["@" + key]
  {
    AddedInside(raw, key);
    ItemsAppend(Inside(raw), " " + ("@" + key));
    TrimSpaced("@" + key);
  }

  /** With one key, adding replaces the citation by the new key alone. */
  lemma AddReplacesSingle(raw: string, key: string)
    requires ';' !in Inside(raw) && PlainKey(key)
    ensures Items(Inside(Added(raw, key))) == ["@" + key]
  {
    AddedInside(raw, key);
    ItemsSingle("@" + key);
  }
}
