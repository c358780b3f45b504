/** Inline formatting of a cleaned paragraph (`process_inline_formatting` in
  * `core/scripts/Latex2word.py`): the text is cut into parts at missing
  * citation markers, then the plain parts at `**bold**`, then the plain
  * parts at `*italic*`. */
module Tokenizer {
  import opened Strings
  import opened Citations

  /** One piece of a paragraph with its three flags. */
  datatype Part = Part(text: string, bold: bool, italic: bool, missing: bool)

  function Plain(t: string): Part { Part(t, false, false, false) }

  predicate IsPlain(p: Part) { !p.bold && !p.italic && !p.missing }

  predicate NotStar(c: char) { c != '*' }

  /** `\*\*\*MISSING_REF:([^*]+)\*\*\*` at the start of `s`: the key and the
    * length of the marker. */
  function MissingAt(s: string): (r: Option<(string, nat)>)
    ensures r.Some? ==> r.value.0 != [] && '*' !in r.value.0
    ensures r.Some? ==> r.value.1 == |MissingMarker(r.value.0)| <= |s| && s[..r.value.1] == MissingMarker(r.value.0)
  {
    var lead := "***MISSING_REF:";
    if !StartsWith(s, lead) then None
    else
      var g := TakeWhile(s[|lead|..], NotStar);
      var e := |lead| + |g|;
      if g == [] || !StartsWith(s[e..], "***") then None
      else
        assert s[..e + 3] == s[..|lead|] + s[|lead|..e] + s[e..][..3];
        Some((g, e + 3))
  }

  /** `d([^*]+)d` at the start of `s`, for the delimiter `**` or `*`. */
  function DelimAt(d: string, s: string): (r: Option<(string, nat)>)
    ensures r.Some? ==> r.value.0 != [] && '*' !in r.value.0
    ensures r.Some? ==> r.value.1 == |d + r.value.0 + d| <= |s| && s[..r.value.1] == d + r.value.0 + d
  {
    if !StartsWith(s, d) then None
    else
      var g := TakeWhile(s[|d|..], NotStar);
      var e := |d| + |g|;
      if g == [] || !StartsWith(s[e..], d) then None
      else
        assert s[..e + |d|] == s[..|d|] + s[|d|..e] + s[e..][..|d|];
        Some((g, e + |d|))
  }

  /** `re.search`: the leftmost match at or after `i`, as its start, its
    * group and its end. */
  function FindFrom(s: string, at: string -> Option<(string, nat)>, i: nat): (r: Option<(nat, string, nat)>)
    requires i <= |s|
    ensures r.Some? ==> i <= r.value.0 < r.value.2 <= |s|
    ensures r.Some? ==> at(s[r.value.0..]) == Some((r.value.1, r.value.2 - r.value.0))
    decreases |s| - i
  {
    if i == |s| then None
    else match at(s[i..])
      case Some((g, n)) => if 1 <= n <= |s| - i then Some((i, g, i + n)) else FindFrom(s, at, i + 1)
      case None => FindFrom(s, at, i + 1)
  }

  function Find(s: string, at: string -> Option<(string, nat)>): Option<(nat, string, nat)>
  {
    FindFrom(s, at, 0)
  }

  function BoldAt(s: string): Option<(string, nat)> { DelimAt("**", s) }

  function ItalicAt(s: string): Option<(string, nat)> { DelimAt("*", s) }

  /** The three kinds of formatted part. */
  datatype Kind = Missing | Bold | Italic

  function Mark(k: Kind, g: string): Part
  {
    Part(g, k == Bold, k == Italic, k == Missing)
  }

  /** One pass on one text: the text before each match (when not empty), the
    * match's content flagged `k`, and the final remainder, which the
    * missing-reference pass keeps even when empty (`keepTail`) and the bold
    * and italic passes keep only when it is not. */
  function Cut(s: string, at: string -> Option<(string, nat)>, k: Kind, keepTail: bool): seq<Part>
    decreases |s|
  {
    match Find(s, at)
    case None => if s != [] || keepTail then [Plain(s)] else []
    case Some((i, g, e)) => (if i > 0 then [Plain(s[..i])] else []) + [Mark(k, g)] + Cut(s[e..], at, k, keepTail)
  }

  /** The first pass. */
  function MissingSplit(s: string): seq<Part>
  {
    Cut(s, MissingAt, Missing, true)
  }

  function Piece(at: string -> Option<(string, nat)>, k: Kind, p: Part): seq<Part>
  {
    if IsPlain(p) then Cut(p.text, at, k, false) else [p]
  }

  /** The bold or the italic pass over all parts: plain parts are cut,
    * flagged ones kept. */
  function Pass(at: string -> Option<(string, nat)>, k: Kind, parts: seq<Part>): seq<Part>
  {
    if parts == [] then [] else Pass(at, k, parts[..|parts| - 1]) + Piece(at, k, parts[|parts| - 1])
  }

  /** The parts of a cleaned paragraph after the three passes. */
  function Parts(s: string): seq<Part>
  {
    Pass(ItalicAt, Italic, Pass(BoldAt, Bold, MissingSplit(s)))
  }

  /** The text a part stands for: its markers put back. */
  function Unparse(p: Part): string
  {
    if p.missing then MissingMarker(p.text)
    else if p.bold then "**" + p.text + "**"
    else if p.italic then "*" + p.text + "*"
    else p.text
  }

  function Render(parts: seq<Part>): string
  {
    if parts == [] then "" else Render(parts[..|parts| - 1]) + Unparse(parts[|parts| - 1])
  }

  // ---------------------------------------------------------------------------
  // The loops of the source

  /** The `while re.search(...)` loop of one pass on one text. */
  method CutLoop(s: string, at: string -> Option<(string, nat)>, k: Kind, keepTail: bool) returns (parts: seq<Part>)
    ensures parts == Cut(s, at, k, keepTail)
  {
    parts := [];
    var cur := s;
    while Find(cur, at).Some?
      invariant parts + Cut(cur, at, k, keepTail) == Cut(s, at, k, keepTail)
      decreases |cur|
    {
      var (i, g, e) := Find(cur, at).value;
      ghost var done := parts;
      var before := cur[..i];
      if before != [] {
        parts := parts + [Plain(before)];
      }
      parts := parts + [Mark(k, g)];
      CutLoopStep(done, parts, cur, at, k, keepTail);
      cur := cur[e..];
    }
    CutEnd(cur, at, k, keepTail);
    if cur != [] || keepTail {
      parts := parts + [Plain(cur)];
    }
  }

  /** One match of the loop: the parts before it and its mark are appended. */
  lemma CutLoopStep(done: seq<Part>, parts: seq<Part>, s: string, at: string -> Option<(string, nat)>, k: Kind, keepTail: bool)
    requires Find(s, at).Some?
    requires var (i, g, e) := Find(s, at).value;
      parts == done + (if i > 0 then [Plain(s[..i])] else []) + [Mark(k, g)]
    ensures var (i, g, e) := Find(s, at).value;
      done + Cut(s, at, k, keepTail) == parts + Cut(s[e..], at, k, keepTail)
  {
    var (i, g, e) := Find(s, at).value;
    CutStep(s, at, k, keepTail);
    Regroup4(done, if i > 0 then [Plain(s[..i])] else [], [Mark(k, g)], Cut(s[e..], at, k, keepTail));
  }

  lemma CutStep(s: string, at: string -> Option<(string, nat)>, k: Kind, keepTail: bool)
    requires Find(s, at).Some?
    ensures var (i, g, e) := Find(s, at).value;
      Cut(s, at, k, keepTail) == (if i > 0 then [Plain(s[..i])] else []) + [Mark(k, g)] + Cut(s[e..], at, k, keepTail)
  {
  }

  /** Without a match the loop stops with the remainder. */
  lemma CutEnd(s: string, at: string -> Option<(string, nat)>, k: Kind, keepTail: bool)
    requires Find(s, at).None?
    ensures Cut(s, at, k, keepTail) == if s != [] || keepTail then [Plain(s)] else []
  {
  }

  /** The `for` loop of the bold or the italic pass. */
  method MarkPass(at: string -> Option<(string, nat)>, k: Kind, parts: seq<Part>) returns (out: seq<Part>)
    ensures out == Pass(at, k, parts)
  {
    out := [];
    for j := 0 to |parts|
      invariant out == Pass(at, k, parts[..j])
    {
      assert parts[..j + 1][..j] == parts[..j];
      var p := parts[j];
      if IsPlain(p) {
        var cut := CutLoop(p.text, at, k, false);
        out := out + cut;
      } else {
        out := out + [p];
      }
    }
    assert parts[..|parts|] == parts;
  }

  method Tokenize(s: string) returns (parts: seq<Part>)
    ensures parts == Parts(s)
  {
    parts := CutLoop(s, MissingAt, Missing, true);
    parts := MarkPass(BoldAt, Bold, parts);
    parts := MarkPass(ItalicAt, Italic, parts);
  }

  // ---------------------------------------------------------------------------
  // Properties

  lemma {:induction false} RenderAppend(a: seq<Part>, b: seq<Part>)
    ensures Render(a + b) == Render(a) + Render(b)
    decreases |b|
  {
    if b != [] {
      assert (a + b)[..|a + b| - 1] == a + b[..|b| - 1];
      RenderAppend(a, b[..|b| - 1]);
    } else {
      assert a + b == a;
    }
  }

  lemma RenderOne(p: Part)
    ensures Render([p]) == Unparse(p)
  {
    assert [p][..0] == [];
  }

  /** Every match of `at` is the marked-up form of its content. */
  ghost predicate Wraps(at: string -> Option<(string, nat)>, k: Kind)
  {
    forall t :: at(t).Some? ==> at(t).value.1 <= |t| && t[..at(t).value.1] == Unparse(Mark(k, at(t).value.0))
  }

  /** A pass on one text loses nothing: putting the markers back gives the text. */
  lemma {:induction false} CutRenders(s: string, at: string -> Option<(string, nat)>, k: Kind, keepTail: bool)
    requires Wraps(at, k)
    ensures Render(Cut(s, at, k, keepTail)) == s
    decreases |s|
  {
    if Find(s, at).None? {
      if s != [] || keepTail { RenderOne(Plain(s)); }
    } else {
      var (i, g, e) := Find(s, at).value;
      CutStep(s, at, k, keepTail);
      CutRenders(s[e..], at, k, keepTail);
      assert s[i..][..e - i] == Unparse(Mark(k, g));
      RenderJoin(s, i, e, Mark(k, g), Cut(s[e..], at, k, keepTail));
    }
  }

  /** One step of the lossless cut: text before, match, rest. */
  lemma RenderJoin(s: string, i: nat, e: nat, m: Part, rest: seq<Part>)
    requires i < e <= |s| && s[i..][..e - i] == Unparse(m) && Render(rest) == s[e..]
    ensures Render((if i > 0 then [Plain(s[..i])] else []) + [m] + rest) == s
  {
    var front := if i > 0 then [Plain(s[..i])] else [];
    var a := Render(front);
    var b := Render([m]);
    assert a == s[..i] by {
      if i > 0 { RenderOne(Plain(s[..i])); }
    }
    assert b == s[i..e] by {
      RenderOne(m);
      assert s[i..][..e - i] == s[i..e];
    }
    RenderAppend(front + [m], rest);
    RenderAppend(front, [m]);
    Slices(s, i, e);
  }

  lemma Slices(s: string, i: nat, e: nat)
    requires i <= e <= |s|
    ensures s[..i] + s[i..e] + s[e..] == s
  {
  }

  lemma {:induction false} PassRenders(at: string -> Option<(string, nat)>, k: Kind, parts: seq<Part>)
    requires Wraps(at, k)
    ensures Render(Pass(at, k, parts)) == Render(parts)
    decreases |parts|
  {
    if parts != [] {
      var init := parts[..|parts| - 1];
      var last := parts[|parts| - 1];
      assert Render(Pass(at, k, init)) == Render(init) by { PassRenders(at, k, init); }
      assert Render(Piece(at, k, last)) == Unparse(last) by {
        RenderOne(last);
        if IsPlain(last) {
          CutRenders(last.text, at, k, false);
        }
      }
      RenderAppend(Pass(at, k, init), Piece(at, k, last));
    }
  }

  lemma MatchersWrap()
    ensures Wraps(MissingAt, Missing) && Wraps(BoldAt, Bold) && Wraps(ItalicAt, Italic)
  {
  }

  /** Tokenizing is lossless: the parts with their markers put back are the
    * cleaned paragraph. */
  lemma PartsRender(s: string)
    ensures Render(Parts(s)) == s
  {
    MatchersWrap();
    CutRenders(s, MissingAt, Missing, true);
    PassRenders(BoldAt, Bold, MissingSplit(s));
    PassRenders(ItalicAt, Italic, Pass(BoldAt, Bold, MissingSplit(s)));
  }

  predicate AtMostOneFlag(p: Part)
  {
    (p.bold ==> !p.italic && !p.missing) && (p.italic ==> !p.missing)
  }

  predicate AllOneFlag(parts: seq<Part>)
  {
    forall i :: 0 <= i < |parts| ==> AtMostOneFlag(parts[i])
  }

  lemma {:induction false} CutFlags(s: string, at: string -> Option<(string, nat)>, k: Kind, keepTail: bool)
    ensures AllOneFlag(Cut(s, at, k, keepTail))
    decreases |s|
  {
    match Find(s, at)
    case None =>
    case Some((i, g, e)) => CutFlags(s[e..], at, k, keepTail);
  }

  lemma {:induction false} PassFlags(at: string -> Option<(string, nat)>, k: Kind, parts: seq<Part>)
    requires AllOneFlag(parts)
    ensures AllOneFlag(Pass(at, k, parts))
    decreases |parts|
  {
    if parts != [] {
      PassFlags(at, k, parts[..|parts| - 1]);
      if IsPlain(parts[|parts| - 1]) { CutFlags(parts[|parts| - 1].text, at, k, false); }
    }
  }

  /** No part is ever both bold and italic, or formatted and missing. */
  lemma PartsFlags(s: string)
    ensures AllOneFlag(Parts(s))
  {
    CutFlags(s, MissingAt, Missing, true);
    PassFlags(BoldAt, Bold, MissingSplit(s));
    PassFlags(ItalicAt, Italic, Pass(BoldAt, Bold, MissingSplit(s)));
  }

  /** The content of every match of `at` is free of stars. */
  ghost predicate StarFreeGroups(at: string -> Option<(string, nat)>)
  {
    forall t :: at(t).Some? ==> '*' !in at(t).value.0
  }

  predicate FlaggedStarFree(parts: seq<Part>)
  {
    forall i :: 0 <= i < |parts| && !IsPlain(parts[i]) ==> '*' !in parts[i].text
  }

  lemma {:induction false} CutStarFree(s: string, at: string -> Option<(string, nat)>, k: Kind, keepTail: bool)
    requires StarFreeGroups(at)
    ensures FlaggedStarFree(Cut(s, at, k, keepTail))
    decreases |s|
  {
    match Find(s, at)
    case None =>
    case Some((i, g, e)) =>
      assert at(s[i..]).Some?;
      CutStarFree(s[e..], at, k, keepTail);
  }

  lemma {:induction false} PassStarFree(at: string -> Option<(string, nat)>, k: Kind, parts: seq<Part>)
    requires StarFreeGroups(at) && FlaggedStarFree(parts)
    ensures FlaggedStarFree(Pass(at, k, parts))
    decreases |parts|
  {
    if parts != [] {
      PassStarFree(at, k, parts[..|parts| - 1]);
      if IsPlain(parts[|parts| - 1]) { CutStarFree(parts[|parts| - 1].text, at, k, false); }
    }
  }

  /** A flagged part never holds a star; so a citation key with a star is
    * never shown whole as a missing part. */
  lemma PartsStarFree(s: string)
    ensures FlaggedStarFree(Parts(s))
  {
    assert StarFreeGroups(MissingAt) && StarFreeGroups(BoldAt) && StarFreeGroups(ItalicAt);
    CutStarFree(s, MissingAt, Missing, true);
    PassStarFree(BoldAt, Bold, MissingSplit(s));
    PassStarFree(ItalicAt, Italic, Pass(BoldAt, Bold, MissingSplit(s)));
  }

  lemma {:induction false} FindFromNone(s: string, at: string -> Option<(string, nat)>, i: nat)
    requires i <= |s| && forall j :: i <= j < |s| ==> at(s[j..]).None?
    ensures FindFrom(s, at, i).None?
    decreases |s| - i
  {
    if i < |s| { FindFromNone(s, at, i + 1); }
  }

  lemma NoStarNoMatch(s: string)
    requires '*' !in s
    ensures Find(s, MissingAt).None? && Find(s, BoldAt).None? && Find(s, ItalicAt).None?
  {
    forall j | 0 <= j < |s| ensures MissingAt(s[j..]).None? && BoldAt(s[j..]).None? && ItalicAt(s[j..]).None? {
      assert s[j..][0] == s[j];
    }
    FindFromNone(s, MissingAt, 0);
    FindFromNone(s, BoldAt, 0);
    FindFromNone(s, ItalicAt, 0);
  }

  /** Text without a star is one plain part, or none when it is empty. */
  lemma NoStarParts(s: string)
    requires '*' !in s
    ensures Parts(s) == if s == [] then [] else [Plain(s)]
  {
    NoStarNoMatch(s);
    assert MissingSplit(s) == [Plain(s)];
    assert [Plain(s)][..0] == [];
    assert Pass(BoldAt, Bold, [Plain(s)]) == Cut(s, BoldAt, Bold, false);
    if s != [] {
      assert Pass(ItalicAt, Italic, [Plain(s)]) == Cut(s, ItalicAt, Italic, false);
    }
  }

  /** The marker of a key without a star is one missing part holding the key. */
  lemma MarkerParts(key: string)
    requires key != [] && '*' !in key
    ensures Parts(MissingMarker(key)) == [Mark(Missing, key)]
  {
    MarkerSplit(key);
    var one := [Mark(Missing, key)];
    assert Pass(BoldAt, Bold, one) == one by { assert one[..0] == []; }
    assert Pass(BoldAt, Bold, [Mark(Missing, key), Plain([])]) == one by {
      assert [Mark(Missing, key), Plain([])][..1] == one;
      assert Find([], BoldAt).None?;
    }
    assert Pass(ItalicAt, Italic, one) == one by { assert one[..0] == []; }
  }

  /** The first pass finds the whole marker, then the empty remainder. */
  lemma MarkerSplit(key: string)
    requires key != [] && '*' !in key
    ensures MissingSplit(MissingMarker(key)) == [Mark(Missing, key), Plain([])]
  {
    var m := MissingMarker(key);
    var lead := "***MISSING_REF:";
    assert StartsWith(m, lead) by { assert m[..|lead|] == lead; }
    assert TakeWhile(m[|lead|..], NotStar) == key by {
      assert m[|lead|..] == key + ['*'] + "**";
      TakeWhileStops(key, '*', "**", NotStar);
    }
    assert StartsWith(m[|lead| + |key|..], "***");
    assert MissingAt(m).Some? && MissingAt(m).value == (key, |m|);
    assert Find(m, MissingAt).Some? && Find(m, MissingAt).value == (0, key, |m|);
    assert Find([], MissingAt).None?;
    assert m[|m|..] == [];
    CutStep(m, MissingAt, Missing, true);
  }
}
