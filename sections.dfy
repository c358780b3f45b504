/** `detectSectionType` and `extractSections` of `src/lib/thesis-analysis.ts`
  * (the same code is in `lib/thesis-analysis.ts`): the section a heading
  * line names, and the division of a document into sections. */
module Sections {
  import opened Strings
  import opened AnalysisTypes
  import opened AnalysisPatterns

  // ---------------------------------------------------------------------------
  // detectSectionType

  /** Some pattern of section `s` matches `text`. */
  predicate Matches(find: Finder, s: SectionType, text: string)
  {
    exists k :: 0 <= k < SectionPatternCount(s) && find(SectionPattern(s, k), text).Some?
  }

  /** The inner loop: the patterns of `s` from the `k`-th on. */
  function MatchesFrom(find: Finder, s: SectionType, text: string, k: nat): (b: bool)
    ensures b <==> exists j :: k <= j < SectionPatternCount(s) && find(SectionPattern(s, j), text).Some?
    decreases SectionPatternCount(s) - k
  {
    if k >= SectionPatternCount(s) then false
    else find(SectionPattern(s, k), text).Some? || MatchesFrom(find, s, text, k + 1)
  }

  /** The outer loop: the sections from the `i`-th of `SectionOrder` on. */
  function FirstSection(find: Finder, text: string, i: nat): (r: Option<SectionType>)
    requires i <= |SectionOrder|
    ensures r.Some? ==> i <= Rank(r.value) && Matches(find, r.value, text)
    ensures r.Some? ==> forall s :: i <= Rank(s) < Rank(r.value) ==> !Matches(find, s, text)
    ensures r.None? ==> forall s :: i <= Rank(s) ==> !Matches(find, s, text)
    decreases |SectionOrder| - i
  {
    if i == |SectionOrder| then None
    else if MatchesFrom(find, SectionOrder[i], text, 0) then
      assert Rank(SectionOrder[i]) == i by {
        RankOfOrder(i);
      }
      Some(SectionOrder[i])
    else
      assert !Matches(find, SectionOrder[i], text);
      var r := FirstSection(find, text, i + 1);
      assert forall s :: Rank(s) == i ==> s == SectionOrder[i];
      r
  }

  lemma RankOfOrder(i: nat)
    requires i < |SectionOrder|
    ensures Rank(SectionOrder[i]) == i
  {
  }

  /** `detectSectionType`: the first section, in the order of the pattern
    * table, one of whose patterns matches; nothing when none does. */
  function DetectSectionType(find: Finder, text: string): (r: Option<SectionType>)
    ensures r.Some? ==> Matches(find, r.value, text)
    ensures r.Some? ==> forall s :: Rank(s) < Rank(r.value) ==> !Matches(find, s, text)
    ensures r.None? <==> forall s :: !Matches(find, s, text)
  {
    var r := FirstSection(find, text, 0);
    assert r.None? ==> forall s :: !Matches(find, s, text) by {
      if r.None? {
        forall s ensures !Matches(find, s, text) {
          assert 0 <= Rank(s);
        }
      }
    }
    r
  }

  /** The title patterns are tried last: a heading that also matches any
    * other section is never taken for the title. */
  lemma TitleLast(find: Finder, text: string, s: SectionType)
    requires s != Title && Matches(find, s, text)
    ensures DetectSectionType(find, text) != Some(Title)
  {
    assert Rank(s) < Rank(Title);
  }

  // ---------------------------------------------------------------------------
  // The sections map

  /** An entry of the `Map` `extractSections` returns. A `Map` iterates in
    * the order its keys were first set, so it is a list of entries. */
  datatype Entry = Entry(section: SectionType, text: string)

  /** Where key `s` is: the first entry with that section. */
  function KeyIndex(m: seq<Entry>, s: SectionType): (r: Option<nat>)
    ensures r.Some? ==> r.value < |m| && m[r.value].section == s
    ensures r.Some? ==> forall j :: 0 <= j < r.value ==> m[j].section != s
    ensures r.None? ==> forall j :: 0 <= j < |m| ==> m[j].section != s
    decreases |m|
  {
    if m == [] then None
    else if m[0].section == s then Some(0)
    else
      match KeyIndex(m[1..], s)
      case None => None
      case Some(i) => Some(i + 1)
  }

  /** `m.get(s)`. */
  function Lookup(m: seq<Entry>, s: SectionType): (r: Option<string>)
    ensures r.Some? <==> exists i :: 0 <= i < |m| && m[i].section == s
  {
    match KeyIndex(m, s)
    case Some(i) => Some(m[i].text)
    case None => None
  }

  predicate DistinctKeys(m: seq<Entry>)
  {
    forall i, j :: 0 <= i < j < |m| ==> m[i].section != m[j].section
  }

  /** Two lists with the same section at every place, the second possibly
    * one longer with a last entry of section `s`, find every other key at
    * the same place. */
  lemma SameKeys(m: seq<Entry>, r: seq<Entry>, s: SectionType, t: SectionType)
    requires |m| <= |r| <= |m| + 1 && t != s
    requires forall i :: 0 <= i < |m| ==> r[i].section == m[i].section
    requires |r| > |m| ==> r[|m|].section == s
    ensures KeyIndex(r, t) == KeyIndex(m, t)
  {
    var k := KeyIndex(m, t);
    if k.Some? {
      var i := k.value;
      assert forall j :: 0 <= j < i ==> r[j].section != t;
      FirstKey(r, t, i);
    } else {
      NoKey(r, t);
    }
  }

  lemma NoKey(m: seq<Entry>, t: SectionType)
    requires forall j :: 0 <= j < |m| ==> m[j].section != t
    ensures KeyIndex(m, t).None?
  {
  }

  lemma FirstKey(m: seq<Entry>, s: SectionType, i: nat)
    requires i < |m| && m[i].section == s && forall j :: 0 <= j < i ==> m[j].section != s
    ensures KeyIndex(m, s) == Some(i)
  {
    var x := KeyIndex(m, s);
    assert x.Some?;
    assert !(x.value < i);
  }

  /** `m.set(s, text)`: a key already present keeps its place and gets the
    * new text; a new key goes last. */
  function SetEntry(m: seq<Entry>, s: SectionType, text: string): (r: seq<Entry>)
    ensures Lookup(r, s) == Some(text)
    ensures forall t :: t != s ==> Lookup(r, t) == Lookup(m, t)
    ensures DistinctKeys(m) ==> DistinctKeys(r)
    ensures |m| <= |r| && forall i :: 0 <= i < |m| ==> r[i].section == m[i].section
    ensures Lookup(m, s).None? ==> r == m + [Entry(s, text)]
    ensures Lookup(m, s).Some? ==> |r| == |m|
  {
    var r := match KeyIndex(m, s)
      case Some(i) => m[i := Entry(s, text)]
      case None => m + [Entry(s, text)];
    FirstKey(r, s, if KeyIndex(m, s).Some? then KeyIndex(m, s).value else |m|);
    forall t | t != s ensures Lookup(r, t) == Lookup(m, t) {
      SameKeys(m, r, s, t);
    }
    r
  }

  // ---------------------------------------------------------------------------
  // extractSections

  /** The loop state: the sections saved so far, the current section and
    * the lines collected for it. */
  datatype Scan = Scan(sections: seq<Entry>, current: Option<SectionType>, content: seq<string>)

  /** The current section saved, when there is one. */
  function Saved(acc: Scan): seq<Entry>
  {
    if acc.current.Some? then SetEntry(acc.sections, acc.current.value, Join(acc.content, "\n")) else acc.sections
  }

  /** One line: a heading of another section saves the current one and
    * starts anew; any other line goes to the current section, if any. */
  function Step(acc: Scan, d: Option<SectionType>, line: string): Scan
  {
    if d.Some? && d != acc.current then Scan(Saved(acc), d, [line])
    else if acc.current.Some? then acc.(content := acc.content + [line])
    else acc
  }

  /** The state after the first `n` lines. */
  function ScanUpTo(lines: seq<string>, detect: string -> Option<SectionType>, n: nat): Scan
    requires n <= |lines|
  {
    if n == 0 then Scan([], None, []) else Step(ScanUpTo(lines, detect, n - 1), detect(lines[n - 1]), lines[n - 1])
  }

  /** The sections of the lines, each line's heading given by `detect`. */
  function Segments(lines: seq<string>, detect: string -> Option<SectionType>): seq<Entry>
  {
    Saved(ScanUpTo(lines, detect, |lines|))
  }

  function Detector(find: Finder): string -> Option<SectionType>
  {
    text => DetectSectionType(find, text)
  }

  /** What `extractSections` returns for a document. */
  function SectionsOf(find: Finder, content: string): seq<Entry>
  {
    Segments(Split(content, '\n'), Detector(find))
  }

  /** `extractSections`. */
  method ExtractSections(find: Finder, content: string) returns (sections: seq<Entry>)
    ensures sections == SectionsOf(find, content)
  {
    sections := SegmentLoop(Split(content, '\n'), Detector(find));
  }

  /** The loop of `extractSections` over the lines. */
  method SegmentLoop(lines: seq<string>, detect: string -> Option<SectionType>) returns (sections: seq<Entry>)
    ensures sections == Segments(lines, detect)
  {
    sections := [];
    var current: Option<SectionType> := None;
    var content: seq<string> := [];
    for i := 0 to |lines|
      invariant Scan(sections, current, content) == ScanUpTo(lines, detect, i)
    {
      var d := detect(lines[i]);
      if d.Some? && d != current {
        if current.Some? {
          sections := SetEntry(sections, current.value, Join(content, "\n"));
        }
        current := d;
        content := [lines[i]];
      } else if current.Some? {
        content := content + [lines[i]];
      }
    }
    if current.Some? {
      sections := SetEntry(sections, current.value, Join(content, "\n"));
    }
  }

  // ---------------------------------------------------------------------------
  // What the sections are

  /** The section of the last heading before line `i`, if any. */
  function PrevDetection(lines: seq<string>, detect: string -> Option<SectionType>, i: nat): Option<SectionType>
    requires i <= |lines|
  {
    if i == 0 then None
    else if detect(lines[i - 1]).Some? then detect(lines[i - 1])
    else PrevDetection(lines, detect, i - 1)
  }

  /** Lines `i` to `j` (excluded) form a segment of `s`: line `i` is a
    * heading of `s` that does not follow another heading of `s`, and the
    * lines after it are headings of `s` or no headings at all. */
  predicate Segment(lines: seq<string>, detect: string -> Option<SectionType>, s: SectionType, i: nat, j: nat)
  {
    i < j <= |lines| && detect(lines[i]) == Some(s) && PrevDetection(lines, detect, i) != Some(s) &&
    forall k :: i < k < j ==> detect(lines[k]).None? || detect(lines[k]) == Some(s)
  }

  /** Up to line `n`, the segment that ends at `j` is the last one of `s`:
    * line `j` is a heading of another section, and no heading of `s`
    * comes after. */
  predicate EndsAt(lines: seq<string>, detect: string -> Option<SectionType>, s: SectionType, j: nat, n: nat)
  {
    j <= n <= |lines| && (j < n ==> detect(lines[j]).Some? && detect(lines[j]) != Some(s)) &&
    forall k :: j <= k < n ==> detect(lines[k]) != Some(s)
  }

  /** Some line before `n` is a heading of `s`. */
  predicate Headed(lines: seq<string>, detect: string -> Option<SectionType>, s: SectionType, n: nat)
    requires n <= |lines|
  {
    exists k :: 0 <= k < n && detect(lines[k]) == Some(s)
  }

  /** The last segment of `s` up to line `n`, ending at `j`, has text `t`. */
  ghost predicate LastSegment(lines: seq<string>, detect: string -> Option<SectionType>, s: SectionType, n: nat, t: string)
    requires n <= |lines|
  {
    exists i: nat, j: nat :: Segment(lines, detect, s, i, j) && EndsAt(lines, detect, s, j, n) && t == Join(lines[i..j], "\n")
  }

  /** A segment of `s` closed before line `n` by a heading of another
    * section, and the last one of `s` up to there, has text `t`. */
  ghost predicate ClosedSegment(lines: seq<string>, detect: string -> Option<SectionType>, s: SectionType, n: nat, t: string)
    requires n <= |lines|
  {
    exists i: nat, j: nat :: Segment(lines, detect, s, i, j) && j < n && EndsAt(lines, detect, s, j, n) && t == Join(lines[i..j], "\n")
  }

  /** What holds of the loop state after `n` lines. */
  ghost predicate Inv(lines: seq<string>, detect: string -> Option<SectionType>, n: nat, acc: Scan)
    requires n <= |lines|
  {
    acc.current == PrevDetection(lines, detect, n) &&
    DistinctKeys(acc.sections) &&
    (forall s :: (Lookup(acc.sections, s).Some? || acc.current == Some(s)) <==> Headed(lines, detect, s, n)) &&
    (acc.current.Some? ==> exists i: nat :: Segment(lines, detect, acc.current.value, i, n) && acc.content == lines[i..n]) &&
    (forall s :: Some(s) != acc.current && Lookup(acc.sections, s).Some? ==>
       ClosedSegment(lines, detect, s, n, Lookup(acc.sections, s).value))
  }

  lemma {:induction false} InvHolds(lines: seq<string>, detect: string -> Option<SectionType>, n: nat)
    requires n <= |lines|
    ensures Inv(lines, detect, n, ScanUpTo(lines, detect, n))
    decreases n
  {
    if n > 0 {
      InvHolds(lines, detect, n - 1);
      var a := ScanUpTo(lines, detect, n - 1);
      var d := detect(lines[n - 1]);
      StepInv(lines, detect, n - 1, a);
    }
  }

  lemma StepInv(lines: seq<string>, detect: string -> Option<SectionType>, n: nat, a: Scan)
    requires n < |lines| && Inv(lines, detect, n, a)
    ensures Inv(lines, detect, n + 1, Step(a, detect(lines[n]), lines[n]))
  {
    var d := detect(lines[n]);
    if d.Some? && d != a.current {
      StepSwitch(lines, detect, n, a);
    } else if a.current.Some? {
      StepContinue(lines, detect, n, a);
    } else {
      StepIdle(lines, detect, n, a);
    }
  }

  /** A saved segment of a section other than the line's stays the last. */
  lemma KeepLast(lines: seq<string>, detect: string -> Option<SectionType>, n: nat, s: SectionType, t: string)
    requires n < |lines| && ClosedSegment(lines, detect, s, n, t) && detect(lines[n]) != Some(s)
    ensures ClosedSegment(lines, detect, s, n + 1, t)
  {
    var i: nat, j: nat :| Segment(lines, detect, s, i, j) && j < n && EndsAt(lines, detect, s, j, n) && t == Join(lines[i..j], "\n");
    assert EndsAt(lines, detect, s, j, n + 1);
  }

  lemma StepSwitch(lines: seq<string>, detect: string -> Option<SectionType>, n: nat, a: Scan)
    requires n < |lines| && Inv(lines, detect, n, a)
    requires detect(lines[n]).Some? && detect(lines[n]) != a.current
    ensures Inv(lines, detect, n + 1, Step(a, detect(lines[n]), lines[n]))
  {
    var d := detect(lines[n]);
    var b := Step(a, d, lines[n]);
    assert b.sections == Saved(a) && b.current == d && b.content == [lines[n]];
    assert b.current == PrevDetection(lines, detect, n + 1);
    assert Segment(lines, detect, d.value, n, n + 1) && b.content == lines[n..n + 1];
    forall s ensures (Lookup(b.sections, s).Some? || b.current == Some(s)) <==> Headed(lines, detect, s, n + 1) {
      if Headed(lines, detect, s, n + 1) && d != Some(s) {
        var k :| 0 <= k < n + 1 && detect(lines[k]) == Some(s);
        assert Headed(lines, detect, s, n);
      }
      if Headed(lines, detect, s, n) {
        var k :| 0 <= k < n && detect(lines[k]) == Some(s);
        assert Headed(lines, detect, s, n + 1);
      }
    }
    forall s | Some(s) != b.current && Lookup(b.sections, s).Some?
      ensures ClosedSegment(lines, detect, s, n + 1, Lookup(b.sections, s).value)
    {
      if a.current == Some(s) {
        var i: nat :| Segment(lines, detect, s, i, n) && a.content == lines[i..n];
        assert Lookup(b.sections, s).value == Join(lines[i..n], "\n");
        assert EndsAt(lines, detect, s, n, n + 1);
      } else {
        KeepLast(lines, detect, n, s, Lookup(a.sections, s).value);
      }
    }
  }

  lemma StepContinue(lines: seq<string>, detect: string -> Option<SectionType>, n: nat, a: Scan)
    requires n < |lines| && Inv(lines, detect, n, a)
    requires !(detect(lines[n]).Some? && detect(lines[n]) != a.current) && a.current.Some?
    ensures Inv(lines, detect, n + 1, Step(a, detect(lines[n]), lines[n]))
  {
    var d := detect(lines[n]);
    var b := Step(a, d, lines[n]);
    assert b == a.(content := a.content + [lines[n]]);
    var i: nat :| Segment(lines, detect, a.current.value, i, n) && a.content == lines[i..n];
    assert lines[i..n + 1] == lines[i..n] + [lines[n]];
    assert Segment(lines, detect, a.current.value, i, n + 1);
    forall s ensures (Lookup(b.sections, s).Some? || b.current == Some(s)) <==> Headed(lines, detect, s, n + 1) {
      if Headed(lines, detect, s, n + 1) && d != Some(s) {
        var k :| 0 <= k < n + 1 && detect(lines[k]) == Some(s);
        assert Headed(lines, detect, s, n);
      }
      if Headed(lines, detect, s, n) {
        var k :| 0 <= k < n && detect(lines[k]) == Some(s);
        assert Headed(lines, detect, s, n + 1);
      }
    }
    forall s | Some(s) != b.current && Lookup(b.sections, s).Some?
      ensures ClosedSegment(lines, detect, s, n + 1, Lookup(b.sections, s).value)
    {
      KeepLast(lines, detect, n, s, Lookup(a.sections, s).value);
    }
  }

  lemma StepIdle(lines: seq<string>, detect: string -> Option<SectionType>, n: nat, a: Scan)
    requires n < |lines| && Inv(lines, detect, n, a)
    requires !(detect(lines[n]).Some? && detect(lines[n]) != a.current) && a.current.None?
    ensures Inv(lines, detect, n + 1, Step(a, detect(lines[n]), lines[n]))
  {
    var d := detect(lines[n]);
    assert d.None?;
    forall s ensures Headed(lines, detect, s, n + 1) <==> Headed(lines, detect, s, n) {
      if Headed(lines, detect, s, n + 1) {
        var k :| 0 <= k < n + 1 && detect(lines[k]) == Some(s);
        assert Headed(lines, detect, s, n);
      }
      if Headed(lines, detect, s, n) {
        var k :| 0 <= k < n && detect(lines[k]) == Some(s);
        assert Headed(lines, detect, s, n + 1);
      }
    }
    forall s | Lookup(a.sections, s).Some?
      ensures ClosedSegment(lines, detect, s, n + 1, Lookup(a.sections, s).value)
    {
      KeepLast(lines, detect, n, s, Lookup(a.sections, s).value);
    }
  }

  /** The sections are those some line is a heading of, each once, and
    * the text of each is its last segment: the lines from a heading of
    * it to the next heading of another section, joined with line breaks.
    * Lines before the first heading belong to no section. */
  lemma SegmentsShape(lines: seq<string>, detect: string -> Option<SectionType>)
    ensures DistinctKeys(Segments(lines, detect))
    ensures forall s :: Lookup(Segments(lines, detect), s).Some? <==> Headed(lines, detect, s, |lines|)
    ensures forall s :: Lookup(Segments(lines, detect), s).Some? ==>
      LastSegment(lines, detect, s, |lines|, Lookup(Segments(lines, detect), s).value)
  {
    var n := |lines|;
    InvHolds(lines, detect, n);
    var a := ScanUpTo(lines, detect, n);
    var m := Segments(lines, detect);
    forall s | Lookup(m, s).Some? ensures LastSegment(lines, detect, s, n, Lookup(m, s).value) {
      if a.current == Some(s) {
        var i: nat :| Segment(lines, detect, s, i, n) && a.content == lines[i..n];
        assert EndsAt(lines, detect, s, n, n);
      } else {
        ClosedIsLast(lines, detect, s, n, Lookup(m, s).value);
      }
    }
  }

  lemma ClosedIsLast(lines: seq<string>, detect: string -> Option<SectionType>, s: SectionType, n: nat, t: string)
    requires n <= |lines| && ClosedSegment(lines, detect, s, n, t)
    ensures LastSegment(lines, detect, s, n, t)
  {
    var i: nat, j: nat :| Segment(lines, detect, s, i, j) && j < n && EndsAt(lines, detect, s, j, n) && t == Join(lines[i..j], "\n");
  }

  /** A document with no heading has no sections. */
  lemma NoHeadingNoSections(lines: seq<string>, detect: string -> Option<SectionType>)
    requires forall k :: 0 <= k < |lines| ==> detect(lines[k]).None?
    ensures Segments(lines, detect) == []
  {
    SegmentsShape(lines, detect);
    var m := Segments(lines, detect);
    assert forall s :: !Headed(lines, detect, s, |lines|);
    assert forall s :: Lookup(m, s).None?;
    assert |m| > 0 ==> Lookup(m, m[0].section).Some?;
  }
}
