/** `analyzeThesis` and `analyzeSection` of `src/lib/thesis-analysis.ts`: the
  * sections are extracted, each gets a checklist and feedback, the rules
  * and the citations are checked, and an overall score and a summary are
  * made. The overall score is the weighted mean of the section scores with
  * penalties and a bonus; the multipliers (0.85, 0.8, 0.9, 1.05) and the
  * weights (halves) are applied as exact fractions, with `Math.round`
  * rounding halves up. */
module Thesis {
  import opened Strings
  import opened AnalysisTypes
  import opened AnalysisPatterns
  import opened TextMeasures
  import opened Sections
  import opened Checklist
  import opened Feedback
  import opened Rules
  import opened CitationCheck

  // ---------------------------------------------------------------------------
  // The detected section

  /** The section of the first heading among the first `n` lines. */
  function FirstHeading(lines: seq<string>, detect: string -> Option<SectionType>, n: nat): (r: Option<SectionType>)
    requires n <= |lines|
    ensures r.Some? ==> exists k :: 0 <= k < n && detect(lines[k]) == r && forall j :: 0 <= j < k ==> detect(lines[j]).None?
    ensures r.None? ==> forall j :: 0 <= j < n ==> detect(lines[j]).None?
  {
    if n == 0 then None
    else if FirstHeading(lines, detect, n - 1).Some? then FirstHeading(lines, detect, n - 1)
    else detect(lines[n - 1])
  }

  /** A heading on line `i` with none before it is the first heading of
    * every longer prefix. */
  lemma {:induction false} FirstHeadingAt(lines: seq<string>, detect: string -> Option<SectionType>, i: nat, n: nat)
    requires i < n <= |lines| && detect(lines[i]).Some?
    requires forall j :: 0 <= j < i ==> detect(lines[j]).None?
    ensures FirstHeading(lines, detect, n) == detect(lines[i])
    decreases n
  {
    if n - 1 > i {
      FirstHeadingAt(lines, detect, i, n - 1);
    } else {
      assert FirstHeading(lines, detect, i).None?;
    }
  }

  /** The loop of `analyzeThesis` that finds the first line with a heading. */
  method DetectMainSection(find: Finder, content: string) returns (detected: Option<SectionType>)
    ensures var lines := Split(content, '\n'); detected == FirstHeading(lines, Detector(find), |lines|)
  {
    detected := FirstHeadingLoop(Split(content, '\n'), Detector(find));
  }

  method FirstHeadingLoop(lines: seq<string>, detect: string -> Option<SectionType>) returns (detected: Option<SectionType>)
    ensures detected == FirstHeading(lines, detect, |lines|)
  {
    detected := None;
    for i := 0 to |lines|
      invariant forall j :: 0 <= j < i ==> detect(lines[j]).None?
    {
      var section := detect(lines[i]);
      if section.Some? {
        FirstHeadingAt(lines, detect, i, |lines|);
        detected := section;
        return;
      }
    }
  }

  /** What the scan knows about the first heading: none yet, nothing saved;
    * else it is the first key saved, or the current section while nothing
    * is saved. */
  predicate FirstKept(acc: Scan, first: Option<SectionType>)
  {
    (first.None? ==> acc.current.None? && acc.sections == []) &&
    (first.Some? ==> (acc.current.Some? &&
      (acc.sections == [] ==> acc.current == first) &&
      (acc.sections != [] ==> acc.sections[0].section == first.value)))
  }

  lemma {:induction false} FirstKeptHolds(lines: seq<string>, detect: string -> Option<SectionType>, n: nat)
    requires n <= |lines|
    ensures FirstKept(ScanUpTo(lines, detect, n), FirstHeading(lines, detect, n))
    decreases n
  {
    if n > 0 {
      FirstKeptHolds(lines, detect, n - 1);
      var acc := ScanUpTo(lines, detect, n - 1);
      var d := detect(lines[n - 1]);
      if d.Some? && d != acc.current && acc.current.Some? {
        SavedKeepsFirst(acc);
      }
    }
  }

  lemma SavedKeepsFirst(acc: Scan)
    requires acc.current.Some?
    ensures Saved(acc) != [] && Saved(acc)[0].section == if acc.sections == [] then acc.current.value else acc.sections[0].section
  {
    if acc.sections == [] {
      assert Lookup(acc.sections, acc.current.value).None?;
    }
  }

  /** The detected section is the section of the first entry `extractSections`
    * returns, and there is none exactly when no section is found. */
  lemma DetectedIsFirstSection(lines: seq<string>, detect: string -> Option<SectionType>)
    ensures var first := FirstHeading(lines, detect, |lines|); var m := Segments(lines, detect);
      (m == [] <==> first.None?) && (m != [] ==> m[0].section == first.value)
  {
    var acc := ScanUpTo(lines, detect, |lines|);
    FirstKeptHolds(lines, detect, |lines|);
    if acc.current.Some? {
      SavedKeepsFirst(acc);
    }
  }

  // ---------------------------------------------------------------------------
  // Checklists and feedback for every section

  /** A checklist maker: `createSectionChecklist` with its patterns. */
  type ChecklistGen = (SectionType, string) -> SectionChecklist

  /** A feedback generator: `generateSectionFeedback` of one library. */
  type FeedbackGen = (SectionType, string, SectionChecklist) -> SectionFeedback

  /** The checklists of the extracted sections, in the order of the map. */
  function Checklists(make: ChecklistGen, m: seq<Entry>): (cs: seq<SectionChecklist>)
    ensures |cs| == |m| && forall i :: 0 <= i < |m| ==> cs[i] == make(m[i].section, m[i].text)
  {
    seq(|m|, i requires 0 <= i < |m| => make(m[i].section, m[i].text))
  }

  /** The feedback of the extracted sections, from their checklists. */
  function Feedbacks(gen: FeedbackGen, m: seq<Entry>, cs: seq<SectionChecklist>): (fs: seq<SectionFeedback>)
    requires |cs| == |m|
    ensures |fs| == |m| && forall i :: 0 <= i < |m| ==> fs[i] == gen(m[i].section, m[i].text, cs[i])
  {
    seq(|m|, i requires 0 <= i < |m| => gen(m[i].section, m[i].text, cs[i]))
  }

  /** The loop of `analyzeThesis` over the map of sections. */
  method SectionReports(make: ChecklistGen, gen: FeedbackGen, m: seq<Entry>)
    returns (checklists: seq<SectionChecklist>, feedbacks: seq<SectionFeedback>)
    ensures checklists == Checklists(make, m) && feedbacks == Feedbacks(gen, m, checklists)
  {
    checklists := [];
    feedbacks := [];
    for i := 0 to |m|
      invariant |checklists| == |feedbacks| == i
      invariant forall j :: 0 <= j < i ==> checklists[j] == make(m[j].section, m[j].text)
      invariant forall j :: 0 <= j < i ==> feedbacks[j] == gen(m[j].section, m[j].text, checklists[j])
    {
      var checklist := make(m[i].section, m[i].text);
      checklists := checklists + [checklist];
      var feedback := gen(m[i].section, m[i].text, checklist);
      feedbacks := feedbacks + [feedback];
    }
  }

  // ---------------------------------------------------------------------------
  // The overall score

  /** `SECTION_WEIGHTS`, doubled so that they are whole numbers. */
  function Weight(s: SectionType): (w: nat)
    ensures 1 <= w <= 4
  {
    match s
    case Title => 1
    case Abstract => 2
    case Introduction => 3
    case LiteratureReview => 3
    case Methodology => 4
    case Results => 3
    case Discussion => 3
    case Conclusion => 2
    case References => 1
  }

  /** The sum of the scores times the (doubled) weights. */
  function WeightedSum(fs: seq<SectionFeedback>): nat
  {
    if fs == [] then 0 else WeightedSum(fs[..|fs| - 1]) + fs[|fs| - 1].score * Weight(fs[|fs| - 1].section)
  }

  /** The sum of the (doubled) weights. */
  function WeightSum(fs: seq<SectionFeedback>): (w: nat)
    ensures fs != [] ==> w > 0
  {
    if fs == [] then 0 else WeightSum(fs[..|fs| - 1]) + Weight(fs[|fs| - 1].section)
  }

  /** `Math.round(x * num / den)`. */
  function Scale(x: nat, num: nat, den: nat): (r: nat)
    requires den > 0
    ensures 2 * den * r <= 2 * x * num + den < 2 * den * (r + 1)
  {
    RoundedMean(x * num, den)
  }

  /** The weighted mean, rounded; 0 without sections. */
  function BaseScore(fs: seq<SectionFeedback>): nat
  {
    if WeightSum(fs) > 0 then RoundedMean(WeightedSum(fs), WeightSum(fs)) else 0
  }

  /** `CRITICAL_SECTIONS`. */
  const CriticalSections: seq<SectionType> := [Introduction, Methodology, Results, Conclusion]

  predicate Present(fs: seq<SectionFeedback>, s: SectionType)
  {
    exists i :: 0 <= i < |fs| && fs[i].section == s
  }

  /** The sections of `cs` not among the feedback, in order. */
  function Absent(fs: seq<SectionFeedback>, cs: seq<SectionType>): (r: seq<SectionType>)
    ensures |r| <= |cs|
    ensures forall s :: s in r <==> s in cs && !Present(fs, s)
  {
    if cs == [] then []
    else
      var rest := Absent(fs, cs[1..]);
      assert forall s :: s in cs <==> s == cs[0] || s in cs[1..];
      if Present(fs, cs[0]) then rest else [cs[0]] + rest
  }

  /** The score after `k` penalties of 15%. */
  function Shrink(x: nat, k: nat): nat
  {
    if k == 0 then x else Scale(Shrink(x, k - 1), 17, 20)
  }

  /** The score of the first methodology feedback, if any. */
  function MethodologyScore(fs: seq<SectionFeedback>): (r: Option<nat>)
    ensures r.Some? <==> Present(fs, Methodology)
  {
    if fs == [] then None
    else if fs[0].section == Methodology then Some(fs[0].score)
    else MethodologyScore(fs[1..])
  }

  /** How many sections score 90 or more. */
  function ExcellentCount(fs: seq<SectionFeedback>): (n: nat)
    ensures n <= |fs|
  {
    if fs == [] then 0 else (if fs[0].score >= 90 then 1 else 0) + ExcellentCount(fs[1..])
  }

  /** The overall score: the rounded weighted mean, less 15% per missing
    * critical section, 20% for a methodology under 30 and 10% for a
    * citation score under 40, plus 5% (at most 100) with three sections at
    * 90 or more; then kept within 0..100. */
  function OverallScore(fs: seq<SectionFeedback>, citationScore: nat): (r: int)
    ensures 0 <= r <= 100
  {
    var base := BaseScore(fs);
    var afterMissing := Shrink(base, |Absent(fs, CriticalSections)|);
    var afterMethod :=
      if MethodologyScore(fs).Some? && MethodologyScore(fs).value < 30 then Scale(afterMissing, 4, 5) else afterMissing;
    var afterCitations := if citationScore < 40 then Scale(afterMethod, 9, 10) else afterMethod;
    var afterBonus := if ExcellentCount(fs) >= 3 then Min(100, Scale(afterCitations, 21, 20)) else afterCitations;
    Max(0, Min(100, afterBonus))
  }

  /** The score computation of `analyzeThesis`. */
  method ComputeOverallScore(feedbacks: seq<SectionFeedback>, citationScore: nat) returns (overall: int)
    ensures overall == OverallScore(feedbacks, citationScore)
  {
    var weightedScore, totalWeight := WeighScores(feedbacks);
    var score := if totalWeight > 0 then RoundedMean(weightedScore, totalWeight) else 0;
    score := PenalizeMissing(feedbacks, score);
    var methodology := MethodologyScore(feedbacks);
    if methodology.Some? && methodology.value < 30 {
      score := Scale(score, 4, 5);
    }
    if citationScore < 40 {
      score := Scale(score, 9, 10);
    }
    if ExcellentCount(feedbacks) >= 3 {
      score := Min(100, Scale(score, 21, 20));
    }
    overall := Max(0, Min(100, score));
  }

  /** The loop summing the weighted scores and the weights. */
  method WeighScores(feedbacks: seq<SectionFeedback>) returns (weightedScore: nat, totalWeight: nat)
    ensures weightedScore == WeightedSum(feedbacks) && totalWeight == WeightSum(feedbacks)
  {
    weightedScore, totalWeight := 0, 0;
    for i := 0 to |feedbacks|
      invariant weightedScore == WeightedSum(feedbacks[..i]) && totalWeight == WeightSum(feedbacks[..i])
    {
      assert feedbacks[..i + 1][..i] == feedbacks[..i];
      weightedScore := weightedScore + feedbacks[i].score * Weight(feedbacks[i].section);
      totalWeight := totalWeight + Weight(feedbacks[i].section);
    }
    assert feedbacks[..|feedbacks|] == feedbacks;
  }

  /** The loop over `CRITICAL_SECTIONS`: 15% off per missing section. */
  method PenalizeMissing(feedbacks: seq<SectionFeedback>, base: nat) returns (score: nat)
    ensures score == Shrink(base, |Absent(feedbacks, CriticalSections)|)
  {
    score := base;
    for c := 0 to |CriticalSections|
      invariant score == Shrink(base, |Absent(feedbacks, CriticalSections[..c])|)
    {
      MissingTail(feedbacks, CriticalSections, c);
      var found := IsPresent(feedbacks, CriticalSections[c]);
      if !found {
        score := Scale(score, 17, 20);
      }
    }
    AbsentWhole(feedbacks, CriticalSections);
  }

  lemma AbsentWhole(fs: seq<SectionFeedback>, cs: seq<SectionType>)
    ensures Absent(fs, cs[..|cs|]) == Absent(fs, cs)
  {
    assert cs[..|cs|] == cs;
  }

  /** `feedbacks.some(f => f.section === section)`. */
  method IsPresent(feedbacks: seq<SectionFeedback>, s: SectionType) returns (found: bool)
    ensures found <==> Present(feedbacks, s)
  {
    found := false;
    for i := 0 to |feedbacks|
      invariant !found <==> forall j :: 0 <= j < i ==> feedbacks[j].section != s
    {
      if feedbacks[i].section == s {
        found := true;
        return;
      }
    }
  }

  lemma MissingTail(fs: seq<SectionFeedback>, cs: seq<SectionType>, c: nat)
    requires c < |cs|
    ensures |Absent(fs, cs[..c + 1])| == |Absent(fs, cs[..c])| + if Present(fs, cs[c]) then 0 else 1
  {
    MissingAppend(fs, cs[..c], cs[c]);
    assert cs[..c + 1] == cs[..c] + [cs[c]];
  }

  lemma {:induction false} MissingAppend(fs: seq<SectionFeedback>, cs: seq<SectionType>, s: SectionType)
    ensures Absent(fs, cs + [s]) == Absent(fs, cs) + if Present(fs, s) then [] else [s]
    decreases |cs|
  {
    if cs == [] {
      assert [s][1..] == [];
    } else {
      assert (cs + [s])[0] == cs[0] && (cs + [s])[1..] == cs[1..] + [s];
      MissingAppend(fs, cs[1..], s);
    }
  }

  lemma {:induction false} NothingAbsent(fs: seq<SectionFeedback>, cs: seq<SectionType>)
    requires forall s :: s in cs ==> Present(fs, s)
    ensures Absent(fs, cs) == []
  {
    var r := Absent(fs, cs);
    if r != [] {
      HeadIsMember(r);
    }
  }

  lemma HeadIsMember<T>(r: seq<T>)
    requires r != []
    ensures r[0] in r
  {
  }

  /** Scores of at most 100 have a weighted mean of at most 100. */
  lemma {:induction false} WeightedSumBound(fs: seq<SectionFeedback>)
    requires forall i :: 0 <= i < |fs| ==> fs[i].score <= 100
    ensures WeightedSum(fs) <= WeightSum(fs) * 100
    decreases |fs|
  {
    if fs != [] {
      WeightedSumBound(fs[..|fs| - 1]);
      var last := fs[|fs| - 1];
      MulMono(Weight(last.section), last.score, 100);
    }
  }

  lemma BaseScoreBound(fs: seq<SectionFeedback>)
    requires forall i :: 0 <= i < |fs| ==> fs[i].score <= 100
    ensures BaseScore(fs) <= 100
  {
    WeightedSumBound(fs);
    RoundedMeanBound(WeightedSum(fs), WeightSum(fs), 100);
  }

  /** A penalty never raises a score. */
  lemma ScaleDown(x: nat, num: nat, den: nat)
    requires 0 < den && num <= den
    ensures Scale(x, num, den) <= x
  {
    var r := Scale(x, num, den);
    MulMono(x, num, den);
    if r > x {
      MulMono(2 * den, x + 1, r);
    }
  }

  lemma {:induction false} ShrinkDown(x: nat, k: nat)
    ensures Shrink(x, k) <= x
    decreases k
  {
    if k > 0 {
      ShrinkDown(x, k - 1);
      ScaleDown(Shrink(x, k - 1), 17, 20);
    }
  }

  /** Without the bonus, the overall score is at most the weighted mean:
    * penalties only lower it. */
  lemma {:induction false} PenaltiesOnlyLower(fs: seq<SectionFeedback>, citationScore: nat)
    requires forall i :: 0 <= i < |fs| ==> fs[i].score <= 100
    requires ExcellentCount(fs) < 3
    ensures OverallScore(fs, citationScore) <= BaseScore(fs)
  {
    var base := BaseScore(fs);
    var a := Shrink(base, |Absent(fs, CriticalSections)|);
    ShrinkDown(base, |Absent(fs, CriticalSections)|);
    ScaleDown(a, 4, 5);
    var b := if MethodologyScore(fs).Some? && MethodologyScore(fs).value < 30 then Scale(a, 4, 5) else a;
    ScaleDown(b, 9, 10);
  }

  /** Without penalties and without the bonus, the overall score is the
    * rounded weighted mean. */
  lemma {:induction false} NoPenaltyIsMean(fs: seq<SectionFeedback>, citationScore: nat)
    requires forall i :: 0 <= i < |fs| ==> fs[i].score <= 100
    requires forall s :: s in CriticalSections ==> Present(fs, s)
    requires MethodologyScore(fs).Some? && MethodologyScore(fs).value >= 30
    requires citationScore >= 40 && ExcellentCount(fs) < 3
    ensures OverallScore(fs, citationScore) == BaseScore(fs)
  {
    BaseScoreBound(fs);
    NothingAbsent(fs, CriticalSections);
  }

  /** A document without sections scores 0. */
  lemma NoSectionsScoreZero(citationScore: nat)
    ensures OverallScore([], citationScore) == 0
  {
    ShrinkDown(0, |Absent([], CriticalSections)|);
  }

  // ---------------------------------------------------------------------------
  // The summary

  /** A strong point: a well-structured section and its score. */
  datatype StrongPoint = WellStructured(caption: string, score: nat)

  /** An improvement area. */
  datatype Area =
    | MissingSections(captions: seq<string>)        // the missing critical sections
    | Urgent(caption: string, score: nat)           // a section under 50
    | Improvable(caption: string, score: nat)       // a section from 50 to 69
    | UncitedClaims(count: nat, alert: bool)        // uncited assertions, "ALERTA" over 5

  function StrongPoints(fs: seq<SectionFeedback>): (r: seq<StrongPoint>)
    ensures |r| <= |fs|
    ensures forall p :: p in r <==> exists f :: f in fs && f.score >= 70 && p == WellStructured(f.sectionLabel, f.score)
  {
    if fs == [] then []
    else
      var rest := StrongPoints(fs[1..]);
      assert forall f :: f in fs <==> f == fs[0] || f in fs[1..];
      if fs[0].score >= 70 then [WellStructured(fs[0].sectionLabel, fs[0].score)] + rest else rest
  }

  /** The feedback whose score is in `lo..hi-1`, in order. */
  function ScoredWithin(fs: seq<SectionFeedback>, lo: int, hi: int): (r: seq<SectionFeedback>)
    ensures |r| <= |fs|
    ensures forall f :: f in r <==> f in fs && lo <= f.score < hi
  {
    if fs == [] then []
    else
      var rest := ScoredWithin(fs[1..], lo, hi);
      assert forall f :: f in fs <==> f == fs[0] || f in fs[1..];
      if lo <= fs[0].score < hi then [fs[0]] + rest else rest
  }

  predicate SortedByScore(fs: seq<SectionFeedback>)
  {
    forall i, j :: 0 <= i < j < |fs| ==> fs[i].score <= fs[j].score
  }

  /** `x` put before the first element with a score at least its own. */
  function Insert(x: SectionFeedback, s: seq<SectionFeedback>): (r: seq<SectionFeedback>)
    requires SortedByScore(s)
    ensures multiset(r) == multiset(s) + multiset{x}
    ensures SortedByScore(r)
  {
    if s == [] then [x]
    else if x.score <= s[0].score then [x] + s
    else
      var rest := Insert(x, s[1..]);
      assert s == [s[0]] + s[1..];
      InsertAbove(x, s, rest);
      [s[0]] + rest
  }

  lemma InsertAbove(x: SectionFeedback, s: seq<SectionFeedback>, rest: seq<SectionFeedback>)
    requires s != [] && SortedByScore(s) && SortedByScore(rest) && x.score > s[0].score
    requires multiset(rest) == multiset(s[1..]) + multiset{x}
    ensures SortedByScore([s[0]] + rest)
  {
    forall i | 0 <= i < |rest| ensures s[0].score <= rest[i].score {
      assert rest[i] in multiset(rest);
      if rest[i] != x {
        assert rest[i] in multiset(s[1..]);
        assert rest[i] in s[1..];
      }
    }
    var r := [s[0]] + rest;
    assert forall j :: 1 <= j < |r| ==> r[j] == rest[j - 1];
  }

  /** `sort((a, b) => a.score - b.score)`: by score, lowest first; equal
    * scores keep their order. */
  function SortByScore(fs: seq<SectionFeedback>): (r: seq<SectionFeedback>)
    ensures SortedByScore(r) && multiset(r) == multiset(fs) && |r| == |fs|
  {
    if fs == [] then []
    else
      assert fs == [fs[0]] + fs[1..];
      Insert(fs[0], SortByScore(fs[1..]))
  }

  function Take<T>(xs: seq<T>, n: nat): (r: seq<T>)
    ensures |r| == Min(n, |xs|) && r == xs[..|r|]
  {
    if |xs| <= n then xs else xs[..n]
  }

  function UrgentArea(f: SectionFeedback): Area { Urgent(f.sectionLabel, f.score) }

  function ImprovableArea(f: SectionFeedback): Area { Improvable(f.sectionLabel, f.score) }

  function MapAreas(fs: seq<SectionFeedback>, area: SectionFeedback -> Area): (r: seq<Area>)
    ensures |r| == |fs| && forall i :: 0 <= i < |fs| ==> r[i] == area(fs[i])
  {
    seq(|fs|, i requires 0 <= i < |fs| => area(fs[i]))
  }

  function Captions(ss: seq<SectionType>): (r: seq<string>)
    ensures |r| == |ss| && forall i :: 0 <= i < |ss| ==> r[i] == SectionLabel(ss[i])
  {
    seq(|ss|, i requires 0 <= i < |ss| => SectionLabel(ss[i]))
  }

  /** The improvement areas: the missing critical sections, the three
    * lowest sections under 50, the first two from 50 to 69, and the
    * uncited assertions reported. */
  function ImprovementAreas(fs: seq<SectionFeedback>, uncited: nat): seq<Area>
  {
    var missing := Absent(fs, CriticalSections);
    (if missing != [] then [MissingSections(Captions(missing))] else []) +
    MapAreas(Take(SortByScore(ScoredWithin(fs, 0, 50)), 3), UrgentArea) +
    MapAreas(Take(ScoredWithin(fs, 50, 70), 2), ImprovableArea) +
    (if uncited > 0 then [UncitedClaims(uncited, uncited > 5)] else [])
  }

  /** The urgent sections listed are the lowest-scoring ones under 50: no
    * section under 50 that is left out scores less than one listed. */
  lemma UrgentAreLowest(fs: seq<SectionFeedback>)
    ensures var low := SortByScore(ScoredWithin(fs, 0, 50)); var shown := Take(low, 3);
      |shown| <= 3 && SortedByScore(shown) &&
      (forall f :: f in shown ==> f in fs && f.score < 50) &&
      (forall i, j :: 0 <= i < |shown| <= j < |low| ==> shown[i].score <= low[j].score)
  {
    var low := SortByScore(ScoredWithin(fs, 0, 50));
    var shown := Take(low, 3);
    forall f | f in shown ensures f in fs && f.score < 50 {
      assert f in multiset(low);
      assert f in multiset(ScoredWithin(fs, 0, 50));
    }
  }

  /** At most seven areas; the uncited warning is there exactly when some
    * assertion is uncited, and carries the alert exactly above five. */
  lemma AreasShape(fs: seq<SectionFeedback>, uncited: nat)
    ensures var areas := ImprovementAreas(fs, uncited);
      |areas| <= 7 &&
      (UncitedClaims(uncited, uncited > 5) in areas <==> uncited > 0) &&
      (uncited > 0 ==> areas[|areas| - 1] == UncitedClaims(uncited, uncited > 5))
  {
    var missing := Absent(fs, CriticalSections);
    var a: seq<Area> := if missing != [] then [MissingSections(Captions(missing))] else [];
    var b := MapAreas(Take(SortByScore(ScoredWithin(fs, 0, 50)), 3), UrgentArea);
    var c := MapAreas(Take(ScoredWithin(fs, 50, 70), 2), ImprovableArea);
    var d: seq<Area> := if uncited > 0 then [UncitedClaims(uncited, uncited > 5)] else [];
    assert ImprovementAreas(fs, uncited) == a + b + c + d;
    assert |a + b + c| <= 6;
    assert forall x :: x in a + b + c ==> !x.UncitedClaims?;
    AreasEnd(a + b + c, uncited);
  }

  /** Areas without an uncited-claims entry, that entry appended when
    * there are uncited assertions. */
  lemma AreasEnd(head: seq<Area>, uncited: nat)
    requires forall x :: x in head ==> !x.UncitedClaims?
    ensures var areas := head + (if uncited > 0 then [UncitedClaims(uncited, uncited > 5)] else []);
      (UncitedClaims(uncited, uncited > 5) in areas <==> uncited > 0) &&
      (uncited > 0 ==> areas[|areas| - 1] == UncitedClaims(uncited, uncited > 5))
  {
    if uncited == 0 {
      assert head + [] == head;
    }
  }

  /** Missing critical sections are reported first, by their labels. */
  lemma MissingFirst(fs: seq<SectionFeedback>, uncited: nat, s: SectionType)
    requires s in CriticalSections && !Present(fs, s)
    ensures var areas := ImprovementAreas(fs, uncited);
      areas[0].MissingSections? && SectionLabel(s) in areas[0].captions
  {
    var missing := Absent(fs, CriticalSections);
    assert s in missing;
    var i :| 0 <= i < |missing| && missing[i] == s;
    assert Captions(missing)[i] == SectionLabel(s);
  }

  // ---------------------------------------------------------------------------
  // The whole analysis

  datatype ThesisAnalysis = ThesisAnalysis(
    overallScore: int, sections: seq<SectionFeedback>, checklists: seq<SectionChecklist>,
    rules: RulesAnalysis, citations: CitationAnalysis,
    strongPoints: seq<StrongPoint>, improvementAreas: seq<Area>)

  /** `createSectionChecklist` and `generateSectionFeedback` of this
    * library, as the makers the analysis takes. */
  function Maker(find: Finder): ChecklistGen
  {
    (s, text) => CreateSectionChecklist(find, s, text)
  }

  function Generator(count: MatchCounter, currentYear: int): FeedbackGen
  {
    (s, text, c) => GenerateSectionFeedback(count, currentYear, s, text, c)
  }

  /** A checklist maker keeps the section and scores at most 100. */
  ghost predicate MakerKeepsSection(make: ChecklistGen)
  {
    forall s, text :: make(s, text).section == s && make(s, text).score <= 100
  }

  /** A feedback generator keeps the section and the checklist's score. */
  ghost predicate GeneratorKeepsScore(gen: FeedbackGen)
  {
    forall s, text, c :: gen(s, text, c).section == s && gen(s, text, c).score == c.score
  }

  lemma MakerOfLibrary(find: Finder)
    ensures MakerKeepsSection(Maker(find))
  {
    forall s, text ensures Maker(find)(s, text).section == s && Maker(find)(s, text).score <= 100 {
      var c := CreateSectionChecklist(find, s, text);
    }
  }

  lemma GeneratorOfLibrary(count: MatchCounter, currentYear: int)
    ensures GeneratorKeepsScore(Generator(count, currentYear))
  {
    forall s, text, c ensures Generator(count, currentYear)(s, text, c).section == s &&
      Generator(count, currentYear)(s, text, c).score == c.score {
      var f := GenerateSectionFeedback(count, currentYear, s, text, c);
    }
  }

  /** `analyzeThesis`, as a value, for a checklist maker and a feedback
    * generator (this library's are `Maker` and `Generator`). The date, the
    * user's rules and the regular-expression engines are parameters. */
  function ThesisOf(find: Finder, make: ChecklistGen, gen: FeedbackGen, search: RuleSearch, userRules: seq<Rule>,
                    content: string): ThesisAnalysis
  {
    var lines := Split(content, '\n');
    var m := SectionsOf(find, content);
    var cs := Checklists(make, m);
    var fs := Feedbacks(gen, m, cs);
    var citations := CitationsOf(find, content);
    ThesisAnalysis(
      OverallScore(fs, citations.score), fs, cs,
      AnalyzeRules(search, userRules, content, FirstHeading(lines, Detector(find), |lines|)),
      citations, StrongPoints(fs), ImprovementAreas(fs, |citations.uncitedAssertions|))
  }

  /** `analyzeThesis`. */
  method AnalyzeThesis(find: Finder, make: ChecklistGen, gen: FeedbackGen, search: RuleSearch, userRules: seq<Rule>,
                       content: string) returns (a: ThesisAnalysis)
    ensures a == ThesisOf(find, make, gen, search, userRules, content)
  {
    var sections := ExtractSections(find, content);
    var detected := DetectMainSection(find, content);
    var checklists, feedbacks := SectionReports(make, gen, sections);
    var rules := AnalyzeRules(search, userRules, content, detected);
    var citations := AnalyzeCitations(find, content);
    var overall := ComputeOverallScore(feedbacks, citations.score);
    a := ThesisAnalysis(overall, feedbacks, checklists, rules, citations,
      StrongPoints(feedbacks), ImprovementAreas(feedbacks, |citations.uncitedAssertions|));
  }

  /** Sections, checklists and feedback line up, in the order of the
    * extracted sections, with one score each of at most 100. */
  lemma ReportsLineUp(find: Finder, make: ChecklistGen, gen: FeedbackGen, search: RuleSearch, userRules: seq<Rule>,
                      content: string)
    requires MakerKeepsSection(make) && GeneratorKeepsScore(gen)
    ensures var a := ThesisOf(find, make, gen, search, userRules, content);
      var m := SectionsOf(find, content);
      |a.sections| == |a.checklists| == |m| &&
      forall i :: 0 <= i < |m| ==> (a.sections[i].section == m[i].section == a.checklists[i].section &&
        a.sections[i].score == a.checklists[i].score <= 100)
  {
  }

  /** The rules are checked for the section of the first heading, which is
    * the first section extracted: no rule for another section is checked,
    * and with no section only general rules are. */
  lemma RulesForFirstSection(find: Finder, make: ChecklistGen, gen: FeedbackGen, search: RuleSearch, userRules: seq<Rule>,
                             content: string)
    ensures var a := ThesisOf(find, make, gen, search, userRules, content);
      var m := SectionsOf(find, content);
      (m != [] ==> forall r :: r in a.rules.results && r.rule.section.Some? ==> r.rule.section == Some(m[0].section)) &&
      (m == [] ==> forall r :: r in a.rules.results ==> r.rule.section.None?)
  {
    var lines := Split(content, '\n');
    DetectedIsFirstSection(lines, Detector(find));
  }

  /** `analyzeSection`: the checklist of a text taken as the given section,
    * and its feedback. */
  function AnalyzeSection(find: Finder, count: MatchCounter, currentYear: int, content: string, section: SectionType)
    : (r: (SectionChecklist, SectionFeedback))
    ensures r.0.section == r.1.section == section && r.0.score == r.1.score <= 100
    ensures r.1.priority == PriorityOf(r.0.score, |Select(r.0.items, true, false)|)
  {
    var checklist := CreateSectionChecklist(find, section, content);
    (checklist, GenerateSectionFeedback(count, currentYear, section, content, checklist))
  }
}
