/** The older `lib/thesis-analysis.ts`: it shares section detection, the
  * checklists, the rules and the citation check with the newer library,
  * and differs in `generateSectionFeedback` (other section checks, a
  * smaller suggestion table) and in `analyzeThesis` (a plain mean of the
  * checklist scores and a shorter summary). */
module LegacyAnalysis {
  import opened Strings
  import opened AnalysisTypes
  import opened AnalysisPatterns
  import opened TextMeasures
  import opened Sections
  import opened Checklist
  import opened Feedback
  import opened Rules
  import opened CitationCheck
  import opened Thesis

  // ---------------------------------------------------------------------------
  // generateSectionFeedback

  /** Whether the older suggestion table has an entry for an item. */
  predicate HasTip(id: string)
  {
    id in {"intro-problem", "intro-question", "intro-objective-general", "intro-objectives-specific",
           "intro-hypothesis", "intro-structure",
           "lit-synthesis", "lit-comparison", "lit-gap", "lit-critical", "lit-connection",
           "method-sample", "method-analysis", "method-ethics", "method-justification",
           "results-visuals",
           "disc-literature", "disc-limitations", "disc-future",
           "conc-answer", "conc-contributions"}
  }

  /** The suggestion for a missing item: the table's entry, or "add" with
    * the item's description. */
  function Tip(item: ChecklistItem): (n: Note)
    ensures n.ItemTip? <==> HasTip(item.template.id)
    ensures !n.ItemTip? ==> n == AddItem(item.template.description)
  {
    if HasTip(item.template.id) then ItemTip(item.template.id) else AddItem(item.template.description)
  }

  function IntroductionChecks(words: nat): Notes
  {
    if words < 300 then Notes([], [ShortIntroduction(words)], [ExpandIntroductionTip])
    else if words >= 500 then Notes([IntroductionLength(words)], [], [])
    else NoNotes
  }

  function CitationChecks(citations: nat): Notes
  {
    if citations == 0 then Notes([], [NoCitations], [CiteAuthorsTip])
    else if citations < 5 then Notes([], [FewCitations(citations)], [MoreAuthorsTip])
    else if citations >= 10 then Notes([ManyCitations(citations)], [], [])
    else NoNotes
  }

  /** Fewer than 30% recent years (of some years) is a weakness; otherwise
    * at least half recent is a strength (also with no years at all). */
  function RecencyChecks(years: seq<int>, currentYear: int): Notes
  {
    var recent := |Recent(years, currentYear)|;
    if |years| > 0 && 10 * recent < 3 * |years| then Notes([], [OldReferences], [RecentPublicationsTip(currentYear)])
    else if 2 * recent >= |years| then Notes([BalancedReferences], [], [])
    else NoNotes
  }

  function ReviewLengthChecks(words: nat): Notes
  {
    if words < 500 then Notes([], [ShortReview(words)], [DeepenReviewTip]) else NoNotes
  }

  function MethodologyChecks(words: nat): Notes
  {
    if words < 300 then Notes([], [ShortMethodology(words)], [DetailMethodologyTip]) else NoNotes
  }

  function DiscussionChecks(citations: nat, words: nat): Notes
  {
    Plus(if citations == 0 then Notes([], [NoDialogue], [CompareStudiesTip]) else NoNotes,
         if words < 300 then Notes([], [ShortDiscussion(words)], [InterpretTip]) else NoNotes)
  }

  /** Two independent checks: too brief, and too long. */
  function ConclusionChecks(words: nat): Notes
  {
    Plus(if words < 150 then Notes([], [BriefConclusion(words)], [SynthesiseTip]) else NoNotes,
         if words > 800 then Notes([], [LongConclusion], [ConciseTip]) else NoNotes)
  }

  function LegacySectionChecks(section: SectionType, words: nat, citations: nat, years: seq<int>, currentYear: int): Notes
  {
    match section
    case Introduction => IntroductionChecks(words)
    case LiteratureReview => Plus(Plus(CitationChecks(citations), RecencyChecks(years, currentYear)), ReviewLengthChecks(words))
    case Methodology => MethodologyChecks(words)
    case Discussion => DiscussionChecks(citations, words)
    case Conclusion => ConclusionChecks(words)
    case _ => NoNotes
  }

  /** `generateSectionFeedback` of the older library. */
  function LegacyGenerateSectionFeedback(count: MatchCounter, currentYear: int, section: SectionType, content: string,
                                         checklist: SectionChecklist): (f: SectionFeedback)
    ensures |f.strengths| <= 5 && |f.weaknesses| <= 5 && |f.suggestions| <= 5
    ensures var missing := Select(checklist.items, true, false);
      |f.weaknesses| >= Min(5, |missing|) && |f.suggestions| >= Min(5, |missing|) &&
      forall i :: 0 <= i < Min(5, |missing|) ==>
        f.weaknesses[i] == NotIdentified(missing[i].template.caption) && f.suggestions[i] == Tip(missing[i])
    ensures f.section == section && f.score == checklist.score
    ensures f.priority == PriorityOf(checklist.score, |Select(checklist.items, true, false)|)
  {
    var c := ChecklistNotes(checklist.items, Tip);
    var n := Plus(c, LegacySectionChecks(section, CountWords(content), CountCitations(count, content),
      ExtractCitationYears(content), currentYear));
    assert n.weaknesses[..|c.weaknesses|] == c.weaknesses && n.suggestions[..|c.suggestions|] == c.suggestions;
    Assemble(section, checklist, n)
  }

  /** The conclusion's two checks are independent: "too brief" fires
    * exactly below 150 words and "too long" exactly above 800, and a
    * conclusion in between gets no note at all. */
  lemma ConclusionThresholds(words: nat)
    ensures var n := LegacySectionChecks(Conclusion, words, 0, [], 0);
      (BriefConclusion(words) in n.weaknesses <==> words < 150) &&
      (LongConclusion in n.weaknesses <==> words > 800) &&
      (150 <= words <= 800 <==> n == NoNotes)
  {
  }

  /** Every weakness of a section check comes with exactly one suggestion. */
  lemma ChecksPairUp(section: SectionType, words: nat, citations: nat, years: seq<int>, currentYear: int)
    ensures var n := LegacySectionChecks(section, words, citations, years, currentYear);
      |n.weaknesses| == |n.suggestions|
  {
  }

  /** A methodology is never praised, and is criticised exactly below 300
    * words. */
  lemma MethodologyThreshold(words: nat, citations: nat, years: seq<int>, currentYear: int)
    ensures var n := LegacySectionChecks(Methodology, words, citations, years, currentYear);
      n.strengths == [] && (n.weaknesses == [ShortMethodology(words)] <==> words < 300) && (words >= 300 ==> n == NoNotes)
  {
  }

  // ---------------------------------------------------------------------------
  // analyzeThesis

  function LegacyGenerator(count: MatchCounter, currentYear: int): FeedbackGen
  {
    (s, text, c) => LegacyGenerateSectionFeedback(count, currentYear, s, text, c)
  }

  lemma LegacyGeneratorOfLibrary(count: MatchCounter, currentYear: int)
    ensures GeneratorKeepsScore(LegacyGenerator(count, currentYear))
  {
    forall s, text, c ensures LegacyGenerator(count, currentYear)(s, text, c).section == s &&
      LegacyGenerator(count, currentYear)(s, text, c).score == c.score {
      var f := LegacyGenerateSectionFeedback(count, currentYear, s, text, c);
    }
  }

  /** A strong point: the section is well structured. */
  datatype Praise = Structured(caption: string)

  /** An improvement area: a section needing attention, or the number of
    * uncited assertions. */
  datatype Concern = NeedsAttention(caption: string) | UncitedCount(count: nat)

  datatype LegacyAnalysis = LegacyAnalysis(
    overallScore: nat, sections: seq<SectionFeedback>, checklists: seq<SectionChecklist>,
    rules: RulesAnalysis, citations: CitationAnalysis,
    strongPoints: seq<Praise>, improvementAreas: seq<Concern>)

  function ScoreSum(cs: seq<SectionChecklist>): nat
  {
    if cs == [] then 0 else ScoreSum(cs[..|cs| - 1]) + cs[|cs| - 1].score
  }

  /** `Math.round(sum / checklists.length)`, and 0 without checklists. */
  function LegacyOverall(cs: seq<SectionChecklist>): (r: nat)
    ensures cs == [] ==> r == 0
    ensures cs != [] ==> 2 * |cs| * r <= 2 * ScoreSum(cs) + |cs| < 2 * |cs| * (r + 1)
  {
    RoundedMean(ScoreSum(cs), |cs|)
  }

  /** The sections scoring 70 or more, in order. */
  function Praises(fs: seq<SectionFeedback>): (r: seq<Praise>)
    ensures |r| <= |fs|
    ensures forall p :: p in r <==> exists f :: f in fs && f.score >= 70 && p == Structured(f.sectionLabel)
  {
    if fs == [] then []
    else
      var rest := Praises(fs[1..]);
      assert forall f :: f in fs <==> f == fs[0] || f in fs[1..];
      if fs[0].score >= 70 then [Structured(fs[0].sectionLabel)] + rest else rest
  }

  /** The sections scoring under 70, in order. */
  function Concerns(fs: seq<SectionFeedback>): (r: seq<Concern>)
    ensures |r| <= |fs|
    ensures forall p :: p in r <==> exists f :: f in fs && f.score < 70 && p == NeedsAttention(f.sectionLabel)
  {
    if fs == [] then []
    else
      var rest := Concerns(fs[1..]);
      assert forall f :: f in fs <==> f == fs[0] || f in fs[1..];
      if fs[0].score < 70 then [NeedsAttention(fs[0].sectionLabel)] + rest else rest
  }

  function CitationConcern(uncited: nat): seq<Concern>
  {
    if uncited > 0 then [UncitedCount(uncited)] else []
  }

  /** `analyzeThesis` of the older library, as a value. */
  function LegacyThesisOf(find: Finder, make: ChecklistGen, gen: FeedbackGen, search: RuleSearch, userRules: seq<Rule>,
                          content: string): LegacyAnalysis
  {
    var lines := Split(content, '\n');
    var m := SectionsOf(find, content);
    var cs := Checklists(make, m);
    var fs := Feedbacks(gen, m, cs);
    var citations := CitationsOf(find, content);
    LegacyAnalysis(
      LegacyOverall(cs), fs, cs,
      AnalyzeRules(search, userRules, content, FirstHeading(lines, Detector(find), |lines|)),
      citations, Praises(fs), Concerns(fs) + CitationConcern(|citations.uncitedAssertions|))
  }

  /** `analyzeThesis` of the older library. */
  method LegacyAnalyzeThesis(find: Finder, make: ChecklistGen, gen: FeedbackGen, search: RuleSearch, userRules: seq<Rule>,
                             content: string) returns (a: LegacyAnalysis)
    ensures a == LegacyThesisOf(find, make, gen, search, userRules, content)
  {
    var sections := ExtractSections(find, content);
    var detected := DetectMainSection(find, content);
    var checklists, feedbacks := SectionReports(make, gen, sections);
    var rules := AnalyzeRules(search, userRules, content, detected);
    var citations := AnalyzeCitations(find, content);
    a := LegacyAnalysis(LegacyOverall(checklists), feedbacks, checklists, rules, citations,
      Praises(feedbacks), Concerns(feedbacks) + CitationConcern(|citations.uncitedAssertions|));
  }

  // ---------------------------------------------------------------------------
  // Properties

  lemma {:induction false} ScoreSumBound(cs: seq<SectionChecklist>)
    requires forall i :: 0 <= i < |cs| ==> cs[i].score <= 100
    ensures ScoreSum(cs) <= |cs| * 100
    decreases |cs|
  {
    if cs != [] {
      ScoreSumBound(cs[..|cs| - 1]);
    }
  }

  /** The mean of checklist scores of at most 100 is at most 100. */
  lemma LegacyOverallBound(cs: seq<SectionChecklist>)
    requires forall i :: 0 <= i < |cs| ==> cs[i].score <= 100
    ensures LegacyOverall(cs) <= 100
  {
    ScoreSumBound(cs);
    RoundedMeanBound(ScoreSum(cs), |cs|, 100);
  }

  /** With this library's checklist maker the overall score is at most 100. */
  lemma OverallAtMost100(find: Finder, make: ChecklistGen, gen: FeedbackGen, search: RuleSearch, userRules: seq<Rule>,
                         content: string)
    requires MakerKeepsSection(make)
    ensures LegacyThesisOf(find, make, gen, search, userRules, content).overallScore <= 100
  {
    var cs := Checklists(make, SectionsOf(find, content));
    LegacyOverallBound(cs);
  }

  /** Every section is either a strong point or an improvement area, and
    * never both: the two lists split the sections between them. */
  lemma {:induction false} SummarySplitsSections(fs: seq<SectionFeedback>)
    ensures |Praises(fs)| + |Concerns(fs)| == |fs|
    ensures forall i :: 0 <= i < |fs| ==>
      (fs[i].score >= 70 ==> Structured(fs[i].sectionLabel) in Praises(fs)) &&
      (fs[i].score < 70 ==> NeedsAttention(fs[i].sectionLabel) in Concerns(fs))
    decreases |fs|
  {
    if fs != [] {
      SummarySplitsSections(fs[1..]);
      forall i | 0 <= i < |fs|
        ensures (fs[i].score >= 70 ==> Structured(fs[i].sectionLabel) in Praises(fs)) &&
          (fs[i].score < 70 ==> NeedsAttention(fs[i].sectionLabel) in Concerns(fs))
      {
        assert fs[i] in fs;
      }
    }
  }

  /** One citation warning is added, last, exactly when some assertion is
    * uncited. */
  lemma OneCitationWarning(fs: seq<SectionFeedback>, uncited: nat)
    ensures var areas := Concerns(fs) + CitationConcern(uncited);
      (uncited > 0 ==> areas[|areas| - 1] == UncitedCount(uncited)) &&
      (forall n :: UncitedCount(n) in areas <==> uncited > 0 && n == uncited) &&
      |areas| == |Concerns(fs)| + (if uncited > 0 then 1 else 0)
  {
    var areas := Concerns(fs) + CitationConcern(uncited);
    assert forall c :: c in Concerns(fs) ==> c.NeedsAttention?;
  }

  /** `analyzeSection` of the older library. */
  function LegacyAnalyzeSection(find: Finder, count: MatchCounter, currentYear: int, content: string, section: SectionType)
    : (r: (SectionChecklist, SectionFeedback))
    ensures r.0.section == r.1.section == section && r.0.score == r.1.score <= 100
    ensures r.1.priority == PriorityOf(r.0.score, |Select(r.0.items, true, false)|)
  {
    var checklist := CreateSectionChecklist(find, section, content);
    (checklist, LegacyGenerateSectionFeedback(count, currentYear, section, content, checklist))
  }
}
