/** `generateSectionFeedback` of `src/lib/thesis-analysis.ts`: strengths,
  * weaknesses and suggestions for one section, from its checklist and from
  * checks on its length, citations and citation years, and a priority.
  * Messages are kept as values that carry what the source writes into them
  * (a label, a word count, a percentage); their wording is not modelled. */
module Feedback {
  import opened Strings
  import opened AnalysisTypes
  import opened AnalysisPatterns
  import opened TextMeasures
  import opened Checklist

  datatype Note =
    // From the checklist (both versions of the library)
    | Identified(caption: string, at: string)    // a required item found, with its line
    | Present(caption: string)                   // a required item found without a line
    | Included(caption: string)                  // an optional item found
    | NotIdentified(caption: string)             // a required item not found
    | ItemAdvice(id: string)                     // the suggestion table's entry for a missing item
    | AddItem(description: string)               // no entry for it: "add" and its description
    // Section checks of the newer library
    | ShortIntroduction(words: nat) | ExpandIntroduction(words: nat) | IntroductionLength(words: nat)
    | NoCitations | AddCitations | FewCitations(count: nat) | MoreReferences(count: nat) | ManyCitations(count: nat)
    | OutdatedReferences(percent: nat) | UpdateReferences(percent: nat, year: int) | RecentReferences(percent: nat)
    | ShortReview(words: nat) | DevelopReview(words: nat)
    | ShortMethodology(words: nat) | DetailMethodology(words: nat) | MethodologyLength(words: nat)
    | NoDialogue | ConnectLiterature | ShortDiscussion(words: nat) | DeepenDiscussion | DiscussionLength(words: nat)
    | BriefConclusion(words: nat) | ExpandConclusion(words: nat) | LongConclusion | ReduceConclusion(words: nat)
    | ConclusionLength(words: nat)
    // Suggestions of the older library, which has no numbers in them but the year
    | ItemTip(id: string) | ExpandIntroductionTip | CiteAuthorsTip | MoreAuthorsTip
    | OldReferences | RecentPublicationsTip(year: int) | BalancedReferences | DeepenReviewTip
    | DetailMethodologyTip | CompareStudiesTip | InterpretTip | SynthesiseTip | ConciseTip

  /** The three lists, before they are cut to five. */
  datatype Notes = Notes(strengths: seq<Note>, weaknesses: seq<Note>, suggestions: seq<Note>)

  const NoNotes := Notes([], [], [])

  function Plus(a: Notes, b: Notes): Notes
  {
    Notes(a.strengths + b.strengths, a.weaknesses + b.weaknesses, a.suggestions + b.suggestions)
  }

  datatype Priority = High | Medium | Low

  datatype SectionFeedback = SectionFeedback(
    section: SectionType, sectionLabel: string, score: nat, maxScore: nat,
    strengths: seq<Note>, weaknesses: seq<Note>, suggestions: seq<Note>, priority: Priority)

  // ---------------------------------------------------------------------------
  // From the checklist

  /** `items.filter(i => i.required == required && status is complete or not)`. */
  function Select(items: seq<ChecklistItem>, required: bool, complete: bool): (r: seq<ChecklistItem>)
    ensures |r| <= |items|
    ensures forall x :: x in r <==> x in items && x.template.required == required && x.complete == complete
  {
    if items == [] then []
    else
      var rest := Select(items[1..], required, complete);
      assert forall x :: x in items <==> x == items[0] || x in items[1..];
      if items[0].template.required == required && items[0].complete == complete then [items[0]] + rest else rest
  }

  function Each(xs: seq<ChecklistItem>, f: ChecklistItem -> Note): (r: seq<Note>)
    ensures |r| == |xs| && forall i :: 0 <= i < |xs| ==> r[i] == f(xs[i])
  {
    seq(|xs|, i requires 0 <= i < |xs| => f(xs[i]))
  }

  /** A completed required item: found, with the line it was found on. */
  function RequiredStrength(item: ChecklistItem): Note
  {
    if item.detectedAt.Some? then Identified(item.template.caption, item.detectedAt.value) else Present(item.template.caption)
  }

  function OptionalStrength(item: ChecklistItem): Note { Included(item.template.caption) }

  function Missing(item: ChecklistItem): Note { NotIdentified(item.template.caption) }

  /** The notes of the checklist: a strength per completed required item,
    * then per completed optional item; a weakness and a suggestion per
    * missing required item, with `advise` giving the suggestion. */
  function ChecklistNotes(items: seq<ChecklistItem>, advise: ChecklistItem -> Note): (n: Notes)
    ensures |n.weaknesses| == |n.suggestions| == |Select(items, true, false)|
    ensures |n.strengths| == |Select(items, true, true)| + |Select(items, false, true)|
  {
    var missing := Select(items, true, false);
    Notes(Each(Select(items, true, true), RequiredStrength) + Each(Select(items, false, true), OptionalStrength),
          Each(missing, Missing), Each(missing, advise))
  }

  /** Every missing required item is reported as a weakness, with its
    * suggestion at the same place, and the checklist weaknesses are
    * nothing else. */
  lemma MissingItemsReported(items: seq<ChecklistItem>, advise: ChecklistItem -> Note)
    ensures var n := ChecklistNotes(items, advise);
      forall x :: x in items && x.template.required && !x.complete ==> NotIdentified(x.template.caption) in n.weaknesses
    ensures var n := ChecklistNotes(items, advise); var missing := Select(items, true, false);
      forall i :: 0 <= i < |n.weaknesses| ==>
        missing[i] in items && missing[i].template.required && !missing[i].complete &&
        n.weaknesses[i] == NotIdentified(missing[i].template.caption) && n.suggestions[i] == advise(missing[i])
  {
    var n := ChecklistNotes(items, advise);
    var missing := Select(items, true, false);
    forall x | x in items && x.template.required && !x.complete
      ensures NotIdentified(x.template.caption) in n.weaknesses
    {
      var i :| 0 <= i < |missing| && missing[i] == x;
      assert n.weaknesses[i] == NotIdentified(x.template.caption);
    }
    forall i | 0 <= i < |n.weaknesses|
      ensures missing[i] in items && missing[i].template.required && !missing[i].complete
    {
      assert missing[i] in missing;
    }
  }

  /** The weaknesses the checklist gives are all missing items. */
  lemma ChecklistWeaknessesKind(items: seq<ChecklistItem>, advise: ChecklistItem -> Note)
    ensures forall w :: w in ChecklistNotes(items, advise).weaknesses ==> w.NotIdentified?
  {
  }

  // ---------------------------------------------------------------------------
  // Priority and the cut to five

  /** The priority: high below 40 or with 4 missing required items, else
    * medium below 60 or with 2 missing, else low. */
  function PriorityOf(score: int, missing: nat): (p: Priority)
    ensures p == High <==> score < 40 || missing >= 4
    ensures p == Medium <==> (40 <= score < 60 && missing < 4) || (score >= 40 && 2 <= missing < 4)
    ensures p == Low <==> score >= 60 && missing < 2
  {
    if score < 40 || missing >= 4 then High
    else if score < 60 || missing >= 2 then Medium
    else Low
  }

  function Urgency(p: Priority): nat
  {
    match p
    case High => 2
    case Medium => 1
    case Low => 0
  }

  /** A better score with no more missing items is never more urgent. */
  lemma PriorityMonotone(s1: int, m1: nat, s2: int, m2: nat)
    requires s1 <= s2 && m2 <= m1
    ensures Urgency(PriorityOf(s2, m2)) <= Urgency(PriorityOf(s1, m1))
  {
  }

  /** `xs.slice(0, 5)`. */
  function FirstFive(xs: seq<Note>): (r: seq<Note>)
    ensures |r| == Min(5, |xs|) && r == xs[..|r|]
  {
    if |xs| <= 5 then xs else xs[..5]
  }

  /** The feedback record: the lists cut to five, the checklist's score and
    * the priority from it and the number of missing required items. */
  function Assemble(section: SectionType, checklist: SectionChecklist, notes: Notes): (f: SectionFeedback)
    ensures f.section == section && f.sectionLabel == SectionLabel(section)
    ensures f.score == checklist.score && f.maxScore == 100
    ensures |f.strengths| == Min(5, |notes.strengths|) && f.strengths == notes.strengths[..|f.strengths|]
    ensures |f.weaknesses| == Min(5, |notes.weaknesses|) && f.weaknesses == notes.weaknesses[..|f.weaknesses|]
    ensures |f.suggestions| == Min(5, |notes.suggestions|) && f.suggestions == notes.suggestions[..|f.suggestions|]
    ensures f.priority == PriorityOf(checklist.score, |Select(checklist.items, true, false)|)
  {
    SectionFeedback(section, SectionLabel(section), checklist.score, 100,
      FirstFive(notes.strengths), FirstFive(notes.weaknesses), FirstFive(notes.suggestions),
      PriorityOf(checklist.score, |Select(checklist.items, true, false)|))
  }

  // ---------------------------------------------------------------------------
  // The section checks of the newer library

  /** Whether the newer suggestion table has an entry for an item. */
  predicate HasAdvice(id: string)
  {
    id in {"intro-context", "intro-relevance", "intro-problem", "intro-question", "intro-objective-general",
           "intro-objectives-specific", "intro-hypothesis", "intro-structure", "intro-scope",
           "lit-organization", "lit-synthesis", "lit-comparison", "lit-gap", "lit-critical", "lit-connection",
           "lit-recent",
           "method-type", "method-approach", "method-population", "method-sample", "method-instruments",
           "method-procedures", "method-analysis", "method-ethics", "method-justification",
           "results-objective", "results-organization", "results-visuals", "results-description",
           "disc-interpretation", "disc-literature", "disc-unexpected", "disc-theoretical", "disc-practical",
           "disc-limitations", "disc-future", "disc-answer",
           "conc-answer", "conc-synthesis", "conc-contributions", "conc-recommendations"}
  }

  /** The suggestion for a missing item: the table's entry, or "add" with
    * the item's description. */
  function Advice(item: ChecklistItem): Note
  {
    if HasAdvice(item.template.id) then ItemAdvice(item.template.id) else AddItem(item.template.description)
  }

  /** `countCitations`: the matches of its three global patterns, added up. */
  function CountCitations(count: MatchCounter, content: string): nat
  {
    count(CountedCitation(0), content) + count(CountedCitation(1), content) + count(CountedCitation(2), content)
  }

  /** `years.filter(y => currentYear - y <= 5)`. */
  function Recent(years: seq<int>, currentYear: int): (r: seq<int>)
    ensures |r| <= |years|
    ensures forall y :: y in r <==> y in years && currentYear - y <= 5
  {
    if years == [] then []
    else
      var rest := Recent(years[1..], currentYear);
      assert forall y :: y in years <==> y == years[0] || y in years[1..];
      if currentYear - years[0] <= 5 then [years[0]] + rest else rest
  }

  function IntroductionNotes(words: nat): Notes
  {
    if words < 300 then Notes([], [ShortIntroduction(words)], [ExpandIntroduction(words)])
    else if words >= 500 then Notes([IntroductionLength(words)], [], [])
    else NoNotes
  }

  function CitationNotes(citations: nat): Notes
  {
    if citations == 0 then Notes([], [NoCitations], [AddCitations])
    else if citations < 5 then Notes([], [FewCitations(citations)], [MoreReferences(citations)])
    else if citations >= 10 then Notes([ManyCitations(citations)], [], [])
    else NoNotes
  }

  /** The citation years: fewer than 30% recent (of some years) is a
    * weakness; otherwise at least half recent is a strength. The
    * comparisons `recent < n * 0.3` and `recent >= n * 0.5` are made
    * exactly, on integers. */
  function RecencyNotes(years: seq<int>, currentYear: int): Notes
  {
    var recent := |Recent(years, currentYear)|;
    var percent := Percent(recent, |years|);
    if |years| > 0 && 10 * recent < 3 * |years| then
      Notes([], [OutdatedReferences(percent)], [UpdateReferences(percent, currentYear)])
    else if 2 * recent >= |years| then Notes([RecentReferences(percent)], [], [])
    else NoNotes
  }

  function ReviewLengthNotes(words: nat): Notes
  {
    if words < 500 then Notes([], [ShortReview(words)], [DevelopReview(words)]) else NoNotes
  }

  function MethodologyNotes(words: nat): Notes
  {
    if words < 300 then Notes([], [ShortMethodology(words)], [DetailMethodology(words)])
    else if words >= 500 then Notes([MethodologyLength(words)], [], [])
    else NoNotes
  }

  function DiscussionNotes(citations: nat, words: nat): Notes
  {
    var dialogue := if citations == 0 then Notes([], [NoDialogue], [ConnectLiterature]) else NoNotes;
    var length :=
      if words < 300 then Notes([], [ShortDiscussion(words)], [DeepenDiscussion])
      else if words >= 500 then Notes([DiscussionLength(words)], [], [])
      else NoNotes;
    Plus(dialogue, length)
  }

  function ConclusionNotes(words: nat): Notes
  {
    if words < 150 then Notes([], [BriefConclusion(words)], [ExpandConclusion(words)])
    else if words > 800 then Notes([], [LongConclusion], [ReduceConclusion(words)])
    else Notes([ConclusionLength(words)], [], [])
  }

  /** The checks of one section, from its word count, its citation count
    * and its citation years. */
  function SectionNotes(section: SectionType, words: nat, citations: nat, years: seq<int>, currentYear: int): Notes
  {
    match section
    case Introduction => IntroductionNotes(words)
    case LiteratureReview => Plus(Plus(CitationNotes(citations), RecencyNotes(years, currentYear)), ReviewLengthNotes(words))
    case Methodology => MethodologyNotes(words)
    case Discussion => DiscussionNotes(citations, words)
    case Conclusion => ConclusionNotes(words)
    case _ => NoNotes
  }

  /** `generateSectionFeedback` of the newer library. The date is the
    * parameter `currentYear`; the citation patterns are `count`. */
  function GenerateSectionFeedback(count: MatchCounter, currentYear: int, section: SectionType, content: string,
                                   checklist: SectionChecklist): (f: SectionFeedback)
    ensures |f.strengths| <= 5 && |f.weaknesses| <= 5 && |f.suggestions| <= 5
    ensures var missing := Select(checklist.items, true, false);
      |f.weaknesses| >= Min(5, |missing|) && |f.suggestions| >= Min(5, |missing|) &&
      forall i :: 0 <= i < Min(5, |missing|) ==>
        f.weaknesses[i] == NotIdentified(missing[i].template.caption) && f.suggestions[i] == Advice(missing[i])
    ensures f.section == section && f.score == checklist.score
    ensures f.priority == PriorityOf(checklist.score, |Select(checklist.items, true, false)|)
  {
    var c := ChecklistNotes(checklist.items, Advice);
    var n := Plus(c, SectionNotes(section, CountWords(content), CountCitations(count, content),
      ExtractCitationYears(content), currentYear));
    assert n.weaknesses[..|c.weaknesses|] == c.weaknesses && n.suggestions[..|c.suggestions|] == c.suggestions;
    Assemble(section, checklist, n)
  }

  // ---------------------------------------------------------------------------
  // Properties of the section checks

  /** An introduction under 300 words is short, one of 500 or more has a
    * good length, and one in between gets neither. */
  lemma IntroductionLengthChecks(words: nat)
    ensures ShortIntroduction(words) in SectionNotes(Introduction, words, 0, [], 0).weaknesses <==> words < 300
    ensures IntroductionLength(words) in SectionNotes(Introduction, words, 0, [], 0).strengths <==> words >= 500
  {
  }

  /** The review's citation count gives exactly one of: none, few (1 to
    * 4), many (10 or more), or no note at all (5 to 9). */
  lemma CitationCountChecks(citations: nat)
    ensures var n := CitationNotes(citations);
      (n.weaknesses == [NoCitations] <==> citations == 0) &&
      (n.weaknesses == [FewCitations(citations)] <==> 1 <= citations < 5) &&
      (n.strengths == [ManyCitations(citations)] <==> citations >= 10) &&
      (n == NoNotes <==> 5 <= citations < 10)
  {
  }

  /** The years are never both outdated and up to date; outdated means
    * under 30% recent, up to date at least 50%. */
  lemma RecencyExclusive(years: seq<int>, currentYear: int)
    ensures var n := RecencyNotes(years, currentYear); var recent := |Recent(years, currentYear)|;
      !(n.weaknesses != [] && n.strengths != []) &&
      (n.weaknesses != [] <==> |years| > 0 && 10 * recent < 3 * |years|) &&
      (n.strengths != [] <==> 2 * recent >= |years|)
  {
  }

  /** With no year found at all the years still count as up to date, at
    * 0%: the test `recent >= n * 0.5` holds for `n = 0`. */
  lemma NoYearsUpToDate(currentYear: int)
    ensures RecencyNotes([], currentYear) == Notes([RecentReferences(0)], [], [])
  {
  }

  /** All the years recent means up to date at 100%; none recent among
    * some years means outdated at 0%. */
  lemma RecencyExtremes(years: seq<int>, currentYear: int)
    ensures (forall i :: 0 <= i < |years| ==> currentYear - years[i] <= 5) && years != [] ==>
      RecencyNotes(years, currentYear).strengths == [RecentReferences(100)]
    ensures (forall i :: 0 <= i < |years| ==> currentYear - years[i] > 5) && years != [] ==>
      RecencyNotes(years, currentYear).weaknesses == [OutdatedReferences(0)]
  {
    var r := Recent(years, currentYear);
    if forall i :: 0 <= i < |years| ==> currentYear - years[i] <= 5 {
      RecentAll(years, currentYear);
      PercentBounds(|years|, |years|);
    }
    if forall i :: 0 <= i < |years| ==> currentYear - years[i] > 5 {
      RecentNone(years, currentYear);
      PercentBounds(0, |years|);
    }
  }

  lemma {:induction false} RecentNone(years: seq<int>, currentYear: int)
    requires forall i :: 0 <= i < |years| ==> currentYear - years[i] > 5
    ensures Recent(years, currentYear) == []
    decreases |years|
  {
    if years != [] {
      RecentNone(years[1..], currentYear);
    }
  }

  lemma {:induction false} RecentAll(years: seq<int>, currentYear: int)
    requires forall i :: 0 <= i < |years| ==> currentYear - years[i] <= 5
    ensures Recent(years, currentYear) == years
    decreases |years|
  {
    if years != [] {
      RecentAll(years[1..], currentYear);
    }
  }

  /** A conclusion is brief under 150 words, long over 800, and of a good
    * length otherwise: exactly one of the three. */
  lemma ConclusionExactlyOne(words: nat)
    ensures var n := SectionNotes(Conclusion, words, 0, [], 0);
      (n.weaknesses == [BriefConclusion(words)] <==> words < 150) &&
      (n.weaknesses == [LongConclusion] <==> words > 800) &&
      (n.strengths == [ConclusionLength(words)] <==> 150 <= words <= 800) &&
      |n.weaknesses| + |n.strengths| == 1
  {
  }

  /** A discussion without citations always lacks dialogue with the
    * literature, whatever its length, and that weakness comes first. */
  lemma DiscussionWithoutCitations(words: nat)
    ensures SectionNotes(Discussion, words, 0, [], 0).weaknesses[0] == NoDialogue
  {
  }

  /** Title, abstract, results and references have no checks of their own. */
  lemma NoSectionChecks(section: SectionType, words: nat, citations: nat, years: seq<int>, currentYear: int)
    requires section in {Title, Abstract, Results, References}
    ensures SectionNotes(section, words, citations, years, currentYear) == NoNotes
  {
  }
}
