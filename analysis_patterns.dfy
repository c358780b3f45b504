/** The fixed regular expressions of `src/lib/thesis-analysis.ts` (and of
  * `lib/thesis-analysis.ts`, whose tables are the same), named by the table
  * they belong to and their place in it. What a pattern matches is left to
  * the regular-expression engine, a parameter of every operation: a
  * `Finder` gives the first match of a pattern in a text, or nothing. */
module AnalysisPatterns {
  import opened Strings
  import opened AnalysisTypes

  datatype Pattern =
    | SectionPattern(section: SectionType, index: nat)  // SECTION_PATTERNS[section][index]
    | DetectionPattern(item: string, index: nat)        // DETECTION_PATTERNS[item][index]
    | AssertionPattern(index: nat)                      // ASSERTION_PATTERNS[index].pattern
    | CitationPattern(index: nat)                       // CITATION_PATTERNS[index]
    | CountedCitation(index: nat)                       // the patterns of countCitations

  /** A match: where it starts and how long it is. */
  datatype Span = Span(index: nat, length: nat)

  /** The engine: `text.match(pattern)` without the `g` flag, which is also
    * what `pattern.test(text)` decides (a match exists). */
  type Finder = (Pattern, string) -> Option<Span>

  /** The engine with the `g` flag: the number of matches `text.match`
    * returns. */
  type MatchCounter = (Pattern, string) -> nat

  /** Sections in the order `Object.entries(SECTION_PATTERNS)` visits them:
    * the generic title last. */
  const SectionOrder: seq<SectionType> :=
    [Abstract, Introduction, LiteratureReview, Methodology, Results, Discussion, Conclusion, References, Title]

  /** The place of a section in `SectionOrder`. */
  function Rank(s: SectionType): (i: nat)
    ensures i < |SectionOrder| && SectionOrder[i] == s
  {
    match s
    case Abstract => 0
    case Introduction => 1
    case LiteratureReview => 2
    case Methodology => 3
    case Results => 4
    case Discussion => 5
    case Conclusion => 6
    case References => 7
    case Title => 8
  }

  /** How many patterns `SECTION_PATTERNS` lists for a section. */
  function SectionPatternCount(s: SectionType): nat
  {
    match s
    case Abstract => 2
    case Introduction => 4
    case LiteratureReview => 6
    case Methodology => 4
    case Results => 3
    case Discussion => 4
    case Conclusion => 5
    case References => 2
    case Title => 2
  }

  /** How many patterns `DETECTION_PATTERNS` lists for a checklist item, or
    * nothing when the item has no entry. The table is looked up by the
    * first letter of the id, then by the id. */
  function DetectionPatternCount(id: string): Option<nat>
  {
    if id == [] then None
    else match id[0]
      case 'i' => IntroductionCount(id)
      case 'l' => LiteratureCount(id)
      case 'm' => MethodologyCount(id)
      case 'r' => ResultsCount(id)
      case 'd' => DiscussionCount(id)
      case 'c' => ConclusionCount(id)
      case _ => None
  }

  function IntroductionCount(id: string): Option<nat>
  {
    if id == "intro-context" then Some(2)
    else if id == "intro-relevance" then Some(2)
    else if id == "intro-problem" then Some(3)
    else if id == "intro-question" then Some(4)
    else if id == "intro-objective-general" then Some(4)
    else if id == "intro-objectives-specific" then Some(5)
    else if id == "intro-hypothesis" then Some(2)
    else if id == "intro-structure" then Some(4)
    else if id == "intro-scope" then Some(2)
    else None
  }

  function LiteratureCount(id: string): Option<nat>
  {
    if id == "lit-organization" then Some(2)
    else if id == "lit-coverage" then Some(1)
    else if id == "lit-recent" then Some(2)
    else if id == "lit-synthesis" then Some(3)
    else if id == "lit-comparison" then Some(3)
    else if id == "lit-gap" then Some(3)
    else if id == "lit-critical" then Some(3)
    else if id == "lit-connection" then Some(2)
    else None
  }

  function MethodologyCount(id: string): Option<nat>
  {
    if id == "method-type" then Some(2)
    else if id == "method-approach" then Some(2)
    else if id == "method-population" then Some(1)
    else if id == "method-sample" then Some(3)
    else if id == "method-instruments" then Some(2)
    else if id == "method-procedures" then Some(2)
    else if id == "method-analysis" then Some(3)
    else if id == "method-justification" then Some(2)
    else if id == "method-ethics" then Some(3)
    else if id == "method-alignment" then Some(2)
    else None
  }

  function ResultsCount(id: string): Option<nat>
  {
    if id == "results-objective" then Some(2)
    else if id == "results-organization" then Some(3)
    else if id == "results-visuals" then Some(2)
    else if id == "results-description" then Some(2)
    else if id == "results-complete" then Some(2)
    else None
  }

  function DiscussionCount(id: string): Option<nat>
  {
    if id == "disc-interpretation" then Some(3)
    else if id == "disc-literature" then Some(4)
    else if id == "disc-unexpected" then Some(2)
    else if id == "disc-theoretical" then Some(2)
    else if id == "disc-practical" then Some(2)
    else if id == "disc-limitations" then Some(3)
    else if id == "disc-future" then Some(3)
    else if id == "disc-answer" then Some(3)
    else None
  }

  function ConclusionCount(id: string): Option<nat>
  {
    if id == "conc-answer" then Some(3)
    else if id == "conc-synthesis" then Some(2)
    else if id == "conc-contributions" then Some(3)
    else if id == "conc-recommendations" then Some(2)
    else if id == "conc-no-new-info" then Some(0)
    else None
  }

  /** An id of the title, abstract or reference checklists. */
  predicate Untracked(id: string)
  {
    StartsWith(id, "title-") || StartsWith(id, "abstract-") || StartsWith(id, "ref-")
  }

  /** The title, abstract and reference items have no detection patterns. */
  lemma UntrackedHasNoPatterns(id: string)
    requires Untracked(id)
    ensures DetectionPatternCount(id).None?
  {
    assert id[0] == 't' || id[0] == 'a' || (id[0] == 'r' && id[2] == 'f') by {
      if StartsWith(id, "title-") {
        assert id[0] == id[..6][0];
      } else if StartsWith(id, "abstract-") {
        assert id[0] == id[..9][0];
      } else {
        assert id[0] == id[..4][0] && id[2] == id[..4][2];
      }
    }
  }

  /** The one detection pattern written with the `g` flag: `match` then
    * returns the list of matched texts, which has no `index`. */
  predicate IsGlobal(p: Pattern)
  {
    p == DetectionPattern("lit-coverage", 0)
  }

  /** The number of `ASSERTION_PATTERNS`. */
  const AssertionCount: nat := 18

  /** `ASSERTION_PATTERNS[k].type`. */
  function AssertionType(k: nat): string
    requires k < AssertionCount
  {
    [ "Alegação de pesquisa", "Alegação de pesquisa", "Alegação de literatura", "Alegação de evidência",
      "Fato alegado", "Conhecimento alegado", "Consenso alegado",
      "Estatística", "Quantificação", "Quantificação de fontes",
      "Alegação de especialistas", "Alegação de especialistas",
      "Relação causal", "Alegação de importância",
      "Eficácia alegada", "Alegação de resultados", "Alegação de dados",
      "Teoria sem citação"][k]
  }

  /** The number of `CITATION_PATTERNS`. */
  const CitationCount: nat := 8
}
