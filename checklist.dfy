/** `analyzeChecklistItem` and `createSectionChecklist` of
  * `src/lib/thesis-analysis.ts` (the same code is in `lib/thesis-analysis.ts`):
  * every item of a section's default checklist is marked complete when one
  * of its detection patterns matches, and the section scores the completed
  * share of the weights. */
module Checklist {
  import opened Strings
  import opened AnalysisTypes
  import opened AnalysisPatterns
  import opened TextMeasures

  /** What `analyzeChecklistItem` returns. */
  datatype Detection = Detection(detected: bool, location: Option<string>)

  /** A checklist item once analysed: its template, `status` (complete or
    * not), `autoDetected` and `detectedAt`. */
  datatype ChecklistItem = ChecklistItem(template: ItemTemplate, complete: bool, autoDetected: bool, detectedAt: Option<string>)

  datatype SectionChecklist = SectionChecklist(
    section: SectionType, sectionLabel: string, items: seq<ChecklistItem>, score: nat, maxScore: nat)

  /** `Linha ${n}`. */
  function Location(line: nat): string
  {
    "Linha " + NatToString(line)
  }

  /** Pattern `j` of item `id` matches. */
  predicate PatternHits(find: Finder, id: string, content: string, j: nat)
  {
    find(DetectionPattern(id, j), content).Some?
  }

  /** Some pattern of the item matches; an item with no patterns never does. */
  predicate Detected(find: Finder, id: string, content: string)
  {
    DetectionPatternCount(id).Some? &&
    exists j :: 0 <= j < DetectionPatternCount(id).value && PatternHits(find, id, content, j)
  }

  /** The first pattern from the `k`-th on, below `count`, that matches. */
  function FirstHit(find: Finder, id: string, content: string, k: nat, count: nat): (r: Option<nat>)
    ensures r.Some? ==> k <= r.value < count && PatternHits(find, id, content, r.value)
    ensures r.Some? ==> forall j :: k <= j < r.value ==> !PatternHits(find, id, content, j)
    ensures r.None? ==> forall j :: k <= j < count ==> !PatternHits(find, id, content, j)
    decreases count - k
  {
    if k >= count then None
    else if PatternHits(find, id, content, k) then Some(k)
    else FirstHit(find, id, content, k + 1, count)
  }

  /** Where a match starts, as `content.substring(0, match.index)` sees it:
    * the result of a global `match` has no `index`, and `substring` with an
    * undefined end takes the whole text. */
  function MatchStart(p: Pattern, span: Span, content: string): nat
  {
    if IsGlobal(p) then |content| else span.index
  }

  /** `analyzeChecklistItem`. */
  function AnalyzeChecklistItem(find: Finder, id: string, content: string): (r: Detection)
    ensures r.detected <==> Detected(find, id, content)
    ensures r.detected <==> r.location.Some?
    ensures r.detected ==> exists j :: (0 <= j < DetectionPatternCount(id).value && PatternHits(find, id, content, j) &&
      (forall i :: 0 <= i < j ==> !PatternHits(find, id, content, i)) &&
      r.location == Some(Location(LineNumber(content,
        MatchStart(DetectionPattern(id, j), find(DetectionPattern(id, j), content).value, content)))))
  {
    match DetectionPatternCount(id)
    case None => Detection(false, None)
    case Some(count) =>
      match FirstHit(find, id, content, 0, count)
      case None => Detection(false, None)
      case Some(j) =>
        var p := DetectionPattern(id, j);
        Detection(true, Some(Location(LineNumber(content, MatchStart(p, find(p, content).value, content)))))
  }

  /** The line a match is reported on is a line of the text. */
  lemma LineNumberBound(content: string, index: nat)
    ensures 1 <= LineNumber(content, index) <= |Split(content, '\n')|
  {
    SplitJoin(content, '\n');
    CountPrefix(content, Min(index, |content|), '\n');
  }

  lemma {:induction false} CountPrefix(s: string, k: nat, c: char)
    requires k <= |s|
    ensures Count(s[..k], c) <= Count(s, c)
    decreases k
  {
    if k > 0 {
      CountPrefix(s[1..], k - 1, c);
      assert s[..k][1..] == s[1..][..k - 1];
    }
  }

  /** One item of the checklist, analysed. */
  function CheckItem(find: Finder, content: string, t: ItemTemplate): (item: ChecklistItem)
    ensures item.template == t
    ensures item.complete <==> Detected(find, t.id, content)
    ensures item.autoDetected == item.complete && (item.complete <==> item.detectedAt.Some?)
  {
    var a := AnalyzeChecklistItem(find, t.id, content);
    ChecklistItem(t, a.detected, a.detected, a.location)
  }

  /** The weight of all the items. */
  function ItemsWeight(items: seq<ChecklistItem>): nat
  {
    if items == [] then 0 else ItemsWeight(items[..|items| - 1]) + items[|items| - 1].template.weight
  }

  /** The weight of the completed items. */
  function CompletedWeight(items: seq<ChecklistItem>): (w: nat)
    ensures w <= ItemsWeight(items)
  {
    if items == [] then 0
    else CompletedWeight(items[..|items| - 1]) + (if items[|items| - 1].complete then items[|items| - 1].template.weight else 0)
  }

  /** `createSectionChecklist`. */
  function CreateSectionChecklist(find: Finder, section: SectionType, content: string): (c: SectionChecklist)
    ensures c.section == section && c.sectionLabel == SectionLabel(section) && c.maxScore == 100
    ensures |c.items| == |DefaultChecklist(section)|
    ensures forall i :: 0 <= i < |c.items| ==> c.items[i] == CheckItem(find, content, DefaultChecklist(section)[i])
    ensures c.score == Percent(CompletedWeight(c.items), ItemsWeight(c.items))
    ensures c.score <= 100
  {
    var items := CheckItems(find, content, DefaultChecklist(section));
    PercentBounds(CompletedWeight(items), ItemsWeight(items));
    SectionChecklist(section, SectionLabel(section), items, Percent(CompletedWeight(items), ItemsWeight(items)), 100)
  }

  /** `defaultItems.map(...)`: every template analysed, in order. */
  function CheckItems(find: Finder, content: string, ts: seq<ItemTemplate>): (items: seq<ChecklistItem>)
    ensures |items| == |ts| && forall i :: 0 <= i < |ts| ==> items[i] == CheckItem(find, content, ts[i])
  {
    seq(|ts|, i requires 0 <= i < |ts| => CheckItem(find, content, ts[i]))
  }

  // ---------------------------------------------------------------------------
  // Properties

  /** The items keep their templates' total weight. */
  lemma {:induction false} ItemsKeepWeight(items: seq<ChecklistItem>, ts: seq<ItemTemplate>)
    requires |items| == |ts| && forall i :: 0 <= i < |ts| ==> items[i].template == ts[i]
    ensures ItemsWeight(items) == TotalWeight(ts)
    decreases |ts|
  {
    if ts != [] {
      ItemsKeepWeight(items[..|items| - 1], ts[..|ts| - 1]);
    }
  }

  /** With every item complete the completed weight is the whole weight. */
  lemma {:induction false} AllCompleteWeight(items: seq<ChecklistItem>)
    requires forall i :: 0 <= i < |items| ==> items[i].complete
    ensures CompletedWeight(items) == ItemsWeight(items)
    decreases |items|
  {
    if items != [] {
      AllCompleteWeight(items[..|items| - 1]);
    }
  }

  /** With no item complete nothing is completed. */
  lemma {:induction false} NoneCompleteWeight(items: seq<ChecklistItem>)
    requires forall i :: 0 <= i < |items| ==> !items[i].complete
    ensures CompletedWeight(items) == 0
    decreases |items|
  {
    if items != [] {
      NoneCompleteWeight(items[..|items| - 1]);
    }
  }

  /** Templates of positive total weight all found score 100. */
  lemma FullItems(find: Finder, content: string, ts: seq<ItemTemplate>)
    requires TotalWeight(ts) > 0
    requires forall i :: 0 <= i < |ts| ==> Detected(find, ts[i].id, content)
    ensures var items := CheckItems(find, content, ts); Percent(CompletedWeight(items), ItemsWeight(items)) == 100
  {
    var items := CheckItems(find, content, ts);
    AllCompleteWeight(items);
    ItemsKeepWeight(items, ts);
    PercentBounds(ItemsWeight(items), ItemsWeight(items));
  }

  /** A section whose every item is found scores 100. */
  lemma FullScore(find: Finder, section: SectionType, content: string)
    requires forall i :: 0 <= i < |DefaultChecklist(section)| ==> Detected(find, DefaultChecklist(section)[i].id, content)
    ensures CreateSectionChecklist(find, section, content).score == 100
  {
    ChecklistWeights(section);
    FullItems(find, content, DefaultChecklist(section));
  }

  /** A section none of whose items is found scores 0. */
  lemma ZeroScore(find: Finder, section: SectionType, content: string)
    requires forall i :: 0 <= i < |DefaultChecklist(section)| ==> !Detected(find, DefaultChecklist(section)[i].id, content)
    ensures CreateSectionChecklist(find, section, content).score == 0
  {
    ZeroItems(find, content, DefaultChecklist(section));
  }

  /** Templates none of which is found score 0. */
  lemma ZeroItems(find: Finder, content: string, ts: seq<ItemTemplate>)
    requires forall i :: 0 <= i < |ts| ==> !Detected(find, ts[i].id, content)
    ensures var items := CheckItems(find, content, ts); Percent(CompletedWeight(items), ItemsWeight(items)) == 0
  {
    NoneCompleteWeight(CheckItems(find, content, ts));
  }

  /** "conc-no-new-info" has an empty list of patterns: it is never found. */
  lemma NoNewInfoNeverFound(find: Finder, content: string)
    ensures !Detected(find, "conc-no-new-info", content)
  {
  }

  /** No item of the title, abstract or reference checklists has detection
    * patterns, so those sections always score 0. */
  lemma UndetectedSections(find: Finder, section: SectionType, content: string)
    requires section == Title || section == Abstract || section == References
    ensures CreateSectionChecklist(find, section, content).score == 0
  {
    var ts := DefaultChecklist(section);
    UntrackedItems(section);
    forall i | 0 <= i < |ts| ensures !Detected(find, ts[i].id, content) {
      UntrackedHasNoPatterns(ts[i].id);
    }
    ZeroScore(find, section, content);
  }

  /** The ids of the title, abstract and reference items. */
  lemma UntrackedItems(section: SectionType)
    requires section == Title || section == Abstract || section == References
    ensures forall i :: 0 <= i < |DefaultChecklist(section)| ==> Untracked(DefaultChecklist(section)[i].id)
  {
    if section == Title {
      TitleUntracked();
    } else if section == Abstract {
      AbstractUntracked();
    } else {
      ReferencesUntracked();
    }
  }

  lemma TitleUntracked()
    ensures forall i :: 0 <= i < |TitleItems| ==> Untracked(TitleItems[i].id)
  {
  }

  lemma AbstractUntracked()
    ensures forall i :: 0 <= i < |AbstractItems| ==> Untracked(AbstractItems[i].id)
  {
  }

  lemma ReferencesUntracked()
    ensures forall i :: 0 <= i < |ReferencesItems| ==> Untracked(ReferencesItems[i].id)
  {
  }
}
