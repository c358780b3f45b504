/** `checkRule` and `analyzeRules` of `src/lib/thesis-analysis.ts` (the same
  * code is in `lib/thesis-analysis.ts`): every enabled rule that applies to
  * the detected section is looked for in the text. A rule's pattern is a
  * regular expression written by the user, so the engine is a parameter:
  * building the expression can fail, and a valid one matches somewhere or
  * nowhere. The stored user rules are a parameter too. */
module Rules {
  import opened Strings
  import opened AnalysisTypes
  import opened TextMeasures
  import opened Checklist

  /** What `new RegExp(pattern, "im")` and `content.match` give. */
  datatype RegexOutcome = Invalid | NoMatch | MatchAt(index: nat)

  type RuleSearch = (string, string) -> RegexOutcome

  datatype RuleResult = RuleResult(rule: Rule, passed: bool, matchedAt: Option<string>)

  datatype RulesAnalysis = RulesAnalysis(results: seq<RuleResult>, passedCount: nat, totalCount: nat)

  /** `getAllRules`: the system rules, then the user's. */
  function AllRules(userRules: seq<Rule>): (r: seq<Rule>)
    ensures |r| == |SystemRules| + |userRules|
    ensures r[..|SystemRules|] == SystemRules && r[|SystemRules|..] == userRules
  {
    SystemRules + userRules
  }

  /** The rules `saveUserRules` stores: all but the system rules. */
  function RulesToSave(rules: seq<Rule>): (r: seq<Rule>)
    ensures |r| <= |rules|
    ensures forall x :: x in r <==> x in rules && !x.isSystemRule
  {
    if rules == [] then []
    else
      var rest := RulesToSave(rules[1..]);
      assert forall x :: x in rules <==> x == rules[0] || x in rules[1..];
      if rules[0].isSystemRule then rest else [rules[0]] + rest
  }

  /** A rule is evaluated when it is enabled and is general or for the
    * detected section (no section detected: only general rules). */
  predicate Applies(rule: Rule, detected: Option<SectionType>)
  {
    rule.isEnabled && (rule.section.None? || rule.section == detected)
  }

  /** `checkRule`: a rule that does not apply, or whose pattern is not a
    * valid expression, passes without a location; otherwise it passes
    * exactly when the pattern matches, and then it says on which line. */
  function CheckRule(search: RuleSearch, rule: Rule, content: string, detected: Option<SectionType>): (r: RuleResult)
    ensures r.rule == rule
    ensures !Applies(rule, detected) ==> r.passed && r.matchedAt.None?
    ensures Applies(rule, detected) ==> (r.passed <==> search(rule.pattern, content) != NoMatch)
    ensures r.matchedAt.Some? <==> Applies(rule, detected) && search(rule.pattern, content).MatchAt?
    ensures Applies(rule, detected) && search(rule.pattern, content).MatchAt? ==>
      r.matchedAt == Some(Location(LineNumber(content, search(rule.pattern, content).index)))
  {
    if !rule.isEnabled then RuleResult(rule, true, None)
    else if rule.section.Some? && rule.section != detected then RuleResult(rule, true, None)
    else
      match search(rule.pattern, content)
      case MatchAt(k) => RuleResult(rule, true, Some(Location(LineNumber(content, k))))
      case NoMatch => RuleResult(rule, false, None)
      case Invalid => RuleResult(rule, true, None)
  }

  /** `allRules.filter(...)`: the rules that apply, in order. */
  function Applicable(rules: seq<Rule>, detected: Option<SectionType>): (r: seq<Rule>)
    ensures |r| <= |rules|
    ensures forall x :: x in r <==> x in rules && Applies(x, detected)
    ensures forall i :: 0 <= i < |r| ==> Applies(r[i], detected)
  {
    if rules == [] then []
    else
      var rest := Applicable(rules[1..], detected);
      assert forall x :: x in rules <==> x == rules[0] || x in rules[1..];
      if Applies(rules[0], detected) then [rules[0]] + rest else rest
  }

  /** Filtering works element by element: on a concatenation it gives the
    * results on the parts, one after the other. */
  lemma {:induction false} ApplicableAppend(a: seq<Rule>, b: seq<Rule>, detected: Option<SectionType>)
    ensures Applicable(a + b, detected) == Applicable(a, detected) + Applicable(b, detected)
    decreases |a|
  {
    if a == [] {
      assert a + b == b;
    } else {
      assert (a + b)[0] == a[0];
      assert (a + b)[1..] == a[1..] + b;
      ApplicableAppend(a[1..], b, detected);
    }
  }

  /** The result keeps each element, in its place, exactly when it passes the
    * test: an element between two runs of the list is kept between their
    * results, or dropped. */
  lemma ApplicableInPlace(a: seq<Rule>, x: Rule, b: seq<Rule>, detected: Option<SectionType>)
    ensures Applicable(a + [x] + b, detected) == Applicable(a, detected) + (if Applies(x, detected) then [x] else []) + Applicable(b, detected)
  {
    ApplicableAppend(a + [x], b, detected);
    ApplicableAppend(a, [x], detected);
    ApplicableOne(x, detected);
  }

  lemma ApplicableOne(x: Rule, detected: Option<SectionType>)
    ensures Applicable([x], detected) == if Applies(x, detected) then [x] else []
  {
    assert [x][1..] == [];
  }

  /** `results.filter(r => r.passed).length`. */
  function PassedCount(results: seq<RuleResult>): (n: nat)
    ensures n <= |results|
  {
    if results == [] then 0 else (if results[0].passed then 1 else 0) + PassedCount(results[1..])
  }

  /** `analyzeRules`: every applicable rule checked, in order, and the
    * number that pass out of the number checked. */
  function AnalyzeRules(search: RuleSearch, userRules: seq<Rule>, content: string, detected: Option<SectionType>): (a: RulesAnalysis)
    ensures var rules := Applicable(AllRules(userRules), detected);
      |a.results| == |rules| && forall i :: 0 <= i < |rules| ==> a.results[i] == CheckRule(search, rules[i], content, detected)
    ensures a.totalCount == |a.results| && a.passedCount <= a.totalCount
    ensures forall i :: 0 <= i < |a.results| ==> Applies(a.results[i].rule, detected)
  {
    var rules := Applicable(AllRules(userRules), detected);
    var results := seq(|rules|, i requires 0 <= i < |rules| => CheckRule(search, rules[i], content, detected));
    RulesAnalysis(results, PassedCount(results), |results|)
  }

  // ---------------------------------------------------------------------------
  // Properties

  /** Among evaluated rules, a result fails exactly when its valid pattern
    * finds nothing. */
  lemma FailedMeansNoMatch(search: RuleSearch, userRules: seq<Rule>, content: string, detected: Option<SectionType>, i: nat)
    requires i < |AnalyzeRules(search, userRules, content, detected).results|
    ensures var r := AnalyzeRules(search, userRules, content, detected).results[i];
      !r.passed <==> search(r.rule.pattern, content) == NoMatch
  {
  }

  /** Everything passes exactly when no evaluated pattern comes up empty. */
  lemma {:induction false} AllPassed(search: RuleSearch, content: string, results: seq<RuleResult>)
    requires forall i :: 0 <= i < |results| ==> (results[i].passed <==> search(results[i].rule.pattern, content) != NoMatch)
    ensures PassedCount(results) == |results| <==>
      forall i :: 0 <= i < |results| ==> search(results[i].rule.pattern, content) != NoMatch
    decreases |results|
  {
    if results != [] {
      AllPassed(search, content, results[1..]);
      assert forall i :: 1 <= i < |results| ==> results[i] == results[1..][i - 1];
    }
  }

  /** A disabled rule, and a rule for a section other than the detected
    * one, is never among the results. */
  lemma NotEvaluated(search: RuleSearch, userRules: seq<Rule>, content: string, detected: Option<SectionType>, rule: Rule)
    requires !rule.isEnabled || (rule.section.Some? && rule.section != detected)
    ensures forall r :: r in AnalyzeRules(search, userRules, content, detected).results ==> r.rule != rule
  {
  }

  /** Every enabled system rule for a section, or for every section, is
    * evaluated when that section is detected. */
  lemma EnabledRuleEvaluated(userRules: seq<Rule>, detected: Option<SectionType>, rule: Rule)
    requires rule in AllRules(userRules) && Applies(rule, detected)
    ensures rule in Applicable(AllRules(userRules), detected)
  {
  }

  /** With no section detected and no user rules, the only rule evaluated
    * is the citation rule: the first-person rule is switched off and the
    * rest are for one section each. */
  lemma OnlyCitationRuleWhenUndetected()
    ensures Applicable(AllRules([]), None) == [SystemRules[1]]
  {
    SystemRulesShape();
    var rules := SystemRules;
    assert AllRules([]) == rules;
    assert rules[1].id == "general-has-citations";
    assert forall i :: 2 <= i < |rules| ==> rules[i].section.Some?;
    TailNotApplicable(rules[2..]);
    assert rules[2..] == rules[1..][1..];
  }

  lemma {:induction false} TailNotApplicable(rules: seq<Rule>)
    requires forall i :: 0 <= i < |rules| ==> rules[i].section.Some?
    ensures Applicable(rules, None) == []
    decreases |rules|
  {
    if rules != [] {
      TailNotApplicable(rules[1..]);
    }
  }
}
