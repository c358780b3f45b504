/** `hasCitationNearby` and `analyzeCitations` of `src/lib/thesis-analysis.ts`
  * (the same code is in `lib/thesis-analysis.ts`): every line long enough
  * to hold a claim is tested against the assertion patterns; the first one
  * that matches counts as an assertion, which is cited when a citation
  * pattern matches on that line or within two lines of it. */
module CitationCheck {
  import opened Strings
  import opened AnalysisPatterns
  import opened TextMeasures

  datatype UncitedAssertion = UncitedAssertion(text: string, lineNumber: nat, assertionType: string)

  datatype CitationAnalysis = CitationAnalysis(
    totalAssertions: nat, citedAssertions: nat, uncitedAssertions: seq<UncitedAssertion>, score: nat)

  /** Some citation pattern matches the line. */
  predicate HasCitation(find: Finder, line: string)
  {
    exists k :: 0 <= k < CitationCount && find(CitationPattern(k), line).Some?
  }

  /** First line of the window around line `i`: two lines before, clipped. */
  function WindowStart(i: nat): nat
  {
    if i >= 2 then i - 2 else 0
  }

  /** A citation on line `i` or within two lines of it, inside the text. */
  predicate CitedNear(find: Finder, lines: seq<string>, i: nat)
  {
    exists j :: WindowStart(i) <= j < |lines| && j <= i + 2 && HasCitation(find, lines[j])
  }

  /** `hasCitationNearby`. */
  method HasCitationNearby(find: Finder, lines: seq<string>, lineIndex: nat) returns (b: bool)
    requires lineIndex < |lines|
    ensures b <==> CitedNear(find, lines, lineIndex)
  {
    var start := WindowStart(lineIndex);
    var end := Min(|lines| - 1, lineIndex + 2);
    var i := start;
    while i <= end
      invariant start <= i <= end + 1
      invariant forall j :: start <= j < i ==> !HasCitation(find, lines[j])
    {
      var k := 0;
      while k < CitationCount
        invariant 0 <= k <= CitationCount
        invariant forall m :: 0 <= m < k ==> find(CitationPattern(m), lines[i]).None?
      {
        if find(CitationPattern(k), lines[i]).Some? {
          assert HasCitation(find, lines[i]);
          return true;
        }
        k := k + 1;
      }
      i := i + 1;
    }
    return false;
  }

  /** The lines the analysis passes over: blank after trimming, a heading
    * (`#` first, untrimmed), or under 20 characters after trimming;
    * `trimmed` is the line trimmed. */
  predicate Skipped(line: string, trimmed: string)
  {
    trimmed == [] || StartsWith(line, "#") || |trimmed| < 20
  }

  /** The first assertion pattern from the `k`-th on that matches. */
  function FirstAssertion(find: Finder, line: string, k: nat): (r: Option<nat>)
    ensures r.Some? ==> k <= r.value < AssertionCount && find(AssertionPattern(r.value), line).Some?
    ensures r.Some? ==> forall j :: k <= j < r.value ==> find(AssertionPattern(j), line).None?
    ensures r.None? ==> forall j :: k <= j < AssertionCount ==> find(AssertionPattern(j), line).None?
    decreases AssertionCount - k
  {
    if k >= AssertionCount then None
    else if find(AssertionPattern(k), line).Some? then Some(k)
    else FirstAssertion(find, line, k + 1)
  }

  /** The loop over `ASSERTION_PATTERNS` that stops at the first match. */
  method FirstAssertionOf(find: Finder, line: string) returns (r: Option<nat>)
    ensures r == FirstAssertion(find, line, 0)
  {
    var k := 0;
    while k < AssertionCount
      invariant 0 <= k <= AssertionCount
      invariant forall j :: 0 <= j < k ==> find(AssertionPattern(j), line).None?
    {
      if find(AssertionPattern(k), line).Some? {
        return Some(k);
      }
      k := k + 1;
    }
    return None;
  }

  /** The text itself, with "..." in front or behind or both. */
  predicate WithDots(text: string, piece: string)
  {
    text == piece || text == "..." + piece || text == piece + "..." || text == "..." + piece + "..."
  }

  /** The text reported for an uncited assertion, from the trimmed line `t`,
    * the untrimmed line's length and the match: `t` when it has at most 100
    * characters; else the part from 20 characters before the match to 50
    * after it, where the match's place is counted in the untrimmed line but
    * applied to `t`, with "..." where text was cut (the end is compared with
    * the untrimmed length); else, without a match, the first 97 characters
    * and "...". */
  function Snippet(t: string, lineLength: nat, m: Option<Span>): (text: string)
    ensures |t| <= 100 ==> text == t
    ensures |t| > 100 && m.None? ==> text == t[..97] + "..." && |text| == 100
  {
    if |t| <= 100 then t
    else
      match m
      case Some(span) =>
        var start := Max(0, span.index - 20);
        var end := Min(|t|, span.index + span.length + 50);
        (if start > 0 then "..." else "") + JsSubstring(t, start, end) + (if end < lineLength then "..." else "")
      case None => JsSubstring(t, 0, 97) + "..."
  }

  /** A long line's text is a piece of the trimmed line, marked where cut. */
  lemma SnippetIsPiece(t: string, lineLength: nat, span: Span)
    requires |t| > 100
    ensures exists a, b :: 0 <= a <= b <= |t| && WithDots(Snippet(t, lineLength, Some(span)), t[a..b])
  {
    var start := Max(0, span.index - 20);
    var end := Min(|t|, span.index + span.length + 50);
    var a, b := SubstringSlice(t, start, end);
    var pre: string := if start > 0 then "..." else "";
    var post: string := if end < lineLength then "..." else "";
    assert Snippet(t, lineLength, Some(span)) == pre + JsSubstring(t, start, end) + post;
    Dotted(pre, t[a..b], post);
  }

  lemma Dotted(pre: string, piece: string, post: string)
    requires pre == "" || pre == "..."
    requires post == "" || post == "..."
    ensures WithDots(pre + piece + post, piece)
  {
    if pre == "" {
      assert pre + piece == piece;
    }
    if post == "" {
      assert pre + piece + post == pre + piece;
    }
  }

  // ---------------------------------------------------------------------------
  // The analysis, line by line

  /** The running counts: assertions, cited ones, and the uncited ones. */
  datatype Tally = Tally(total: nat, cited: nat, uncited: seq<UncitedAssertion>)

  /** The lines trimmed. */
  function TrimAll(lines: seq<string>): (r: seq<string>)
    ensures |r| == |lines| && forall i :: 0 <= i < |lines| ==> r[i] == JsTrim(lines[i])
  {
    seq(|lines|, i requires 0 <= i < |lines| => JsTrim(lines[i]))
  }

  /** The report for an assertion of type `k` on line `i` with no citation. */
  function Uncited(find: Finder, lines: seq<string>, trimmed: seq<string>, i: nat, k: nat): UncitedAssertion
    requires i < |lines| == |trimmed| && k < AssertionCount
  {
    UncitedAssertion(Snippet(trimmed[i], |lines[i]|, find(AssertionPattern(k), lines[i])), i + 1, AssertionType(k))
  }

  /** What line `i` adds: nothing when skipped or without an assertion;
    * else one assertion, cited or reported with its line number (from 1)
    * and the type of the first pattern that matched. */
  function LineTally(find: Finder, lines: seq<string>, trimmed: seq<string>, i: nat, t: Tally): Tally
    requires i < |lines| == |trimmed|
  {
    if Skipped(lines[i], trimmed[i]) then t
    else
      match FirstAssertion(find, lines[i], 0)
      case None => t
      case Some(k) =>
        if CitedNear(find, lines, i) then Tally(t.total + 1, t.cited + 1, t.uncited)
        else Tally(t.total + 1, t.cited, t.uncited + [Uncited(find, lines, trimmed, i, k)])
  }

  /** The counts after the first `n` lines. */
  function TallyUpTo(find: Finder, lines: seq<string>, trimmed: seq<string>, n: nat): Tally
    requires n <= |lines| == |trimmed|
  {
    if n == 0 then Tally(0, 0, []) else LineTally(find, lines, trimmed, n - 1, TallyUpTo(find, lines, trimmed, n - 1))
  }

  /** The result: 100 with no assertions, else the rounded cited share, and
    * at most the first 10 uncited assertions. */
  function Report(t: Tally): (a: CitationAnalysis)
    ensures a.totalAssertions == t.total && a.citedAssertions == t.cited
    ensures |a.uncitedAssertions| == Min(10, |t.uncited|) && a.uncitedAssertions == t.uncited[..|a.uncitedAssertions|]
    ensures t.total == 0 ==> a.score == 100
    ensures t.total > 0 ==> a.score == Percent(t.cited, t.total)
  {
    var reported := if |t.uncited| <= 10 then t.uncited else t.uncited[..10];
    CitationAnalysis(t.total, t.cited, reported, if t.total == 0 then 100 else Percent(t.cited, t.total))
  }

  /** `analyzeCitations`, as a value. */
  function CitationsOf(find: Finder, content: string): CitationAnalysis
  {
    var lines := Split(content, '\n');
    Report(TallyUpTo(find, lines, TrimAll(lines), |lines|))
  }

  /** `analyzeCitations`. */
  method AnalyzeCitations(find: Finder, content: string) returns (a: CitationAnalysis)
    ensures a == CitationsOf(find, content)
  {
    var lines := Split(content, '\n');
    var total, cited, uncited := CountLines(find, lines, TrimAll(lines));
    a := Report(Tally(total, cited, uncited));
  }

  /** The loop of `analyzeCitations` over the lines, with its counters. */
  method CountLines(find: Finder, lines: seq<string>, ghost trimmed: seq<string>)
    returns (total: nat, cited: nat, uncited: seq<UncitedAssertion>)
    requires |lines| == |trimmed| && forall i :: 0 <= i < |lines| ==> trimmed[i] == JsTrim(lines[i])
    ensures Tally(total, cited, uncited) == TallyUpTo(find, lines, trimmed, |lines|)
  {
    uncited := [];
    total := 0;
    cited := 0;
    for i := 0 to |lines|
      invariant Tally(total, cited, uncited) == TallyUpTo(find, lines, trimmed, i)
    {
      total, cited, uncited := CheckLine(find, lines, trimmed, i, total, cited, uncited);
    }
  }

  /** The body of the loop of `analyzeCitations`, for line `i`. */
  method CheckLine(find: Finder, lines: seq<string>, ghost trimmed: seq<string>, i: nat,
                   total: nat, cited: nat, uncited: seq<UncitedAssertion>)
    returns (total': nat, cited': nat, uncited': seq<UncitedAssertion>)
    requires i < |lines| == |trimmed| && trimmed[i] == JsTrim(lines[i])
    ensures Tally(total', cited', uncited') == LineTally(find, lines, trimmed, i, Tally(total, cited, uncited))
  {
    total', cited', uncited' := total, cited, uncited;
    var line := lines[i];
    var text := JsTrim(line);
    if text == [] || StartsWith(line, "#") || |text| < 20 {
      return;
    }
    var found := FirstAssertionOf(find, line);
    if found.Some? {
      var k := found.value;
      total' := total + 1;
      var near := HasCitationNearby(find, lines, i);
      if near {
        cited' := cited + 1;
      } else {
        var m := find(AssertionPattern(k), line);
        uncited' := uncited + [UncitedAssertion(Snippet(text, |line|, m), i + 1, AssertionType(k))];
      }
    }
  }

  // ---------------------------------------------------------------------------
  // Properties

  /** Every assertion is either cited or uncited, and a line holds at most
    * one assertion. */
  lemma {:induction false} TallyBalance(find: Finder, lines: seq<string>, trimmed: seq<string>, n: nat)
    requires n <= |lines| == |trimmed|
    ensures var t := TallyUpTo(find, lines, trimmed, n); t.cited + |t.uncited| == t.total && t.total <= n
    decreases n
  {
    if n > 0 {
      TallyBalance(find, lines, trimmed, n - 1);
    }
  }

  /** An uncited assertion is reported from a line that is not skipped,
    * where an assertion pattern matches, with the type of the first one
    * that does, and with no citation within two lines. */
  predicate Unreported(find: Finder, lines: seq<string>, trimmed: seq<string>, u: UncitedAssertion)
    requires |lines| == |trimmed|
  {
    1 <= u.lineNumber <= |lines| && !Skipped(lines[u.lineNumber - 1], trimmed[u.lineNumber - 1]) &&
    FirstAssertion(find, lines[u.lineNumber - 1], 0).Some? &&
    u == Uncited(find, lines, trimmed, u.lineNumber - 1, FirstAssertion(find, lines[u.lineNumber - 1], 0).value) &&
    !CitedNear(find, lines, u.lineNumber - 1)
  }

  /** Every uncited assertion is one. */
  lemma {:induction false} UncitedAreUncited(find: Finder, lines: seq<string>, trimmed: seq<string>, n: nat)
    requires n <= |lines| == |trimmed|
    ensures forall u :: u in TallyUpTo(find, lines, trimmed, n).uncited ==>
      u.lineNumber <= n && Unreported(find, lines, trimmed, u)
    decreases n
  {
    if n > 0 {
      UncitedAreUncited(find, lines, trimmed, n - 1);
      var before := TallyUpTo(find, lines, trimmed, n - 1).uncited;
      var line := lines[n - 1];
      if !Skipped(line, trimmed[n - 1]) && FirstAssertion(find, line, 0).Some? && !CitedNear(find, lines, n - 1) {
        var u := Uncited(find, lines, trimmed, n - 1, FirstAssertion(find, line, 0).value);
        assert TallyUpTo(find, lines, trimmed, n).uncited == before + [u];
        assert Unreported(find, lines, trimmed, u);
      } else {
        assert TallyUpTo(find, lines, trimmed, n).uncited == before;
      }
    }
  }

  /** The uncited assertions come in the order of their lines, each line at
    * most once. */
  lemma {:induction false} UncitedInLineOrder(find: Finder, lines: seq<string>, trimmed: seq<string>, n: nat)
    requires n <= |lines| == |trimmed|
    ensures var us := TallyUpTo(find, lines, trimmed, n).uncited;
      (forall i :: 0 <= i < |us| ==> 1 <= us[i].lineNumber <= n) &&
      (forall i, j :: 0 <= i < j < |us| ==> us[i].lineNumber < us[j].lineNumber)
    decreases n
  {
    if n > 0 {
      UncitedInLineOrder(find, lines, trimmed, n - 1);
      var before := TallyUpTo(find, lines, trimmed, n - 1).uncited;
      assert var us := TallyUpTo(find, lines, trimmed, n - 1).uncited;
        (forall i :: 0 <= i < |us| ==> 1 <= us[i].lineNumber <= n - 1);
      assert forall i :: 0 <= i < |before| ==> 1 <= before[i].lineNumber <= n - 1;
      var line := lines[n - 1];
      if !Skipped(line, trimmed[n - 1]) && FirstAssertion(find, line, 0).Some? && !CitedNear(find, lines, n - 1) {
        var u := Uncited(find, lines, trimmed, n - 1, FirstAssertion(find, line, 0).value);
        var us := before + [u];
        assert TallyUpTo(find, lines, trimmed, n).uncited == us;
        assert u.lineNumber == n;
        assert forall i :: 0 <= i < |before| ==> us[i] == before[i];
      } else {
        var us := TallyUpTo(find, lines, trimmed, n).uncited;
        assert us == before;
        assert forall i :: 0 <= i < |us| ==> us[i] == before[i];
      }
    }
  }

  /** The score is a percentage: 100 with nothing to cite or everything
    * cited, 0 with assertions none of which is cited. */
  lemma ScoreBounds(find: Finder, content: string)
    ensures var a := CitationsOf(find, content);
      a.score <= 100 &&
      (a.citedAssertions == a.totalAssertions ==> a.score == 100) &&
      (a.totalAssertions > 0 && a.citedAssertions == 0 ==> a.score == 0) &&
      |a.uncitedAssertions| <= 10
  {
    var lines := Split(content, '\n');
    var t := TallyUpTo(find, lines, TrimAll(lines), |lines|);
    TallyBalance(find, lines, TrimAll(lines), |lines|);
    PercentBounds(t.cited, t.total);
  }

  /** Lines each skipped or matching no assertion pattern give no
    * assertion at all. */
  lemma {:induction false} NoAssertions(find: Finder, lines: seq<string>, trimmed: seq<string>, n: nat)
    requires n <= |lines| == |trimmed|
    requires forall i :: 0 <= i < n ==> Skipped(lines[i], trimmed[i]) || FirstAssertion(find, lines[i], 0).None?
    ensures TallyUpTo(find, lines, trimmed, n) == Tally(0, 0, [])
    decreases n
  {
    if n > 0 {
      NoAssertions(find, lines, trimmed, n - 1);
    }
  }
}
