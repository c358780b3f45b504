/** The two closing sections of the converter (`add_bibliography` and
  * `add_missing_references_report` in `core/scripts/Latex2word.py`): the
  * cited references in sorted key order, and the report listing every key
  * that was cited but not found. */
module References {
  import opened Strings
  import opened Scan
  import opened Docx
  import opened Inline

  // ---------------------------------------------------------------------------
  // sorted()

  /** `m` is the least element of `s` in code-point order. */
  predicate IsMin(m: string, s: set<string>)
  {
    forall y :: y in s ==> y == m || Less(m, y)
  }

  lemma {:induction false} MinExists(s: set<string>)
    requires s != {}
    ensures exists m :: m in s && IsMin(m, s)
    decreases |s|
  {
    var x :| x in s;
    var r := s - {x};
    if r == {} {
      assert forall y :: y in s ==> y in r || y == x;
      assert IsMin(x, s);
    } else {
      MinExists(r);
      var m :| m in r && IsMin(m, r);
      LessTotal(x, m);
      if Less(x, m) {
        forall y | y in s ensures y == x || Less(x, y) {
          if y != x && y != m {
            LessTransitive(x, m, y);
          }
        }
        assert IsMin(x, s);
      } else {
        assert IsMin(m, s);
      }
    }
  }

  lemma MinUnique(a: string, b: string, s: set<string>)
    requires a in s && b in s && IsMin(a, s) && IsMin(b, s)
    ensures a == b
  {
    if a != b {
      assert Less(a, b);
      LessAsymmetric(a, b);
    }
  }

  /** `sorted(s)`: the elements of the set in increasing order. */
  ghost function SortedOf(s: set<string>): (ks: seq<string>)
    decreases |s|
  {
    if s == {} then []
    else
      MinExists(s);
      var m :| m in s && IsMin(m, s);
      [m] + SortedOf(s - {m})
  }

  lemma SortedOfFirst(s: set<string>, m: string)
    requires m in s && IsMin(m, s)
    ensures SortedOf(s) == [m] + SortedOf(s - {m})
  {
    MinExists(s);
    var m' :| m' in s && IsMin(m', s) && SortedOf(s) == [m'] + SortedOf(s - {m'});
    MinUnique(m, m', s);
  }

  /** The sorted keys are strictly increasing and are exactly the set. */
  lemma {:induction false} SortedOfShape(s: set<string>)
    ensures StrictlySorted(SortedOf(s))
    ensures forall k :: k in SortedOf(s) <==> k in s
    ensures |SortedOf(s)| == |s|
    decreases |s|
  {
    if s != {} {
      MinExists(s);
      var m :| m in s && IsMin(m, s);
      SortedOfFirst(s, m);
      var r := s - {m};
      SortedOfShape(r);
      var ks := SortedOf(s);
      assert ks[1..] == SortedOf(r);
      forall i, j | 0 <= i < j < |ks| ensures Less(ks[i], ks[j]) {
        if i == 0 {
          assert ks[j] in r;
        } else {
          assert ks[i] == SortedOf(r)[i - 1] && ks[j] == SortedOf(r)[j - 1];
        }
      }
    }
  }

  /** `sorted(s)` computed by taking the least remaining key each time. */
  method SortedKeys(s: set<string>) returns (ks: seq<string>)
    ensures ks == SortedOf(s)
  {
    ks := [];
    var rem := s;
    while rem != {}
      invariant ks + SortedOf(rem) == SortedOf(s)
      decreases |rem|
    {
      MinExists(rem);
      var m :| m in rem && IsMin(m, rem);
      SortedOfFirst(rem, m);
      ConcatAssoc(ks, [m], SortedOf(rem - {m}));
      ks := ks + [m];
      rem := rem - {m};
    }
    assert ks + [] == ks;
  }

  // ---------------------------------------------------------------------------
  // add_bibliography

  /** The heading of the bibliography chapter. */
  const BibHeading: string := "Referências"

  /** The keys of `ks` the bibliography holds, in the order of `ks`. */
  function Used(ks: seq<string>, bib: map<string, string>): (r: seq<string>)
    ensures forall k :: k in r <==> k in ks && k in bib
    decreases |ks|
  {
    if ks == [] then []
    else
      var k := ks[|ks| - 1];
      Used(ks[..|ks| - 1], bib) + (if k in bib then [k] else [])
  }

  /** A strictly increasing list keeps its order when keys are dropped. */
  lemma {:induction false} UsedSorted(ks: seq<string>, bib: map<string, string>)
    requires StrictlySorted(ks)
    ensures StrictlySorted(Used(ks, bib))
    decreases |ks|
  {
    if ks != [] {
      var init := ks[..|ks| - 1];
      var k := ks[|ks| - 1];
      assert StrictlySorted(init) by {
        assert forall i :: 0 <= i < |init| ==> init[i] == ks[i];
      }
      UsedSorted(init, bib);
      var u := Used(init, bib);
      if k in bib {
        forall i, j | 0 <= i < j < |u + [k]| ensures Less((u + [k])[i], (u + [k])[j]) {
          if j == |u| {
            var x := u[i];
            assert x in init;
            var p :| 0 <= p < |init| && init[p] == x;
            assert ks[p] == x && ks[|ks| - 1] == k;
          } else {
            assert (u + [k])[i] == u[i] && (u + [k])[j] == u[j];
          }
        }
      } else {
        assert u + [] == u;
      }
    }
  }

  /** The paragraph of one reference: its text with inline formatting, in
    * the Bibliography style. */
  function RefOut(clean: string -> Subbed, ref: string): Out
  {
    var f := InlineFormatting(clean, ref);
    Out([Paragraph("Bibliography", f.runs)], f.keys)
  }

  /** One Bibliography paragraph per key of `ks` the bibliography holds, in
    * the order of `ks`. */
  function RefsOut(clean: string -> Subbed, bib: map<string, string>, ks: seq<string>): (o: Out)
    ensures |o.blocks| == |Used(ks, bib)|
    ensures forall j :: 0 <= j < |o.blocks| ==>
      Used(ks, bib)[j] in bib && o.blocks[j] == Paragraph("Bibliography", InlineFormatting(clean, bib[Used(ks, bib)[j]]).runs)
    decreases |ks|
  {
    if ks == [] then Nothing
    else
      var k := ks[|ks| - 1];
      var prev := RefsOut(clean, bib, ks[..|ks| - 1]);
      if k in bib then Then(prev, RefOut(clean, bib[k])) else prev
  }

  /** The loop of `add_bibliography` over the sorted keys. */
  method RefsLoop(clean: string -> Subbed, bib: map<string, string>, ks: seq<string>) returns (o: Out)
    ensures o == RefsOut(clean, bib, ks)
  {
    o := Nothing;
    var i := 0;
    while i < |ks|
      invariant 0 <= i <= |ks|
      invariant o == RefsOut(clean, bib, ks[..i])
    {
      RefsStep(clean, bib, ks, i);
      if ks[i] in bib {
        o := Then(o, RefOut(clean, bib[ks[i]]));
      }
      i := i + 1;
    }
    assert ks[..i] == ks;
  }

  lemma RefsStep(clean: string -> Subbed, bib: map<string, string>, ks: seq<string>, i: nat)
    requires i < |ks|
    ensures RefsOut(clean, bib, ks[..i + 1])
         == if ks[i] in bib then Then(RefsOut(clean, bib, ks[..i]), RefOut(clean, bib[ks[i]])) else RefsOut(clean, bib, ks[..i])
  {
    assert ks[..i + 1][..i] == ks[..i];
  }

  /** `add_bibliography` once heading and page break are out: `cited` is the
    * set of keys cited when the references are listed. */
  ghost function BibliographyBody(clean: string -> Subbed, bib: map<string, string>, cited: set<string>): Out
  {
    RefsOut(clean, bib, SortedOf(cited))
  }

  /** The bibliography lists exactly the cited keys it holds, each once, in
    * increasing key order, each as the formatted text of its reference. */
  lemma BibliographyLists(clean: string -> Subbed, bib: map<string, string>, cited: set<string>)
    ensures var u := Used(SortedOf(cited), bib);
      StrictlySorted(u) && (forall k :: k in u <==> k in cited && k in bib) &&
      |BibliographyBody(clean, bib, cited).blocks| == |u| &&
      forall j :: 0 <= j < |u| ==> BibliographyBody(clean, bib, cited).blocks[j] == Paragraph("Bibliography", InlineFormatting(clean, bib[u[j]]).runs)
  {
    SortedOfShape(cited);
    UsedSorted(SortedOf(cited), bib);
  }

  // ---------------------------------------------------------------------------
  // add_missing_references_report

  const MissingHeading: string := "Referências Não Encontradas"

  const Explanation: string :=
    "As seguintes referências foram citadas no texto mas não foram encontradas nos arquivos de bibliografia. Elas aparecem destacadas em VERMELHO no documento:"

  /** The report line of one missing key: a red bullet and the key in red. */
  function MissingLine(key: string): Block
  {
    Paragraph("Normal", [Run("• ", false, false, true), Run(key, false, false, true)])
  }

  /** The lines of the report for the keys in order. */
  function MissingLines(ks: seq<string>): (bs: seq<Block>)
    ensures |bs| == |ks|
  {
    seq(|ks|, j requires 0 <= j < |ks| => MissingLine(ks[j]))
  }

  /** The report lists exactly the missing keys, once each, in increasing
    * order, every one as a red bullet followed by the red key. */
  lemma ReportLists(missing: set<string>)
    ensures var ks := SortedOf(missing); var bs := MissingLines(ks);
      StrictlySorted(ks) && |bs| == |missing| &&
      (forall k :: k in missing <==> exists j :: 0 <= j < |bs| && bs[j] == Paragraph("Normal", [Run("• ", false, false, true), Run(k, false, false, true)])) &&
      forall j :: 0 <= j < |bs| ==> bs[j].runs[1].red && bs[j].runs[1].text == ks[j]
  {
    SortedOfShape(missing);
    var ks := SortedOf(missing);
    var bs := MissingLines(ks);
    forall k ensures k in missing <==> exists j :: 0 <= j < |bs| && bs[j] == Paragraph("Normal", [Run("• ", false, false, true), Run(k, false, false, true)]) {
      if k in missing {
        var j :| 0 <= j < |ks| && ks[j] == k;
        assert bs[j] == MissingLine(k);
      }
      if exists j :: 0 <= j < |bs| && bs[j] == Paragraph("Normal", [Run("• ", false, false, true), Run(k, false, false, true)]) {
        var j :| 0 <= j < |bs| && bs[j] == Paragraph("Normal", [Run("• ", false, false, true), Run(k, false, false, true)]);
        assert bs[j].runs[1].text == ks[j];
        assert ks[j] in ks;
      }
    }
  }

  /** The loop of `add_missing_references_report` over the sorted keys. */
  method MissingLoop(ks: seq<string>) returns (bs: seq<Block>)
    ensures bs == MissingLines(ks)
  {
    bs := [];
    var i := 0;
    while i < |ks|
      invariant 0 <= i <= |ks|
      invariant bs == MissingLines(ks[..i])
    {
      MissingStep(ks, i);
      bs := bs + [MissingLine(ks[i])];
      i := i + 1;
    }
    assert ks[..i] == ks;
  }

  lemma MissingStep(ks: seq<string>, i: nat)
    requires i < |ks|
    ensures MissingLines(ks[..i + 1]) == MissingLines(ks[..i]) + [MissingLine(ks[i])]
  {
  }
}
