/** The counting helpers of `src/lib/thesis-analysis.ts` (the same code is in
  * `lib/thesis-analysis.ts`): words, citation years, line numbers of a
  * match, rounded percentages, and `String.prototype.substring`. */
module TextMeasures {
  import opened Strings

  function Min(a: int, b: int): int { if a <= b then a else b }

  function Max(a: int, b: int): int { if a >= b then a else b }

  // ---------------------------------------------------------------------------
  // countWords

  /** The characters `countWords` deletes first: `[#*_`\[\]()]`. */
  predicate IsMarkup(c: char)
  {
    c == '#' || c == '*' || c == '_' || c == '`' || c == '[' || c == ']' || c == '(' || c == ')'
  }

  predicate NotMarkup(c: char) { !IsMarkup(c) }

  predicate NotJsSpace(c: char) { !IsJsSpace(c) }

  /** `s.split(/\s+/).filter(w => w.length > 0)`: the maximal runs of
    * non-blank characters, in order. */
  function Tokens(s: string): (r: seq<string>)
    ensures forall i :: 0 <= i < |r| ==> r[i] != [] && AllChars(r[i], NotJsSpace)
    decreases |s|
  {
    if s == [] then []
    else if IsJsSpace(s[0]) then Tokens(s[1..])
    else
      var w := TakeWhile(s, NotJsSpace);
      [w] + Tokens(s[|w|..])
  }

  /** `countWords`. */
  function CountWords(content: string): (n: nat)
    ensures n <= |content|
  {
    TokensBound(Filter(content, NotMarkup));
    |Tokens(Filter(content, NotMarkup))|
  }

  lemma {:induction false} TokensBound(s: string)
    ensures |Tokens(s)| <= |s|
    decreases |s|
  {
    if s != [] {
      if IsJsSpace(s[0]) {
        TokensBound(s[1..]);
      } else {
        var w := TakeWhile(s, NotJsSpace);
        TokensBound(s[|w|..]);
      }
    }
  }

  /** Words written with single blanks between them are split back into
    * the same words. */
  lemma {:induction false} TokensOfJoin(ws: seq<string>)
    requires forall i :: 0 <= i < |ws| ==> ws[i] != [] && AllChars(ws[i], NotJsSpace)
    ensures Tokens(Join(ws, " ")) == ws
    decreases |ws|
  {
    if |ws| == 1 {
      var w := ws[0];
      TakeWhileWhole(w, NotJsSpace);
      assert w[|w|..] == [];
    } else if |ws| > 1 {
      var w := ws[0];
      var rest := Join(ws[1..], " ");
      var s := w + [' '] + rest;
      assert Join(ws, " ") == s;
      TakeWhileStops(w, ' ', rest, NotJsSpace);
      assert s[0] == w[0];
      assert s[|w|..] == " " + rest;
      assert Tokens(" " + rest) == Tokens(rest) by {
        assert (" " + rest)[1..] == rest;
      }
      TokensOfJoin(ws[1..]);
      assert [w] + ws[1..] == ws;
    }
  }

  /** `countWords` of words with single blanks between them and no
    * markup characters is the number of words. */
  lemma CountWordsOfJoin(ws: seq<string>)
    requires forall i :: 0 <= i < |ws| ==> ws[i] != [] && AllChars(ws[i], NotJsSpace) && AllChars(ws[i], NotMarkup)
    ensures CountWords(Join(ws, " ")) == |ws|
  {
    JoinKeeps(ws, NotMarkup);
    FilterKeepsAll(Join(ws, " "), NotMarkup);
    TokensOfJoin(ws);
  }

  lemma {:induction false} JoinKeeps(ws: seq<string>, p: char -> bool)
    requires p(' ')
    requires forall i :: 0 <= i < |ws| ==> AllChars(ws[i], p)
    ensures AllChars(Join(ws, " "), p)
    decreases |ws|
  {
    if |ws| > 1 {
      JoinKeeps(ws[1..], p);
      var s := ws[0] + " " + Join(ws[1..], " ");
      forall i | 0 <= i < |s| ensures p(s[i]) {
        if i < |ws[0]| {
          assert s[i] == ws[0][i];
        } else if i > |ws[0]| {
          assert s[i] == Join(ws[1..], " ")[i - |ws[0]| - 1];
        }
      }
    }
  }

  /** A text with nothing but blanks and markup has no words. */
  lemma {:induction false} NoWords(s: string)
    requires forall i :: 0 <= i < |s| ==> IsJsSpace(s[i]) || IsMarkup(s[i])
    ensures CountWords(s) == 0
  {
    var f := Filter(s, NotMarkup);
    FilterOnlySpaces(s);
    BlankTokens(f);
  }

  lemma {:induction false} FilterOnlySpaces(s: string)
    requires forall i :: 0 <= i < |s| ==> IsJsSpace(s[i]) || IsMarkup(s[i])
    ensures AllChars(Filter(s, NotMarkup), IsJsSpace)
    decreases |s|
  {
    if s != [] {
      FilterOnlySpaces(s[1..]);
      var rest := Filter(s[1..], NotMarkup);
      var r := Filter(s, NotMarkup);
      if NotMarkup(s[0]) {
        assert r == [s[0]] + rest;
        forall i | 0 <= i < |r| ensures IsJsSpace(r[i]) {
          if i > 0 {
            assert r[i] == rest[i - 1];
          }
        }
      } else {
        assert r == rest;
      }
    }
  }

  lemma {:induction false} BlankTokens(s: string)
    requires AllChars(s, IsJsSpace)
    ensures Tokens(s) == []
    decreases |s|
  {
    if s != [] {
      assert IsJsSpace(s[0]);
      BlankTokens(s[1..]);
    }
  }

  // ---------------------------------------------------------------------------
  // extractCitationYears

  /** `/\b(19|20)\d{2}\b/` matches at `i`: four digits starting with 19 or
    * 20, with no word character just before or just after them. */
  predicate YearAt(s: string, i: nat)
  {
    i + 4 <= |s| &&
    ((s[i] == '1' && s[i + 1] == '9') || (s[i] == '2' && s[i + 1] == '0')) &&
    IsAsciiDigit(s[i + 2]) && IsAsciiDigit(s[i + 3]) &&
    (i == 0 || !IsJsWordChar(s[i - 1])) &&
    (i + 4 == |s| || !IsJsWordChar(s[i + 4]))
  }

  function Digit(c: char): nat
    requires IsAsciiDigit(c)
  {
    c as nat - '0' as nat
  }

  /** `parseInt` of the four digits at `i`. */
  function YearValue(s: string, i: nat): (y: int)
    requires YearAt(s, i)
    ensures 1900 <= y <= 2099
  {
    1000 * Digit(s[i]) + 100 * Digit(s[i + 1]) + 10 * Digit(s[i + 2]) + Digit(s[i + 3])
  }

  /** Two matches never overlap: the word boundary in front of the second
    * would fall between two digits. So the matches of the global search are
    * exactly the places where the pattern matches. */
  lemma YearsApart(s: string, i: nat, j: nat)
    requires YearAt(s, i) && YearAt(s, j) && i < j
    ensures j >= i + 4
  {
  }

  /** The distinct years the pattern finds. */
  function YearsIn(s: string): set<int>
  {
    set i: nat | i < |s| && YearAt(s, i) :: YearValue(s, i)
  }

  /** `extractCitationYears`: the distinct years found, in decreasing order. */
  function ExtractCitationYears(content: string): (ys: seq<int>)
    ensures forall i, j :: 0 <= i < j < |ys| ==> ys[i] > ys[j]
    ensures forall y :: y in ys <==> y in YearsIn(content)
  {
    var found := YearsIn(content);
    assert forall y :: y in found ==> 1900 <= y <= 2099;
    DescendingFrom(found, 2099)
  }

  /** The elements of `found` from `y` down to 1900, largest first. */
  function DescendingFrom(found: set<int>, y: int): (ys: seq<int>)
    ensures forall i :: 0 <= i < |ys| ==> 1900 <= ys[i] <= y
    ensures forall i, j :: 0 <= i < j < |ys| ==> ys[i] > ys[j]
    ensures forall x :: x in ys <==> x in found && 1900 <= x <= y
    decreases y - 1900
  {
    if y < 1900 then []
    else (if y in found then [y] else []) + DescendingFrom(found, y - 1)
  }

  // ---------------------------------------------------------------------------
  // Line numbers and percentages

  /** `content.substring(0, index).split("\n").length`: the line a match at
    * `index` is on, counting from 1 (`substring` clips the index). */
  function LineNumber(content: string, index: nat): (n: nat)
    ensures n == Count(content[..Min(index, |content|)], '\n') + 1
  {
    SplitJoin(content[..Min(index, |content|)], '\n');
    |Split(content[..Min(index, |content|)], '\n')|
  }

  /** `Math.round(a / b * 100)` for `b > 0`, and 0 when `b` is 0. */
  function Percent(a: nat, b: nat): (r: nat)
    ensures b > 0 ==> 2 * b * r <= 200 * a + b < 2 * b * (r + 1)
    ensures b == 0 ==> r == 0
  {
    if b == 0 then 0 else (200 * a + b) / (2 * b)
  }

  /** A share is a percentage at most 100; all of it is 100, none of it 0. */
  lemma PercentBounds(a: nat, b: nat)
    requires a <= b
    ensures Percent(a, b) <= 100
    ensures b > 0 && a == b ==> Percent(a, b) == 100
    ensures a == 0 ==> Percent(a, b) == 0
  {
    var r := Percent(a, b);
    if b > 0 {
      assert 2 * b * r <= 200 * a + b < 2 * b * (r + 1);
      if r > 100 {
        assert 2 * b * r >= 2 * b * 101 by {
          MulMono(2 * b, 101, r);
        }
      }
      if a == b && r < 100 {
        MulMono(2 * b, r + 1, 100);
      }
      if a == 0 && r > 0 {
        MulMono(2 * b, 1, r);
      }
    }
  }

  lemma MulMono(k: nat, x: nat, y: nat)
    requires x <= y
    ensures k * x <= k * y
  {
  }

  /** `Math.round(total / n)` for a non-negative total over `n > 0` items,
    * and 0 for no items. */
  function RoundedMean(total: nat, n: nat): (r: nat)
    ensures n > 0 ==> 2 * n * r <= 2 * total + n < 2 * n * (r + 1)
    ensures n == 0 ==> r == 0
  {
    if n == 0 then 0 else (2 * total + n) / (2 * n)
  }

  /** The rounded mean of values at most `m` is at most `m`. */
  lemma RoundedMeanBound(total: nat, n: nat, m: nat)
    requires total <= n * m
    ensures RoundedMean(total, n) <= m
  {
    if n > 0 {
      var r := RoundedMean(total, n);
      if r > m {
        MulMono(2 * n, m + 1, r);
      }
    }
  }

  /** `s.substring(a, b)`: both ends clipped to the text, and swapped when
    * the start is after the end. */
  function JsSubstring(s: string, a: int, b: int): (r: string)
    ensures |r| <= |s|
    ensures 0 <= a <= b <= |s| ==> r == s[a..b]
  {
    var x := Min(Max(a, 0), |s|);
    var y := Min(Max(b, 0), |s|);
    if x <= y then s[x..y] else s[y..x]
  }

  /** Whatever its bounds, a substring is a slice of the text. */
  lemma SubstringSlice(s: string, a: int, b: int) returns (lo: nat, hi: nat)
    ensures lo <= hi <= |s| && JsSubstring(s, a, b) == s[lo..hi]
  {
    var x := Min(Max(a, 0), |s|);
    var y := Min(Max(b, 0), |s|);
    lo, hi := Min(x, y), Max(x, y);
  }
}
