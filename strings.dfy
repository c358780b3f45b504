/** Text utilities shared by every module: whitespace classes of Python and
  * JavaScript, stripping, splitting, joining, substring search, literal
  * replacement, decimal rendering and a Latin-1 lower-case mapping. */
module Strings {

  datatype Option<T> = None | Some(value: T)

  /** Python's `str.isspace()`, which is also what `\s`, `str.strip()` and
    * `str.split()` use on `str` values. */
  predicate IsPySpace(c: char)
  {
    c == ' ' || ('\t' <= c <= '\r') || ('\U{1c}' <= c <= '\U{1f}') || c == '\U{85}' || c == '\U{a0}'
    || c == '\U{1680}' || ('\U{2000}' <= c <= '\U{200a}') || c == '\U{2028}' || c == '\U{2029}'
    || c == '\U{202f}' || c == '\U{205f}' || c == '\U{3000}'
  }

  /** ECMAScript WhiteSpace and LineTerminator: the class `\s` and what
    * `String.prototype.trim` removes. */
  predicate IsJsSpace(c: char)
  {
    ('\t' <= c <= '\r') || c == ' ' || c == '\U{a0}' || c == '\U{1680}' || ('\U{2000}' <= c <= '\U{200a}')
    || c == '\U{2028}' || c == '\U{2029}' || c == '\U{202f}' || c == '\U{205f}' || c == '\U{3000}' || c == '\U{feff}'
  }

  /** ECMAScript line terminators: what `.` does not match and where `^`/`$` stop under the `m` flag. */
  predicate IsLineTerminator(c: char)
  {
    c == '\n' || c == '\r' || c == '\U{2028}' || c == '\U{2029}'
  }

  predicate IsAsciiDigit(c: char) { '0' <= c <= '9' }
  predicate IsAsciiUpper(c: char) { 'A' <= c <= 'Z' }
  predicate IsAsciiLower(c: char) { 'a' <= c <= 'z' }
  predicate IsAsciiLetter(c: char) { IsAsciiUpper(c) || IsAsciiLower(c) }

  /** The ECMAScript `\w` class (without the `u` flag). */
  predicate IsJsWordChar(c: char) { IsAsciiLetter(c) || IsAsciiDigit(c) || c == '_' }

  predicate AllDigits(s: string) { forall i :: 0 <= i < |s| ==> IsAsciiDigit(s[i]) }

  // ---------------------------------------------------------------------------
  // Stripping

  function LStrip(s: string, sp: char -> bool): (r: string)
    ensures |r| <= |s| && r == s[|s| - |r|..]
    ensures r != [] ==> !sp(r[0])
    ensures forall i :: 0 <= i < |s| - |r| ==> sp(s[i])
    decreases |s|
  {
    if s != [] && sp(s[0]) then LStrip(s[1..], sp) else s
  }

  function RStrip(s: string, sp: char -> bool): (r: string)
    ensures |r| <= |s| && r == s[..|r|]
    ensures r != [] ==> !sp(r[|r| - 1])
    ensures forall i :: |r| <= i < |s| ==> sp(s[i])
    decreases |s|
  {
    if s != [] && sp(s[|s| - 1]) then RStrip(s[..|s| - 1], sp) else s
  }

  function Strip(s: string, sp: char -> bool): (r: string)
  {
    RStrip(LStrip(s, sp), sp)
  }

  /** Python's `str.strip()`. */
  function PyStrip(s: string): string { Strip(s, IsPySpace) }

  /** ECMAScript's `String.prototype.trim()`. */
  function JsTrim(s: string): string { Strip(s, IsJsSpace) }

  predicate IsStripped(s: string, sp: char -> bool)
  {
    s == [] || (!sp(s[0]) && !sp(s[|s| - 1]))
  }

  /** Stripping leaves no blank character at either end. */
  lemma StripShape(s: string, sp: char -> bool)
    ensures IsStripped(Strip(s, sp), sp)
  {
    var l := LStrip(s, sp);
    var r := RStrip(l, sp);
    if r != [] {
      assert r[0] == l[0];
    }
  }

  lemma StripOfStripped(s: string, sp: char -> bool)
    requires IsStripped(s, sp)
    ensures Strip(s, sp) == s
  {
  }

  lemma StripAllBlank(s: string, sp: char -> bool)
    requires forall i :: 0 <= i < |s| ==> sp(s[i])
    ensures Strip(s, sp) == []
  {
  }

  lemma {:induction false} LStripAppendBlank(s: string, c: char, sp: char -> bool)
    requires sp(c)
    ensures LStrip(s + [c], sp) == if LStrip(s, sp) == [] then [] else LStrip(s, sp) + [c]
    decreases |s|
  {
    var t := s + [c];
    if s == [] {
      assert t[1..] == [];
      assert LStrip(t, sp) == LStrip([], sp);
    } else {
      assert t[0] == s[0] && t[1..] == s[1..] + [c];
      if sp(s[0]) {
        LStripAppendBlank(s[1..], c, sp);
        assert LStrip(t, sp) == LStrip(s[1..] + [c], sp);
        assert LStrip(s, sp) == LStrip(s[1..], sp);
      } else {
        assert LStrip(t, sp) == t;
        assert LStrip(s, sp) == s;
      }
    }
  }

  /** A blank character at the end makes no difference to stripping. */
  lemma StripAppendBlank(s: string, c: char, sp: char -> bool)
    requires sp(c)
    ensures Strip(s + [c], sp) == Strip(s, sp)
  {
    LStripAppendBlank(s, c, sp);
    var l := LStrip(s, sp);
    if l != [] {
      assert (l + [c])[..|l + [c]| - 1] == l;
    }
  }

  lemma StripNonBlankChar(s: string, sp: char -> bool, i: nat)
    requires i < |s| && !sp(s[i])
    ensures Strip(s, sp) != []
  {
    var l := LStrip(s, sp);
    assert i >= |s| - |l|;
    assert l[i - (|s| - |l|)] == s[i];
    var r := RStrip(l, sp);
    assert i - (|s| - |l|) < |r|;
  }

  // ---------------------------------------------------------------------------
  // Splitting and joining

  /** `s.split(c)` in Python and JavaScript for a one-character separator. */
  function Split(s: string, c: char): (r: seq<string>)
    ensures |r| >= 1
    ensures forall i, j :: 0 <= i < |r| && 0 <= j < |r[i]| ==> r[i][j] != c
    decreases |s|
  {
    if s == [] then [""]
    else if s[0] == c then [""] + Split(s[1..], c)
    else var rest := Split(s[1..], c); [[s[0]] + rest[0]] + rest[1..]
  }

  function Join(xs: seq<string>, sep: string): string
  {
    if xs == [] then ""
    else if |xs| == 1 then xs[0]
    else xs[0] + sep + Join(xs[1..], sep)
  }

  function Count(s: string, c: char): (n: nat)
    ensures n <= |s|
  {
    if s == [] then 0 else (if s[0] == c then 1 else 0) + Count(s[1..], c)
  }

  /** Splitting and joining back on the same separator is the identity, and
    * the number of pieces is one more than the number of separators. */
  lemma {:induction false} SplitJoin(s: string, c: char)
    ensures Join(Split(s, c), [c]) == s
    ensures |Split(s, c)| == Count(s, c) + 1
    decreases |s|
  {
    if s == [] {
    } else if s[0] == c {
      SplitJoin(s[1..], c);
      var rest := Split(s[1..], c);
      if |rest| == 1 {
        assert Join([""] + rest, [c]) == "" + [c] + rest[0];
      } else {
        assert ([""] + rest)[1..] == rest;
      }
      assert s == [c] + s[1..];
    } else {
      SplitJoin(s[1..], c);
      var rest := Split(s[1..], c);
      var r := [[s[0]] + rest[0]] + rest[1..];
      if |rest| == 1 {
        assert Join(r, [c]) == [s[0]] + rest[0];
      } else {
        assert r[1..] == rest[1..];
        assert Join(rest, [c]) == rest[0] + [c] + Join(rest[1..], [c]);
      }
      assert s == [s[0]] + s[1..];
    }
  }

  lemma SplitNoSep(s: string, c: char)
    requires forall i :: 0 <= i < |s| ==> s[i] != c
    ensures Split(s, c) == [s]
    decreases |s|
  {
    if s != [] {
      SplitNoSep(s[1..], c);
      assert [s[0]] + s[1..] == s;
    }
  }

  lemma SplitAppendSep(a: string, c: char, b: string)
    requires forall i :: 0 <= i < |a| ==> a[i] != c
    ensures Split(a + [c] + b, c) == [a] + Split(b, c)
    decreases |a|
  {
    if a == [] {
      assert a + [c] + b == [c] + b;
      assert ([c] + b)[1..] == b;
    } else {
      assert (a + [c] + b)[1..] == a[1..] + [c] + b;
      SplitAppendSep(a[1..], c, b);
      assert [a[0]] + a[1..] == a;
    }
  }

  /** The piece after the last separator is the last piece. */
  lemma {:induction false} SplitAppendLast(a: string, c: char, b: string)
    requires forall i :: 0 <= i < |b| ==> b[i] != c
    ensures Split(a + [c] + b, c) == Split(a, c) + [b]
    decreases |a|
  {
    if a == [] {
      assert a + [c] + b == [c] + b;
      assert ([c] + b)[1..] == b;
      SplitNoSep(b, c);
    } else {
      assert (a + [c] + b)[1..] == a[1..] + [c] + b;
      SplitAppendLast(a[1..], c, b);
    }
  }

  lemma {:induction false} JoinAppend(xs: seq<string>, x: string, sep: string)
    requires xs != []
    ensures Join(xs + [x], sep) == Join(xs, sep) + sep + x
    decreases |xs|
  {
    if |xs| > 1 {
      assert (xs + [x])[1..] == xs[1..] + [x];
      JoinAppend(xs[1..], x, sep);
    } else {
      assert (xs + [x])[1..] == [x];
    }
  }

  lemma {:induction false} CountConcat(a: string, b: string, c: char)
    ensures Count(a + b, c) == Count(a, c) + Count(b, c)
    decreases |a|
  {
    if a == [] {
      assert a + b == b;
    } else {
      assert (a + b)[1..] == a[1..] + b;
      CountConcat(a[1..], b, c);
    }
  }

  lemma {:induction false} CountZero(s: string, c: char)
    ensures Count(s, c) == 0 <==> c !in s
    decreases |s|
  {
    if s != [] {
      CountZero(s[1..], c);
      assert s == [s[0]] + s[1..];
    }
  }

  /** Python's `str.split()` with no argument: the maximal runs of
    * non-blank characters. */
  function Words(s: string): (r: seq<string>)
    ensures forall i :: 0 <= i < |r| ==> r[i] != [] && forall j :: 0 <= j < |r[i]| ==> !IsPySpace(r[i][j])
    decreases |s|
  {
    if s == [] then []
    else if IsPySpace(s[0]) then Words(s[1..])
    else
      var w := TakeWhile(s, NotPySpace);
      [w] + Words(s[|w|..])
  }

  predicate NotPySpace(c: char) { !IsPySpace(c) }

  /** Two blank-free words separated by a space split into those two words. */
  lemma TwoWords(a: string, b: string)
    requires a != [] && b != [] && AllChars(a, NotPySpace) && AllChars(b, NotPySpace)
    ensures Words(a + " " + b) == [a, b]
  {
    var s := a + " " + b;
    assert Words(b) == [b] by {
      TakeWhileWhole(b, NotPySpace);
      assert b[|b|..] == [];
    }
    assert Words(" " + b) == Words(b) by {
      assert (" " + b)[1..] == b;
    }
    assert TakeWhile(s, NotPySpace) == a by {
      assert s == a + [' '] + b;
      TakeWhileStops(a, ' ', b, NotPySpace);
    }
    assert s[0] == a[0] && s[|a|..] == " " + b;
  }

  lemma {:induction false} TakeWhileWhole(s: string, p: char -> bool)
    requires AllChars(s, p)
    ensures TakeWhile(s, p) == s
    decreases |s|
  {
    if s != [] {
      TakeWhileWhole(s[1..], p);
      assert [s[0]] + s[1..] == s;
    }
  }

  function TakeWhile(s: string, p: char -> bool): (r: string)
    ensures |r| <= |s| && r == s[..|r|]
    ensures forall i :: 0 <= i < |r| ==> p(r[i])
    ensures |r| < |s| ==> !p(s[|r|])
    decreases |s|
  {
    if s != [] && p(s[0]) then [s[0]] + TakeWhile(s[1..], p) else []
  }

  /** `TakeWhile` stops at the first character failing `p`. */
  lemma {:induction false} TakeWhileStops(s: string, stop: char, rest: string, p: char -> bool)
    requires AllChars(s, p) && !p(stop)
    ensures TakeWhile(s + [stop] + rest, p) == s
    decreases |s|
  {
    var t := s + [stop] + rest;
    if s != [] {
      assert t[1..] == s[1..] + [stop] + rest;
      TakeWhileStops(s[1..], stop, rest, p);
      assert [s[0]] + s[1..] == s;
    } else {
      assert t[0] == stop;
    }
  }

  /** A run of `p`-characters followed by the end or by a character failing `p` is what `TakeWhile` takes. */
  lemma {:induction false} TakeWhileRun(s: string, run: string, p: char -> bool)
    requires |run| <= |s| && s[..|run|] == run && AllChars(run, p)
    requires |run| == |s| || !p(s[|run|])
    ensures TakeWhile(s, p) == run
    decreases |run|
  {
    if run != [] {
      assert s[1..][..|run| - 1] == run[1..];
      TakeWhileRun(s[1..], run[1..], p);
      assert [s[0]] + run[1..] == run;
    }
  }

  /** `TakeWhile` stops at or before a character failing `p`. */
  lemma TakeWhileBound(s: string, k: nat, p: char -> bool)
    requires k < |s| && !p(s[k])
    ensures |TakeWhile(s, p)| <= k
  {
    var r := TakeWhile(s, p);
    assert forall i :: 0 <= i < |r| ==> r[i] == s[i];
  }

  predicate AllChars(s: string, p: char -> bool)
  {
    forall i :: 0 <= i < |s| ==> p(s[i])
  }

  function Filter(s: string, p: char -> bool): (r: string)
    ensures |r| <= |s|
    ensures AllChars(r, p)
  {
    if s == [] then [] else (if p(s[0]) then [s[0]] else []) + Filter(s[1..], p)
  }

  lemma {:induction false} FilterKeepsAll(s: string, p: char -> bool)
    requires AllChars(s, p)
    ensures Filter(s, p) == s
    decreases |s|
  {
    if s != [] {
      FilterKeepsAll(s[1..], p);
      assert [s[0]] + s[1..] == s;
    }
  }

  // ---------------------------------------------------------------------------
  // Regrouping concatenations

  lemma ConcatAssoc<T>(a: seq<T>, b: seq<T>, c: seq<T>)
    ensures (a + b) + c == a + (b + c)
  {
  }

  lemma Regroup4<T>(a: seq<T>, b: seq<T>, c: seq<T>, d: seq<T>)
    ensures a + b + c + d == a + (b + (c + d))
  {
  }

  lemma Regroup<T>(a: seq<T>, b: seq<T>, c: seq<T>, d: seq<T>, e: seq<T>)
    ensures a + b + c + d + e == a + (b + (c + (d + e)))
  {
  }

  // ---------------------------------------------------------------------------
  // Substrings

  predicate StartsWith(s: string, p: string) { |p| <= |s| && s[..|p|] == p }
  predicate EndsWith(s: string, p: string) { |p| <= |s| && s[|s| - |p|..] == p }
  predicate OccursAt(s: string, p: string, i: nat) { i + |p| <= |s| && s[i..i + |p|] == p }
  predicate Contains(s: string, p: string) { exists i :: 0 <= i <= |s| && OccursAt(s, p, i) }

  /** Leftmost occurrence of `p` in `s` at or after `from`. */
  function IndexFrom(s: string, p: string, from: nat): (r: Option<nat>)
    ensures r.Some? ==> from <= r.value && OccursAt(s, p, r.value)
    ensures r.Some? ==> forall j :: from <= j < r.value ==> !OccursAt(s, p, j)
    ensures r.None? ==> forall j :: from <= j <= |s| ==> !OccursAt(s, p, j)
    decreases |s| - from
  {
    if from + |p| > |s| then None
    else if s[from..from + |p|] == p then Some(from)
    else IndexFrom(s, p, from + 1)
  }

  function IndexOf(s: string, p: string): (r: Option<nat>)
    ensures r.Some? ==> OccursAt(s, p, r.value) && forall j :: 0 <= j < r.value ==> !OccursAt(s, p, j)
    ensures r.None? ==> forall j :: 0 <= j <= |s| ==> !OccursAt(s, p, j)
  {
    IndexFrom(s, p, 0)
  }

  lemma IndexOfContains(s: string, p: string)
    ensures IndexOf(s, p).Some? <==> Contains(s, p)
  {
    if IndexOf(s, p).Some? {
      assert OccursAt(s, p, IndexOf(s, p).value);
    }
  }

  /** Leftmost occurrence of a character. */
  function IndexOfChar(s: string, c: char): (r: Option<nat>)
    ensures r.Some? ==> r.value < |s| && s[r.value] == c && forall j :: 0 <= j < r.value ==> s[j] != c
    ensures r.None? ==> forall j :: 0 <= j < |s| ==> s[j] != c
    decreases |s|
  {
    if s == [] then None
    else if s[0] == c then Some(0)
    else match IndexOfChar(s[1..], c) case None => None case Some(k) => Some(k + 1)
  }

  /** The text before the first occurrence of `sep` (`s.split(sep)[0]`). */
  function Before(s: string, sep: string): (r: string)
    ensures |r| <= |s|
  {
    match IndexOf(s, sep) case None => s case Some(i) => s[..i]
  }

  /** The text before a first occurrence at `i`. */
  lemma BeforeAt(s: string, sep: string, i: nat)
    requires OccursAt(s, sep, i) && forall j :: 0 <= j < i ==> !OccursAt(s, sep, j)
    ensures Before(s, sep) == s[..i]
  {
  }

  /** A text missing one of the characters of `p` does not contain `p`. */
  lemma MissingCharNotContains(s: string, p: string, k: nat)
    requires k < |p| && p[k] !in s
    ensures !Contains(s, p)
  {
  }

  /** A text without the separator is kept whole. */
  lemma BeforeAbsent(s: string, sep: string)
    requires !Contains(s, sep)
    ensures Before(s, sep) == s
  {
    IndexOfContains(s, sep);
  }

  /** `s.replace(p, q)`: every leftmost, non-overlapping occurrence of a
    * non-empty `p` replaced by `q`. */
  function ReplaceAll(s: string, p: string, q: string): (r: string)
    requires p != []
    decreases |s|
  {
    if |s| < |p| then s
    else if s[..|p|] == p then q + ReplaceAll(s[|p|..], p, q)
    else [s[0]] + ReplaceAll(s[1..], p, q)
  }

  lemma {:induction false} ReplaceAbsent(s: string, p: string, q: string)
    requires p != [] && p[0] !in s
    ensures ReplaceAll(s, p, q) == s
    decreases |s|
  {
    if |s| >= |p| {
      assert s[0] != p[0];
      assert s[..|p|] != p;
      ReplaceAbsent(s[1..], p, q);
      assert [s[0]] + s[1..] == s;
    }
  }

  lemma {:induction false} CountPositive(s: string, c: char)
    requires c in s
    ensures Count(s, c) >= 1
    decreases |s|
  {
    if s[0] != c { CountPositive(s[1..], c); }
  }

  /** Stripping adds no character. */
  lemma StripNoChar(s: string, sp: char -> bool, c: char)
    requires c !in s
    ensures c !in Strip(s, sp)
  {
    assert c !in LStrip(s, sp);
  }

  /** Stripping keeps every character that is not blank. */
  lemma StripKeepsChar(s: string, sp: char -> bool, i: nat)
    requires i < |s| && !sp(s[i])
    ensures s[i] in Strip(s, sp)
  {
    var l := LStrip(s, sp);
    assert i >= |s| - |l|;
    assert l[i - (|s| - |l|)] == s[i];
    var r := RStrip(l, sp);
    assert i - (|s| - |l|) < |r|;
    assert r[i - (|s| - |l|)] == s[i];
  }

  /** Replacing a pattern keeps every character the pattern does not hold. */
  lemma {:induction false} ReplaceKeepsChar(s: string, p: string, q: string, c: char)
    requires p != [] && c in s && c !in p
    ensures c in ReplaceAll(s, p, q)
    decreases |s|
  {
    if |s| < |p| {
    } else if s[..|p|] == p {
      var i :| 0 <= i < |s| && s[i] == c;
      assert i >= |p|;
      assert s[|p|..][i - |p|] == c;
      ReplaceKeepsChar(s[|p|..], p, q, c);
    } else if s[0] != c {
      var i :| 0 <= i < |s| && s[i] == c;
      assert s[1..][i - 1] == c;
      ReplaceKeepsChar(s[1..], p, q, c);
    }
  }

  // ---------------------------------------------------------------------------
  // Numbers and case

  function DigitChar(d: nat): char
    requires d < 10
  {
    ['0','1','2','3','4','5','6','7','8','9'][d]
  }

  /** Decimal rendering of a natural number, as `str(n)` / `${n}` print it. */
  function NatToString(n: nat): (r: string)
    ensures r != [] && AllDigits(r)
    decreases n
  {
    if n < 10 then [DigitChar(n)] else NatToString(n / 10) + [DigitChar(n % 10)]
  }

  function IntToString(n: int): string
  {
    if n < 0 then "-" + NatToString(-n) else NatToString(n)
  }

  /** Lower-casing of the letters of Basic Latin and Latin-1 (the letters
    * this system's Portuguese and English texts are written in). */
  function LowerChar(c: char): char
  {
    if 'A' <= c <= 'Z' then (c as int + 32) as char
    else if ('\U{c0}' <= c <= '\U{de}') && c != '\U{d7}' then (c as int + 32) as char
    else c
  }

  function UpperChar(c: char): char
  {
    if 'a' <= c <= 'z' then (c as int - 32) as char
    else if ('\U{e0}' <= c <= '\U{fe}') && c != '\U{f7}' then (c as int - 32) as char
    else c
  }

  function Lower(s: string): (r: string)
    ensures |r| == |s| && forall i :: 0 <= i < |s| ==> r[i] == LowerChar(s[i])
  {
    seq(|s|, i requires 0 <= i < |s| => LowerChar(s[i]))
  }

  /** Case-insensitive substring test on lower-cased text. */
  predicate ContainsFolded(s: string, p: string)
  {
    Contains(Lower(s), Lower(p))
  }

  // ---------------------------------------------------------------------------
  // Ordering

  /** Code-point lexicographic order, as Python's `sorted` compares strings. */
  predicate Less(a: string, b: string)
    decreases |a|
  {
    if a == [] then b != []
    else if b == [] then false
    else if a[0] != b[0] then a[0] < b[0]
    else Less(a[1..], b[1..])
  }

  lemma {:induction false} LessIrreflexive(a: string)
    ensures !Less(a, a)
    decreases |a|
  {
    if a != [] { LessIrreflexive(a[1..]); }
  }

  lemma {:induction false} LessTotal(a: string, b: string)
    ensures a == b || Less(a, b) || Less(b, a)
    decreases |a|
  {
    if a != [] && b != [] && a[0] == b[0] {
      LessTotal(a[1..], b[1..]);
      if a[1..] == b[1..] {
        assert a == [a[0]] + a[1..] && b == [b[0]] + b[1..];
      }
    }
  }

  lemma {:induction false} LessAsymmetric(a: string, b: string)
    requires Less(a, b)
    ensures !Less(b, a)
    decreases |a|
  {
    if a != [] && b != [] && a[0] == b[0] { LessAsymmetric(a[1..], b[1..]); }
  }

  lemma {:induction false} LessTransitive(a: string, b: string, c: string)
    requires Less(a, b) && Less(b, c)
    ensures Less(a, c)
    decreases |a|
  {
    if a != [] && b != [] && c != [] && a[0] == b[0] && b[0] == c[0] {
      LessTransitive(a[1..], b[1..], c[1..]);
    }
  }

  predicate StrictlySorted(xs: seq<string>)
  {
    forall i, j :: 0 <= i < j < |xs| ==> Less(xs[i], xs[j])
  }
}
