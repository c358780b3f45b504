/** Turning a LaTeX fragment into the plain text the converter writes
  * (`clean_latex_text` and `clean_text_for_word` in
  * `core/scripts/Latex2word.py`). */
module LatexClean {
  import opened Strings
  import opened Scan
  import opened BibStore
  import opened Citations

  predicate NotNewline(c: char) { c != '\n' }

  /** `%.*$` under `re.MULTILINE`: a `%` and the rest of its line. */
  function CommentAt(s: string): (r: Option<Hit>)
    ensures r.Some? <==> s != [] && s[0] == '%'
    ensures r.Some? ==> 1 <= r.value.len <= |s| && r.value.repl == []
  {
    if s != [] && s[0] == '%' then Some(Hit(1 + |TakeWhile(s[1..], NotNewline)|, "", [])) else None
  }

  function StripComments(s: string): string
  {
    Sub(s, CommentAt).out
  }

  /** A rewrite of the converter's table: a literal pattern, or a command with
    * one braced argument (`[^}]+`, or `[^}]*` when `emptyOk`) replaced by
    * `before`, the argument when `keepArg`, and `after`. */
  datatype Rewrite =
    | Literal(pat: string, rep: string)
    | Braced(cmd: string, emptyOk: bool, before: string, keepArg: bool, after: string)

  /** The table, in the order the converter applies it. */
  const Rewrites: seq<Rewrite> := [
    Braced("\\textbf", false, "**", true, "**"),
    Braced("\\textit", false, "*", true, "*"),
    Braced("\\emph", false, "*", true, "*"),
    Braced("\\textsc", false, "", true, ""),
    Literal("\\&", "&"),
    Literal("\\$", "$"),
    Literal("\\%", "%"),
    Literal("\\_", "_"),
    Literal("\\#", "#"),
    Literal("\\textasciitilde", "~"),
    Literal("\\textbackslash", "\\"),
    Literal("\\\\", "\n"),
    Literal("\\newline", "\n"),
    Literal("\\newpage", "\n\n"),
    Literal("\\clearpage", "\n\n"),
    Literal("\\par", "\n\n"),
    Literal("\\noindent", ""),
    Literal("\\indent", ""),
    Literal("\\ldots", "..."),
    Literal("\\dots", "..."),
    Literal("\\LaTeX", "LaTeX"),
    Literal("\\TeX", "TeX"),
    Literal("\\,", " "),
    Literal("\\;", " "),
    Literal("\\quad", "    "),
    Literal("\\qquad", "        "),
    Literal("\\xspace", ""),
    Literal("\\@", ""),
    Braced("\\label", true, "", false, ""),
    Braced("\\ref", true, "[REF]", false, ""),
    Braced("\\pageref", true, "[PAGE]", false, ""),
    Braced("\\cite", true, "[CITE]", false, "")
  ]

  /** Every pattern of the table starts with a backslash. */
  predicate Escaped(w: Rewrite)
  {
    match w
    case Literal(pat, _) => pat != [] && pat[0] == '\\'
    case Braced(cmd, _, _, _, _) => cmd != [] && cmd[0] == '\\'
  }

  function RewriteAt(w: Rewrite, s: string): Option<Hit>
  {
    match w
    case Literal(pat, rep) => LiteralAt(pat, rep, s)
    case Braced(cmd, emptyOk, before, keepArg, after) =>
      var open := |cmd| + 1;
      if !StartsWith(s, cmd + "{") then None
      else
        var g := TakeWhile(s[open..], NotCloseBrace);
        if (g == [] && !emptyOk) || open + |g| >= |s| then None
        else Some(Hit(open + |g| + 1, before + (if keepArg then g else "") + after, []))
  }

  function ApplyRewrites(ws: seq<Rewrite>, s: string): string
    decreases |ws|
  {
    if ws == [] then s else ApplyRewrites(ws[1..], Sub(s, t => RewriteAt(ws[0], t)).out)
  }

  predicate IsSpaceChar(c: char) { c == ' ' }

  /** ` +` replaced by one space. */
  function SpacesAt(s: string): Option<Hit>
  {
    if s != [] && s[0] == ' ' then Some(Hit(|TakeWhile(s, IsSpaceChar)|, " ", [])) else None
  }

  function SqueezeSpaces(s: string): string
  {
    Sub(s, SpacesAt).out
  }

  /** The position just after the last `c` of `s`, 0 if there is none. */
  function EndOfLast(s: string, c: char): (n: nat)
    ensures n <= |s| && (n > 0 ==> s[n - 1] == c)
    ensures forall i :: n <= i < |s| ==> s[i] != c
    decreases |s|
  {
    if s == [] then 0
    else if s[|s| - 1] == c then |s|
    else EndOfLast(s[..|s| - 1], c)
  }

  /** `\n\s*\n\s*\n+`: from a newline through the last newline of the blank
    * run that follows, when the run holds at least three newlines. */
  function BlankLinesAt(s: string): Option<Hit>
  {
    if s != [] && s[0] == '\n' then
      var w := TakeWhile(s, IsPySpace);
      if Count(w, '\n') >= 3 then Some(Hit(EndOfLast(w, '\n'), "\n\n", [])) else None
    else None
  }

  function CollapseBlankLines(s: string): string
  {
    Sub(s, BlankLinesAt).out
  }

  /** `clean_latex_text`: comments removed, citations resolved, the table of
    * rewrites applied, the text handed to `toText` (the LaTeX-to-text
    * library), runs of spaces squeezed, three or more line breaks
    * collapsed, and the ends stripped. Also returns the citation keys met. */
  function CleanLatex(bib: map<string, string>, toText: string -> string, text: string): Subbed
  {
    if text == [] then Subbed("", [])
    else
      var cited := ProcessCitations(bib, StripComments(text));
      var t := toText(ApplyRewrites(Rewrites, cited.out));
      Subbed(Tidy(t), cited.keys)
  }

  /** The final clean-up of `clean_latex_text`. */
  function Tidy(t: string): string
  {
    PyStrip(CollapseBlankLines(SqueezeSpaces(t)))
  }

  // ---------------------------------------------------------------------------
  // Text for Word

  /** The general categories Cc, Cf and Co (control, format, private use),
    * and the noncharacters, which are unassigned (Cn) in every version of
    * Unicode. */
  predicate IsOtherCategory(c: char)
  {
    IsNoncharacter(c) ||
    c <= '\U{1f}' || ('\U{7f}' <= c <= '\U{9f}')
    || c == '\U{ad}' || ('\U{600}' <= c <= '\U{605}') || c == '\U{61c}' || c == '\U{6dd}' || c == '\U{70f}'
    || ('\U{890}' <= c <= '\U{891}') || c == '\U{8e2}' || c == '\U{180e}' || ('\U{200b}' <= c <= '\U{200f}')
    || ('\U{202a}' <= c <= '\U{202e}') || ('\U{2060}' <= c <= '\U{2064}') || ('\U{2066}' <= c <= '\U{206f}')
    || c == '\U{feff}' || ('\U{fff9}' <= c <= '\U{fffb}') || c == '\U{110bd}' || c == '\U{110cd}'
    || ('\U{13430}' <= c <= '\U{1343f}') || ('\U{1bca0}' <= c <= '\U{1bca3}') || ('\U{1d173}' <= c <= '\U{1d17a}')
    || c == '\U{e0001}' || ('\U{e0020}' <= c <= '\U{e007f}')
    || ('\U{e000}' <= c <= '\U{f8ff}') || ('\U{f0000}' <= c <= '\U{ffffd}') || ('\U{100000}' <= c <= '\U{10fffd}')
  }

  /** U+FDD0 to U+FDEF, and the last two code points of every plane. */
  predicate IsNoncharacter(c: char)
  {
    ('\U{fdd0}' <= c <= '\U{fdef}') || (c as int) % 0x10000 >= 0xfffe
  }

  /** Tab, line feed and carriage return are kept; every other control,
    * format, private-use or noncharacter code point is dropped. */
  predicate KeepForWord(c: char)
  {
    c == '\t' || c == '\n' || c == '\r' || !IsOtherCategory(c)
  }

  /** `clean_text_for_word`. */
  function CleanForWord(s: string): (r: string)
    ensures AllChars(r, KeepForWord) && IsStripped(r, IsPySpace)
  {
    var f := Filter(s, KeepForWord);
    StripShape(f, IsPySpace);
    StripKeeps(f, KeepForWord, IsPySpace);
    PyStrip(f)
  }

  lemma StripKeeps(s: string, p: char -> bool, sp: char -> bool)
    requires AllChars(s, p)
    ensures AllChars(Strip(s, sp), p)
  {
    var l := LStrip(s, sp);
    assert forall i :: 0 <= i < |l| ==> l[i] == s[|s| - |l| + i];
  }

  // ---------------------------------------------------------------------------
  // Properties

  /** Cleaning for Word twice is cleaning once. */
  lemma CleanForWordIdempotent(s: string)
    ensures CleanForWord(CleanForWord(s)) == CleanForWord(s)
  {
    var r := CleanForWord(s);
    FilterKeepsAll(r, KeepForWord);
    StripOfStripped(r, IsPySpace);
  }

  /** A comment sign never survives comment removal; so the table's `\%`
    * rewrite only meets signs that citations bring back. */
  lemma NoPercentAfterComments(s: string)
    ensures '%' !in StripComments(s)
  {
    forall i | 0 <= i < |s| && s[i] == '%' ensures Fires(s[i..], CommentAt) {
      assert s[i..][0] == s[i];
    }
    SubAvoids(s, CommentAt, '%');
  }

  predicate NoDoubleSpace(t: string)
  {
    forall i :: 0 <= i < |t| - 1 ==> t[i] != ' ' || t[i + 1] != ' '
  }

  /** After squeezing no two spaces are adjacent. */
  lemma {:induction false} SqueezeNoDouble(s: string)
    ensures NoDoubleSpace(SqueezeSpaces(s))
    ensures SqueezeSpaces(s) != [] && SqueezeSpaces(s)[0] == ' ' ==> s != [] && s[0] == ' '
    decreases |s|
  {
    if s != [] {
      if s[0] == ' ' {
        var n := |TakeWhile(s, IsSpaceChar)|;
        SqueezeNoDouble(s[n..]);
      } else {
        SqueezeNoDouble(s[1..]);
      }
    }
  }

  /** Collapsing blank lines brings no two spaces together. */
  lemma {:induction false} CollapseNoDouble(s: string)
    requires NoDoubleSpace(s)
    ensures NoDoubleSpace(CollapseBlankLines(s))
    ensures CollapseBlankLines(s) != [] && CollapseBlankLines(s)[0] == ' ' ==> s != [] && s[0] == ' '
    decreases |s|
  {
    if s != [] {
      var h := BlankLinesAt(s);
      if h.Some? && 1 <= h.value.len <= |s| {
        var n := h.value.len;
        assert NoDoubleSpace(s[n..]) by {
          forall i | 0 <= i < |s[n..]| - 1 ensures s[n..][i] != ' ' || s[n..][i + 1] != ' ' {
            assert s[n..][i] == s[n + i] && s[n..][i + 1] == s[n + i + 1];
          }
        }
        CollapseNoDouble(s[n..]);
      } else {
        assert NoDoubleSpace(s[1..]) by {
          forall i | 0 <= i < |s[1..]| - 1 ensures s[1..][i] != ' ' || s[1..][i + 1] != ' ' {
            assert s[1..][i] == s[1 + i] && s[1..][i + 1] == s[i + 2];
          }
        }
        CollapseNoDouble(s[1..]);
      }
    }
  }

  /** The tidied text has no blank at either end and no two adjacent spaces. */
  lemma TidyShape(t: string)
    ensures IsStripped(Tidy(t), IsPySpace) && NoDoubleSpace(Tidy(t))
  {
    SqueezeNoDouble(t);
    CollapseNoDouble(SqueezeSpaces(t));
    StripNoDouble(CollapseBlankLines(SqueezeSpaces(t)));
  }

  /** Stripping takes a piece of the text, so it brings no spaces together. */
  lemma StripNoDouble(c: string)
    requires NoDoubleSpace(c)
    ensures IsStripped(PyStrip(c), IsPySpace) && NoDoubleSpace(PyStrip(c))
  {
    StripShape(c, IsPySpace);
    var l := LStrip(c, IsPySpace);
    var r := RStrip(l, IsPySpace);
    assert forall i :: 0 <= i < |r| ==> r[i] == c[|c| - |l| + i];
  }

  /** So does the cleaned text, whatever the LaTeX-to-text step returns. */
  lemma CleanLatexShape(bib: map<string, string>, toText: string -> string, text: string)
    ensures IsStripped(CleanLatex(bib, toText, text).out, IsPySpace)
    ensures NoDoubleSpace(CleanLatex(bib, toText, text).out)
  {
    if text != [] {
      var cited := ProcessCitations(bib, StripComments(text));
      TidyShape(toText(ApplyRewrites(Rewrites, cited.out)));
    }
  }

  /** Text without a backslash passes the whole table unchanged. */
  lemma {:induction false} RewritesPlain(ws: seq<Rewrite>, s: string)
    requires '\\' !in s
    requires forall i :: 0 <= i < |ws| ==> Escaped(ws[i])
    ensures ApplyRewrites(ws, s) == s
    decreases |ws|
  {
    if ws != [] {
      var w := ws[0];
      assert Escaped(w);
      forall i | 0 <= i < |s| ensures RewriteAt(w, s[i..]).None? {
        assert s[i..][0] == s[i];
      }
      SubNoMatch(s, t => RewriteAt(w, t));
      RewritesPlain(ws[1..], s);
    }
  }

  /** Every pattern in the converter's table starts with a backslash. */
  lemma TableEscaped()
    ensures forall i :: 0 <= i < |Rewrites| ==> Escaped(Rewrites[i])
  {
  }
}
