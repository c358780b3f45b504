/** Leftmost, non-overlapping scanning of a text with a matcher that is tried
  * at every position: the behaviour of Python's `re.sub` and `re.split` for
  * patterns that never match the empty string and look only forward. */
module Scan {
  import opened Strings

  /** A match found at the start of a suffix: its length, the text that
    * replaces it, and the citation keys its replacement consumed. */
  datatype Hit = Hit(len: nat, repl: string, keys: seq<string>)

  datatype Subbed = Subbed(out: string, keys: seq<string>)

  /** `re.sub(pattern, repl, s)`: `at(t)` reports a match at the start of `t`. */
  function Sub(s: string, at: string -> Option<Hit>): Subbed
    decreases |s|
  {
    if s == [] then Subbed("", [])
    else
      var h := at(s);
      if h.Some? && 1 <= h.value.len <= |s| then
        var rest := Sub(s[h.value.len..], at);
        Subbed(h.value.repl + rest.out, h.value.keys + rest.keys)
      else
        var rest := Sub(s[1..], at);
        Subbed([s[0]] + rest.out, rest.keys)
  }

  /** A text in which no position matches is left as it is. */
  lemma {:induction false} SubNoMatch(s: string, at: string -> Option<Hit>)
    requires forall i :: 0 <= i < |s| ==> at(s[i..]).None?
    ensures Sub(s, at) == Subbed(s, [])
    decreases |s|
  {
    if s != [] {
      assert s[0..] == s;
      forall i | 0 <= i < |s| - 1 ensures at(s[1..][i..]).None? {
        assert s[1..][i..] == s[i + 1..];
      }
      SubNoMatch(s[1..], at);
      assert [s[0]] + s[1..] == s;
    }
  }

  /** The matcher reports a match that the scan takes at the start of `t`. */
  predicate Fires(t: string, at: string -> Option<Hit>)
  {
    t != [] && at(t).Some? && 1 <= at(t).value.len <= |t|
  }

  /** A character that every match starting on it removes, and that no
    * replacement brings in, is absent from the output. */
  lemma {:induction false} SubAvoids(s: string, at: string -> Option<Hit>, c: char)
    requires forall i :: 0 <= i < |s| && s[i] == c ==> Fires(s[i..], at)
    requires forall t :: at(t).Some? ==> c !in at(t).value.repl
    ensures c !in Sub(s, at).out
    decreases |s|
  {
    if s != [] {
      assert s[0..] == s;
      var h := at(s);
      var n := if h.Some? && 1 <= h.value.len <= |s| then h.value.len else 1;
      forall i | 0 <= i < |s[n..]| && s[n..][i] == c ensures Fires(s[n..][i..], at) {
        assert s[n..][i..] == s[n + i..];
      }
      SubAvoids(s[n..], at, c);
    }
  }

  /** A literal pattern and its replacement. */
  function LiteralAt(pat: string, rep: string, s: string): Option<Hit>
  {
    if StartsWith(s, pat) then Some(Hit(|pat|, rep, [])) else None
  }

  /** Replacing at the front: a match at position 0 is replaced and the scan
    * resumes after it. */
  lemma SubFront(s: string, at: string -> Option<Hit>)
    requires s != [] && at(s).Some? && 1 <= at(s).value.len <= |s|
    ensures Sub(s, at).out == at(s).value.repl + Sub(s[at(s).value.len..], at).out
  {
  }

  /** `re.split(pattern, s)`: `at(t)` is the length of a match at the start of
    * `t`, 0 when there is none. */
  function SplitBy(s: string, at: string -> nat): (r: seq<string>)
    ensures |r| >= 1
    decreases |s|
  {
    if s == [] then [""]
    else
      var n := at(s);
      if 1 <= n <= |s| then [""] + SplitBy(s[n..], at)
      else var rest := SplitBy(s[1..], at); [[s[0]] + rest[0]] + rest[1..]
  }
}
