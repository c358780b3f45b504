/** Matchers for the few JavaScript regular-expression shapes the editor and
  * PDF code use: a lazy group `(.+?)` followed by a closing literal, where
  * `.` matches anything but a line terminator. */
module JsPatterns {
  import opened Strings

  /** No line terminator in `t[..k]`. */
  predicate DotsOnly(t: string, k: nat)
    requires k <= |t|
  {
    forall j :: 0 <= j < k ==> !IsLineTerminator(t[j])
  }

  /** The group `.+?` that `close` ends, matched at the start of `t`: the
    * shortest non-empty run of non-terminators followed by `close`. */
  function Lazy(t: string, close: string): (r: Option<nat>)
    ensures r.Some? ==> 1 <= r.value <= |t| && DotsOnly(t, r.value) && StartsWith(t[r.value..], close)
    ensures r.Some? ==> forall j :: 1 <= j < r.value ==> !StartsWith(t[j..], close)
    ensures r.None? ==> forall k :: 1 <= k <= |t| && DotsOnly(t, k) ==> !StartsWith(t[k..], close)
  {
    if t == [] || IsLineTerminator(t[0]) then None else LazyFrom(t, close, 1)
  }

  function LazyFrom(t: string, close: string, k: nat): (r: Option<nat>)
    requires 1 <= k <= |t| && DotsOnly(t, k)
    requires forall j :: 1 <= j < k ==> !StartsWith(t[j..], close)
    ensures r.Some? ==> k <= r.value <= |t| && DotsOnly(t, r.value) && StartsWith(t[r.value..], close)
    ensures r.Some? ==> forall j :: 1 <= j < r.value ==> !StartsWith(t[j..], close)
    ensures r.None? ==> forall m :: 1 <= m <= |t| && DotsOnly(t, m) ==> !StartsWith(t[m..], close)
    decreases |t| - k
  {
    if StartsWith(t[k..], close) then Some(k)
    else if k == |t| || IsLineTerminator(t[k]) then None
    else LazyFrom(t, close, k + 1)
  }

  /** A group with no terminator and no occurrence of a one-character
    * close, followed by that close, is taken whole. */
  lemma LazyWhole(w: string, c: char, rest: string)
    requires w != [] && c !in w && DotsOnly(w, |w|)
    ensures Lazy(w + [c] + rest, [c]) == Some(|w|)
  {
    var t := w + [c] + rest;
    assert t[|w|..][..1] == [c];
    assert DotsOnly(t, |w|) by {
      forall j | 0 <= j < |w| ensures t[j] == w[j] { }
    }
    forall j | 1 <= j < |w| ensures !StartsWith(t[j..], [c]) {
      assert t[j..][0] == w[j];
    }
    assert StartsWith(t[|w|..], [c]);
  }
}
