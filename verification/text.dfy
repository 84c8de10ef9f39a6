/** The pieces of Python's `str` behaviour that the modelled code relies on:
    whitespace as `str.isspace()` sees it, `str.strip()` with no argument,
    and the leftmost occurrence of a substring. */
module PyText {
  import opened Wrappers

  /** The characters for which `str.isspace()` holds: the ASCII controls
      TAB, LF, VT, FF, CR, FS, GS, RS, US and the space, and the Unicode spaces and
      separators NEL, NBSP, U+1680, U+2000..U+200A, U+2028, U+2029, U+202F,
      U+205F and U+3000. */
  predicate IsSpace(c: char) {
    if c <= ' ' then
      ('\t' <= c <= '\r') || ('\U{1C}' <= c)
    else if c < '\U{2000}' then
      c == '\U{85}' || c == '\U{A0}' || c == '\U{1680}'
    else
      c <= '\U{200A}' || c == '\U{2028}' || c == '\U{2029}'
      || c == '\U{202F}' || c == '\U{205F}' || c == '\U{3000}'
  }


  /** Every character of `s` in the index range [a, b) is whitespace. */
  predicate BlankBetween(s: string, a: int, b: int)
    requires 0 <= a && b <= |s|
  {
    forall m :: a <= m < b ==> IsSpace(s[m])
  }

  /** Every character of `s` is whitespace (vacuously so for ""). */
  predicate IsBlank(s: string) {
    BlankBetween(s, 0, |s|)
  }

  /** `s` is empty or begins and ends with a non-whitespace character. */
  predicate IsTrimmed(s: string) {
    s == [] || (!IsSpace(s[0]) && !IsSpace(s[|s| - 1]))
  }

  /** `pat` occurs in `s` starting at index `i`. */
  predicate OccursAt(s: string, pat: string, i: int) {
    0 <= i && i + |pat| <= |s| && s[i..i + |pat|] == pat
  }

  /** `str.endswith`: `s` ends with `tail`. */
  predicate EndsWith(s: string, tail: string) {
    |tail| <= |s| && s[|s| - |tail|..] == tail
  }

  /** `t` is a contiguous substring of `s`. */
  predicate IsInfix(t: string, s: string) {
    exists i :: 0 <= i <= |s| && OccursAt(s, t, i)
  }

  /** Every slice of `s` is a substring of it. */
  lemma SliceIsInfix(s: string, lo: int, hi: int)
    requires 0 <= lo <= hi <= |s|
    ensures IsInfix(s[lo..hi], s)
  {
    assert OccursAt(s, s[lo..hi], lo);
  }

  /** A substring is no longer than the string it occurs in. */
  lemma InfixNoLonger(t: string, s: string)
    requires IsInfix(t, s)
    ensures |t| <= |s|
  {
    var i :| 0 <= i <= |s| && OccursAt(s, t, i);
  }

  /** Cutting `s` to `s[lo..hi]` removes only whitespace. */
  predicate BlankCut(s: string, lo: int, hi: int) {
    0 <= lo <= hi <= |s| && BlankBetween(s, 0, lo) && BlankBetween(s, hi, |s|)
  }

  /** The index of the first non-whitespace character at or after `i`
      (|s| when there is none). */
  function SkipSpaceForward(s: string, i: nat): (k: nat)
    requires i <= |s|
    decreases |s| - i
    ensures i <= k <= |s|
  {
    if i < |s| && IsSpace(s[i]) then SkipSpaceForward(s, i + 1) else i
  }

  /** `SkipSpaceForward` passes over whitespace only and stops at a
      non-whitespace character or at the end. */
  lemma {:induction false} SkipSpaceForwardStops(s: string, i: nat)
    requires i <= |s|
    ensures var k := SkipSpaceForward(s, i);
      BlankBetween(s, i, k) && (k < |s| ==> !IsSpace(s[k]))
    decreases |s| - i
  {
    if i < |s| && IsSpace(s[i]) {
      SkipSpaceForwardStops(s, i + 1);
    }
  }

  /** The smallest `k` in [lo, j] such that s[k..j] is all whitespace. */
  function SkipSpaceBackward(s: string, lo: nat, j: nat): (k: nat)
    requires lo <= j <= |s|
    decreases j
    ensures lo <= k <= j
  {
    if lo < j && IsSpace(s[j - 1]) then SkipSpaceBackward(s, lo, j - 1) else j
  }

  /** `SkipSpaceBackward` passes over whitespace only and stops after a
      non-whitespace character or at `lo`. */
  lemma {:induction false} SkipSpaceBackwardStops(s: string, lo: nat, j: nat)
    requires lo <= j <= |s|
    ensures var k := SkipSpaceBackward(s, lo, j);
      BlankBetween(s, k, j) && (lo < k ==> !IsSpace(s[k - 1]))
    decreases j
  {
    if lo < j && IsSpace(s[j - 1]) {
      SkipSpaceBackwardStops(s, lo, j - 1);
    }
  }

  /** Where the result of `str.strip()` begins. */
  function StripStart(s: string): (lo: nat)
    ensures lo <= |s|
  {
    SkipSpaceForward(s, 0)
  }

  /** Where the result of `str.strip()` ends. */
  function StripEnd(s: string): (hi: nat)
    ensures StripStart(s) <= hi <= |s|
  {
    SkipSpaceBackward(s, StripStart(s), |s|)
  }

  /** `str.strip()` with no argument: leading and trailing whitespace
      removed. */
  function Strip(s: string): (r: string)
    ensures |r| <= |s|
  {
    s[StripStart(s)..StripEnd(s)]
  }

  /** What `Strip` removes at either end is whitespace. */
  lemma StripCut(s: string)
    ensures BlankCut(s, StripStart(s), StripEnd(s))
  {
    SkipSpaceForwardStops(s, 0);
    SkipSpaceBackwardStops(s, StripStart(s), |s|);
  }

  /** `str.strip()`: the result is `s` cut down by whitespace only, it
      cannot be cut further, and it is empty exactly when `s` is blank. */
  lemma StripSpec(s: string)
    ensures exists lo, hi :: BlankCut(s, lo, hi) && Strip(s) == s[lo..hi]
    ensures IsTrimmed(Strip(s))
    ensures Strip(s) == [] <==> IsBlank(s)
  {
    var lo, hi := StripStart(s), StripEnd(s);
    var r := Strip(s);
    SkipSpaceForwardStops(s, 0);
    SkipSpaceBackwardStops(s, lo, |s|);
    assert BlankCut(s, lo, hi) && r == s[lo..hi];
    if lo == hi {
      BlankCutOfEmpty(s, lo, hi);
    } else {
      assert r[0] == s[lo] && r[|r| - 1] == s[hi - 1];
      assert !IsSpace(r[0]);
    }
  }

  /** The stripped text is a substring of the original. */
  lemma StripIsInfix(s: string)
    ensures IsInfix(Strip(s), s)
  {
    SliceIsInfix(s, StripStart(s), StripEnd(s));
  }

  /** Stripping a string that has nothing to strip returns it unchanged. */
  lemma StripTrimmed(s: string)
    requires IsTrimmed(s)
    ensures Strip(s) == s
  {
    assert s[0..|s|] == s;
    StripUnique(s, 0, |s|);
  }

  /** `str.strip()` is idempotent. */
  lemma StripIdempotent(s: string)
    ensures Strip(Strip(s)) == Strip(s)
  {
    StripSpec(s);
    StripTrimmed(Strip(s));
  }

  /** `Strip` is the only trimmed string obtained from `s` by removing
      whitespace at both ends, so the characterisation in `StripSpec`
      determines it. */
  lemma StripUnique(s: string, lo: int, hi: int)
    requires BlankCut(s, lo, hi)
    requires IsTrimmed(s[lo..hi])
    ensures Strip(s) == s[lo..hi]
  {
    var r := Strip(s);
    var lo', hi' := StripStart(s), StripEnd(s);
    StripCut(s);
    StripSpec(s);
    if lo == hi {
      BlankCutOfEmpty(s, lo, hi);
    } else if lo' == hi' {
      BlankCutOfEmpty(s, lo', hi');
    } else {
      assert s[lo..hi][0] == s[lo];
      assert r[0] == s[lo'];
      SameFirstNonSpace(s, lo, lo');
      assert s[lo..hi][hi - lo - 1] == s[hi - 1];
      assert r[hi' - lo' - 1] == s[hi' - 1];
      SameLastNonSpace(s, hi, hi');
    }
  }

  /** A cut that leaves nothing shows the whole string is blank. */
  lemma BlankCutOfEmpty(s: string, lo: int, hi: int)
    requires BlankCut(s, lo, hi) && lo == hi
    ensures IsBlank(s)
  {
    assert forall m :: 0 <= m < |s| ==> (m < lo && IsSpace(s[m])) || (hi <= m && IsSpace(s[m]));
  }

  /** Two blank prefixes each followed by a non-space character have the same length. */
  lemma SameFirstNonSpace(s: string, a: int, b: int)
    requires 0 <= a < |s| && 0 <= b < |s|
    requires BlankBetween(s, 0, a) && BlankBetween(s, 0, b)
    requires !IsSpace(s[a]) && !IsSpace(s[b])
    ensures a == b
  {
  }

  /** Two blank suffixes each preceded by a non-space character have the same length. */
  lemma SameLastNonSpace(s: string, a: int, b: int)
    requires 0 < a <= |s| && 0 < b <= |s|
    requires BlankBetween(s, a, |s|) && BlankBetween(s, b, |s|)
    requires !IsSpace(s[a - 1]) && !IsSpace(s[b - 1])
    ensures a == b
  {
  }

  /** A blank string strips to "". */
  lemma StripBlank(s: string)
    requires IsBlank(s)
    ensures Strip(s) == []
  {
    StripSpec(s);
  }

  /** Leftmost occurrence of `pat` in `s` at or after index `from`. */
  function FindFrom(s: string, pat: string, from: nat): (r: Option<nat>)
    decreases |s| - from
    ensures r.Some? ==> from <= r.value && OccursAt(s, pat, r.value)
    ensures forall k :: from <= k && (r.None? || k < r.value) ==> !OccursAt(s, pat, k)
  {
    if from + |pat| > |s| then None
    else if s[from..from + |pat|] == pat then Some(from)
    else FindFrom(s, pat, from + 1)
  }

  /** An occurrence with none before it, from `from` on, is the one found. */
  lemma FindFromFirst(s: string, pat: string, from: nat, i: int)
    requires from <= i && OccursAt(s, pat, i)
    requires forall k :: from <= k < i ==> !OccursAt(s, pat, k)
    ensures FindFrom(s, pat, from) == Some(i)
  {
    var r := FindFrom(s, pat, from);
    assert r.Some?;
    assert !(r.value < i);
  }

  /** Leftmost index of the character `c` in `s` at or after `from`. */
  function CharFrom(s: string, c: char, from: nat): (r: Option<nat>)
    decreases |s| - from
    ensures r.Some? ==> from <= r.value < |s| && s[r.value] == c
    ensures forall k :: from <= k < |s| && (r.None? || k < r.value) ==> s[k] != c
  {
    if from >= |s| then None
    else if s[from] == c then Some(from)
    else CharFrom(s, c, from + 1)
  }
}
