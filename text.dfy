/** Whitespace trimming as Python's `str.strip()` with no argument does it:
    every leading and every trailing character for which `str.isspace()`
    holds is removed, and nothing in between is touched. */
module Text {

  /** The characters Python's `str.isspace()` accepts: the ASCII controls
      TAB, LF, VT, FF, CR and FS, GS, RS, US, then SPACE, NEL, NO-BREAK
      SPACE, OGHAM SPACE MARK, the typographic spaces U+2000..U+200A, LINE
      and PARAGRAPH SEPARATOR, NARROW NO-BREAK SPACE, MEDIUM MATHEMATICAL
      SPACE and IDEOGRAPHIC SPACE. */
  const Whitespace: set<char> := {
    '\t', '\n', '\U{B}', '\U{C}', '\r',
    '\U{1C}', '\U{1D}', '\U{1E}', '\U{1F}', ' ',
    '\U{85}', '\U{A0}', '\U{1680}',
    '\U{2000}', '\U{2001}', '\U{2002}', '\U{2003}', '\U{2004}', '\U{2005}',
    '\U{2006}', '\U{2007}', '\U{2008}', '\U{2009}', '\U{200A}',
    '\U{2028}', '\U{2029}', '\U{202F}', '\U{205F}', '\U{3000}'
  }

  predicate IsSpace(c: char) {
    c in Whitespace
  }

  predicate AllSpace(s: string) {
    forall i :: 0 <= i < |s| ==> IsSpace(s[i])
  }

  /** True when `s` has no whitespace at either end (the empty string has none). */
  predicate Stripped(s: string) {
    s == [] || (!IsSpace(s[0]) && !IsSpace(s[|s| - 1]))
  }

  /** The first index at or after `i` that does not hold whitespace, or
      `|s|` when there is none: how far the left end of a strip moves. */
  function SkipStart(s: string, i: nat): (j: nat)
    requires i <= |s|
    ensures i <= j <= |s|
    ensures forall k :: i <= k < j ==> IsSpace(s[k])
    ensures j < |s| ==> !IsSpace(s[j])
    decreases |s| - i
  {
    if i < |s| && IsSpace(s[i]) then SkipStart(s, i + 1) else i
  }

  /** The end of `s[lo..j]` once its trailing whitespace is dropped: how
      far the right end of a strip moves, never past the left end `lo`. */
  function SkipEnd(s: string, lo: nat, j: nat): (k: nat)
    requires lo <= j <= |s|
    ensures lo <= k <= j
    ensures forall m :: k <= m < j ==> IsSpace(s[m])
    ensures lo < k ==> !IsSpace(s[k - 1])
    decreases j
  {
    if lo < j && IsSpace(s[j - 1]) then SkipEnd(s, lo, j - 1) else j
  }

  /** Python's `s.strip()`: the left end moves past the leading
      whitespace, then the right end moves back past the trailing
      whitespace. The result is empty exactly when `s` is all whitespace,
      and otherwise neither starts nor ends with whitespace. */
  function Trim(s: string): (r: string)
    ensures |r| <= |s|
    ensures r == [] <==> AllSpace(s)
    ensures Stripped(r)
  {
    var i := SkipStart(s, 0);
    var j := SkipEnd(s, i, |s|);
    assert i == j ==> AllSpace(s) by {
      if i == j {
        forall k | 0 <= k < |s| ensures IsSpace(s[k]) {
        }
      }
    }
    assert AllSpace(s) ==> i == |s|;
    s[i..j]
  }

  /** Trim only cuts whitespace off the two ends: `s` is the trimmed
      string with a whitespace margin of `k` characters before it and an
      all-whitespace remainder after it. */
  lemma TrimMargins(s: string) returns (k: nat)
    ensures k + |Trim(s)| <= |s|
    ensures Trim(s) == s[k..k + |Trim(s)|]
    ensures AllSpace(s[..k]) && AllSpace(s[k + |Trim(s)|..])
  {
    k := SkipStart(s, 0);
    var j := SkipEnd(s, k, |s|);
    assert Trim(s) == s[k..j];
    assert AllSpace(s[..k]) by {
      forall m | 0 <= m < k ensures IsSpace(s[..k][m]) {
        assert s[..k][m] == s[m];
      }
    }
    assert AllSpace(s[j..]) by {
      forall m | 0 <= m < |s| - j ensures IsSpace(s[j..][m]) {
        assert s[j..][m] == s[j + m];
      }
    }
  }

  /** The left end stops at the first character that is not whitespace. */
  lemma {:induction false} SkipStartStops(s: string, i: nat, p: nat)
    requires i <= p <= |s|
    requires forall k :: i <= k < p ==> IsSpace(s[k])
    requires p < |s| ==> !IsSpace(s[p])
    ensures SkipStart(s, i) == p
    decreases p - i
  {
    if i < p {
      SkipStartStops(s, i + 1, p);
    }
  }

  /** The right end stops after the last character that is not whitespace. */
  lemma {:induction false} SkipEndStops(s: string, lo: nat, j: nat, p: nat)
    requires lo <= p <= j <= |s|
    requires forall m :: p <= m < j ==> IsSpace(s[m])
    requires lo < p ==> !IsSpace(s[p - 1])
    ensures SkipEnd(s, lo, j) == p
    decreases j
  {
    if p < j {
      SkipEndStops(s, lo, j - 1, p);
    }
  }

  /** Trim has exactly one answer: whatever whitespace margins surround a
      string with no whitespace at its ends, trimming recovers that string. */
  lemma TrimOfPadded(a: string, t: string, b: string)
    requires AllSpace(a) && AllSpace(b) && Stripped(t)
    ensures Trim(a + t + b) == t
  {
    var s := a + t + b;
    forall k | 0 <= k < |a| ensures IsSpace(s[k]) {
      assert s[k] == a[k];
    }
    forall m | |a| + |t| <= m < |s| ensures IsSpace(s[m]) {
      assert s[m] == b[m - |a| - |t|];
    }
    if t == [] {
      SkipStartStops(s, 0, |s|);
      SkipEndStops(s, |s|, |s|, |s|);
    } else {
      assert s[|a|] == t[0];
      assert s[|a| + |t| - 1] == t[|t| - 1];
      SkipStartStops(s, 0, |a|);
      SkipEndStops(s, |a|, |s|, |a| + |t|);
      assert s[|a|..|a| + |t|] == t;
    }
  }

  /** Trimming twice is trimming once. */
  lemma TrimIdempotent(s: string)
    ensures Trim(Trim(s)) == Trim(s)
  {
    var t := Trim(s);
    assert [] + t + [] == t;
    TrimOfPadded([], t, []);
  }
}
