/** A small optional-value wrapper, used for "no link on this line" and for
    a failed fetch. */
module Wrappers {
  datatype Option<+T> = None | Some(value: T)
}

/** The few pieces of Python's `str` behaviour that the scraper leans on:
    `str.find` (which answers -1 when the pattern is absent), slicing with
    negative and out-of-range indices, and `str.strip(chars)`, which removes
    a SET of characters from both ends rather than a prefix. */
module PyStr {

  // ---------------------------------------------------------------------
  // str.find
  // ---------------------------------------------------------------------

  /** `pat` occurs in `s` starting at index `i`. */
  predicate OccursAt(s: string, pat: string, i: int) {
    0 <= i && i + |pat| <= |s| && s[i..i + |pat|] == pat
  }

  /** Python's `pat in s`. */
  predicate Contains(s: string, pat: string) {
    exists i :: 0 <= i <= |s| && OccursAt(s, pat, i)
  }

  /** The first occurrence of `pat` in `s` at or after `from`, or -1. */
  function FindFrom(s: string, pat: string, from: nat): (r: int)
    decreases |s| - from
    ensures r == -1 || (from <= r && OccursAt(s, pat, r))
    ensures forall j :: from <= j && (r == -1 || j < r) ==> !OccursAt(s, pat, j)
  {
    if from + |pat| > |s| then -1
    else if s[from..from + |pat|] == pat then from
    else FindFrom(s, pat, from + 1)
  }

  /** Python's `s.find(pat)`: the lowest index where `pat` occurs, or -1. */
  function Find(s: string, pat: string): (r: int)
    ensures r == -1 <==> !Contains(s, pat)
    ensures r != -1 ==> OccursAt(s, pat, r)
    ensures r != -1 ==> forall j :: 0 <= j < r ==> !OccursAt(s, pat, j)
  {
    FindFrom(s, pat, 0)
  }

  /** A piece of a piece of `a` is a piece of `a`. */
  lemma ContainsTransitive(a: string, b: string, c: string)
    requires Contains(a, b) && Contains(b, c)
    ensures Contains(a, c)
  {
    var i :| 0 <= i <= |a| && OccursAt(a, b, i);
    var j :| 0 <= j <= |b| && OccursAt(b, c, j);
    forall m | i + j <= m < i + j + |c| ensures a[m] == c[m - i - j] {
      assert a[m] == a[i..i + |b|][m - i] == b[m - i];
      assert b[m - i] == b[j..j + |c|][m - i - j];
    }
    assert a[i + j..i + j + |c|] == c;
    assert 0 <= i + j <= |a| && OccursAt(a, c, i + j);
  }

  /** Any occurrence with no earlier one is what `find` reports. */
  lemma FindIsFirstOccurrence(s: string, pat: string, i: int)
    requires OccursAt(s, pat, i)
    requires forall j :: 0 <= j < i ==> !OccursAt(s, pat, j)
    ensures Find(s, pat) == i
  {
    assert 0 <= i <= |s| && OccursAt(s, pat, i);
  }

  /** An occurrence is the first one when the pattern's first character
      does not appear before it. */
  lemma FindFirstByHead(s: string, pat: string, i: int)
    requires pat != [] && OccursAt(s, pat, i) && pat[0] !in s[..i]
    ensures Find(s, pat) == i
  {
    forall j | 0 <= j < i ensures !OccursAt(s, pat, j) {
      assert s[j] == s[..i][j] && s[..i][j] in s[..i];
      if j + |pat| <= |s| {
        assert s[j..j + |pat|][0] == s[j];
      }
    }
    FindIsFirstOccurrence(s, pat, i);
  }

  /** A pattern cannot occur where one of its characters is missing. */
  lemma FindAbsentChar(s: string, pat: string, j: nat)
    requires j < |pat| && pat[j] !in s
    ensures Find(s, pat) == -1
  {
    forall i | 0 <= i <= |s| ensures !OccursAt(s, pat, i) {
      if i + |pat| <= |s| {
        assert s[i..i + |pat|][j] == s[i + j] && s[i + j] in s;
      }
    }
  }

  /** No occurrence of `pat` starts inside `s[lo..hi]` when that segment
      holds none and the character at `hi` cannot continue one. */
  lemma NoOccurrenceIn(s: string, pat: string, lo: nat, hi: nat)
    requires lo <= hi < |s| && pat != []
    requires !Contains(s[lo..hi], pat)
    requires s[hi] !in pat[1..]
    ensures forall j :: lo <= j < hi ==> !OccursAt(s, pat, j)
  {
    forall j | lo <= j < hi ensures !OccursAt(s, pat, j) {
      if j + |pat| <= hi {
        var seg := s[lo..hi];
        forall m | j <= m < j + |pat| ensures seg[m - lo] == s[m] {
        }
        assert s[j..j + |pat|] == seg[j - lo..j - lo + |pat|];
        assert !OccursAt(seg, pat, j - lo);
      } else if j + |pat| <= |s| {
        assert s[j..j + |pat|][hi - j] == s[hi];
        assert pat[hi - j] == pat[1..][hi - j - 1];
      }
    }
  }

  // ---------------------------------------------------------------------
  // slicing
  // ---------------------------------------------------------------------

  /** How Python turns a slice bound into a position in a sequence of
      length `n`: a negative bound counts from the end, and the result is
      clamped into 0..n. */
  function PyIndex(i: int, n: nat): (r: nat)
    ensures r <= n
    ensures 0 <= i <= n ==> r == i
    ensures i < 0 && 0 <= i + n ==> r == i + n
    ensures i + n < 0 ==> r == 0
    ensures n < i ==> r == n
  {
    if i < 0 then (if i + n < 0 then 0 else i + n)
    else if i > n then n
    else i
  }

  /** Python's `s[start:stop]`. */
  function PySlice(s: string, start: int, stop: int): (r: string)
    ensures PyIndex(start, |s|) + |r| <= |s|
    ensures r == s[PyIndex(start, |s|)..PyIndex(start, |s|) + |r|]
    ensures var lo, hi := PyIndex(start, |s|), PyIndex(stop, |s|);
      |r| == if lo <= hi then hi - lo else 0
  {
    var lo, hi := PyIndex(start, |s|), PyIndex(stop, |s|);
    if lo <= hi then s[lo..hi] else []
  }

  /** Python's `s[:stop]`. */
  function PyPrefix(s: string, stop: int): (r: string)
    ensures |r| <= |s| && r == s[..|r|]
    ensures 0 <= stop <= |s| ==> r == s[..stop]
    ensures stop < 0 && 0 <= |s| + stop ==> r == s[..|s| + stop]
  {
    PySlice(s, 0, stop)
  }

  /** A bound that is -1 because `find` failed silently drops the last
      character instead of keeping the whole string. */
  lemma PrefixMinusOneDropsLast(s: string)
    requires s != []
    ensures PyPrefix(s, -1) == s[..|s| - 1]
    ensures |PyPrefix(s, -1)| == |s| - 1
  {
  }

  /** Bounds in range give the ordinary subsequence; crossed bounds give
      the empty string rather than an error. */
  lemma SliceInRange(s: string, start: int, stop: int)
    ensures 0 <= start <= stop <= |s| ==> PySlice(s, start, stop) == s[start..stop]
    ensures PyIndex(stop, |s|) <= PyIndex(start, |s|) ==> PySlice(s, start, stop) == []
  {
  }

  // ---------------------------------------------------------------------
  // str.strip(chars)
  // ---------------------------------------------------------------------

  /** The set of characters of `s`: what `str.strip(s)` removes. */
  function CharSet(s: string): set<char> {
    set c | c in s
  }

  /** Python's `s.lstrip(chars)`. */
  function LStrip(s: string, chars: set<char>): (r: string)
    ensures |r| <= |s| && r == s[|s| - |r|..]
    ensures forall k :: 0 <= k < |s| - |r| ==> s[k] in chars
    ensures r == [] || r[0] !in chars
  {
    if s != [] && s[0] in chars then LStrip(s[1..], chars) else s
  }

  /** Python's `s.rstrip(chars)`. */
  function RStrip(s: string, chars: set<char>): (r: string)
    ensures |r| <= |s| && r == s[..|r|]
    ensures forall k :: |r| <= k < |s| ==> s[k] in chars
    ensures r == [] || r[|r| - 1] !in chars
  {
    if s != [] && s[|s| - 1] in chars then RStrip(s[..|s| - 1], chars) else s
  }

  /** Python's `s.strip(chars)`: every leading and every trailing character
      that belongs to the set is removed; nothing in the middle is. What is
      left is a piece of `s` cut out between two runs of set characters,
      and it neither starts nor ends with one. */
  function Strip(s: string, chars: set<char>): (r: string)
    ensures Contains(s, r)
    ensures exists a :: TrimmedAt(s, r, a, chars)
    ensures r == [] || (r[0] !in chars && r[|r| - 1] !in chars)
  {
    var l := LStrip(s, chars);
    var r := RStrip(l, chars);
    StripsTrim(s, l, r, chars);
    assert OccursAt(s, r, |s| - |l|);
    r
  }

  lemma StripsTrim(s: string, l: string, r: string, chars: set<char>)
    requires |l| <= |s| && l == s[|s| - |l|..]
    requires forall k :: 0 <= k < |s| - |l| ==> s[k] in chars
    requires |r| <= |l| && r == l[..|r|]
    requires forall k :: |r| <= k < |l| ==> l[k] in chars
    ensures TrimmedAt(s, r, |s| - |l|, chars)
  {
    var a := |s| - |l|;
    forall k | a + |r| <= k < |s| ensures s[k] in chars {
      assert s[k] == l[k - a];
    }
  }

  /** `r` is `s` less a leading run, of length `a`, and a trailing run, both
      made only of characters of the set. */
  predicate TrimmedAt(s: string, r: string, a: nat, chars: set<char>) {
    a + |r| <= |s| && r == s[a..a + |r|] &&
    (forall k :: 0 <= k < a ==> s[k] in chars) &&
    (forall k :: a + |r| <= k < |s| ==> s[k] in chars)
  }

  /** Stripping with a set leaves nothing of that set at either end, so a
      second strip with the same set changes nothing. */
  lemma {:induction false} StripIdempotent(s: string, chars: set<char>)
    ensures Strip(Strip(s, chars), chars) == Strip(s, chars)
  {
    var t := Strip(s, chars);
    LStripStops(t, chars);
    RStripStops(t, chars);
  }

  lemma LStripStops(s: string, chars: set<char>)
    requires s == [] || s[0] !in chars
    ensures LStrip(s, chars) == s
  {
  }

  lemma RStripStops(s: string, chars: set<char>)
    requires s == [] || s[|s| - 1] !in chars
    ensures RStrip(s, chars) == s
  {
  }

  /** Leading characters of the set are removed whatever follows them. */
  lemma {:induction false} LStripSkips(p: string, s: string, chars: set<char>)
    requires forall i :: 0 <= i < |p| ==> p[i] in chars
    ensures LStrip(p + s, chars) == LStrip(s, chars)
    decreases |p|
  {
    if p != [] {
      assert (p + s)[0] == p[0] && (p + s)[1..] == p[1..] + s;
      forall i | 0 <= i < |p[1..]| ensures p[1..][i] in chars {
        assert p[1..][i] == p[i + 1];
      }
      LStripSkips(p[1..], s, chars);
    } else {
      assert p + s == s;
    }
  }
}
