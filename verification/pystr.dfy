/**
  The handful of Python `str` operations the response formatter is built from:
  `pat in s`, `s.find(pat)`, `s.replace(pat, rep)`, `s.strip()` and the slice
  `s[i:j]`, each stated with Python's own edge-case behaviour (the -1 of a failed
  find, negative and out-of-range slice bounds, an empty pattern).
 */
module PyStr {

  /** The characters `str.strip()` removes when called without arguments: exactly
      the code points for which CPython's `str.isspace` holds. */
  predicate IsSpace(c: char) {
    || ('\t' <= c <= '\r')                  // \t \n \v \f \r
    || ('\U{1C}' <= c <= '\U{1F}')          // file, group, record and unit separators
    || c == ' '
    || c == '\U{85}' || c == '\U{A0}' || c == '\U{1680}'
    || ('\U{2000}' <= c <= '\U{200A}')
    || c == '\U{2028}' || c == '\U{2029}' || c == '\U{202F}' || c == '\U{205F}' || c == '\U{3000}'
  }

  predicate AllSpace(t: string) {
    forall k :: 0 <= k < |t| ==> IsSpace(t[k])
  }

  /** `pat` occurs in `s` starting at index `i`. */
  predicate IsAt(s: string, pat: string, i: int) {
    0 <= i && i + |pat| <= |s| && s[i..i + |pat|] == pat
  }

  /** Python's `pat in s`. */
  predicate Occurs(s: string, pat: string) {
    exists i :: 0 <= i <= |s| - |pat| && IsAt(s, pat, i)
  }

  // ---------------------------------------------------------------- find

  /** The first occurrence of `pat` at an index no smaller than `i`, or -1. */
  function FindFrom(s: string, pat: string, i: nat): (r: int)
    decreases |s| - i
    ensures r == -1 || (i <= r && IsAt(s, pat, r))
    ensures forall j :: i <= j && (r == -1 || j < r) ==> !IsAt(s, pat, j)
  {
    if i + |pat| > |s| then -1
    else if IsAt(s, pat, i) then i
    else FindFrom(s, pat, i + 1)
  }

  /** Python's `s.find(pat)`: the lowest index where `pat` starts, -1 when there is none. */
  function Find(s: string, pat: string): (r: int)
    ensures r == -1 <==> !Occurs(s, pat)
    ensures r != -1 ==> IsAt(s, pat, r) && forall j :: 0 <= j < r ==> !IsAt(s, pat, j)
  {
    var r := FindFrom(s, pat, 0);
    assert r != -1 ==> 0 <= r <= |s| - |pat| && IsAt(s, pat, r);
    r
  }

  /** The contract of `Find` pins its result down: any first occurrence is the one it returns. */
  lemma FindIsFirstOccurrence(s: string, pat: string, i: int)
    requires IsAt(s, pat, i)
    requires forall j :: 0 <= j < i ==> !IsAt(s, pat, j)
    ensures Find(s, pat) == i
  {
    assert 0 <= i <= |s| - |pat| && IsAt(s, pat, i);
  }

  /** A match cannot start before the first appearance of the pattern's first character. */
  lemma NoMatchBeforeFirstChar(s: string, pat: string, i: int)
    requires |pat| > 0 && forall j :: 0 <= j < i && j < |s| ==> s[j] != pat[0]
    ensures forall j :: 0 <= j < i ==> !IsAt(s, pat, j)
  {
    forall j | 0 <= j < i
      ensures !IsAt(s, pat, j)
    {
      assert j < |s| ==> s[j] != pat[0];
    }
  }

  /** Substring-of is transitive: a piece of a piece of `s` is a piece of `s`. */
  lemma OccursTransitive(s: string, t: string, u: string)
    requires Occurs(s, t) && Occurs(t, u)
    ensures Occurs(s, u)
  {
    var i :| 0 <= i <= |s| - |t| && IsAt(s, t, i);
    var j :| 0 <= j <= |t| - |u| && IsAt(t, u, j);
    SliceOfSlice(s, i, i + |t|, j, j + |u|);
    assert 0 <= i + j <= |s| - |u| && IsAt(s, u, i + j);
  }

  lemma SliceOfSlice(s: string, a: int, b: int, c: int, d: int)
    requires 0 <= a <= b <= |s| && 0 <= c <= d <= b - a
    ensures s[a..b][c..d] == s[a + c..a + d]
  {
    assert forall k :: 0 <= k < d - c ==> s[a..b][c..d][k] == s[a + c + k] == s[a + c..a + d][k];
  }

  lemma OccursSelf(s: string)
    ensures Occurs(s, s)
  {
    assert IsAt(s, s, 0);
  }

  /** A pattern that starts with a non-space character never occurs in blank text. */
  lemma NoOccurrenceInBlank(s: string, pat: string)
    requires AllSpace(s)
    requires |pat| > 0 && !IsSpace(pat[0])
    ensures !Occurs(s, pat)
  {
  }

  // ---------------------------------------------------------------- replace

  /** `s.replace("", rep)`: `rep` before every character and at the end. */
  function InsertEverywhere(s: string, rep: string): (r: string)
    ensures |r| == |s| + (|s| + 1) * |rep|
  {
    if s == [] then rep else rep + [s[0]] + InsertEverywhere(s[1..], rep)
  }

  /** Python's `s.replace(pat, rep)`: every non-overlapping occurrence of `pat`,
      scanning from the left, is replaced by `rep`. */
  function Replace(s: string, pat: string, rep: string): (r: string)
    ensures rep == [] ==> |r| <= |s|
  {
    if pat == [] then InsertEverywhere(s, rep) else ReplaceFrom(s, pat, rep, 0)
  }

  /** The scan from index `i` on: at a match emit `rep` and resume after the match,
      otherwise copy one character and move on. */
  function ReplaceFrom(s: string, pat: string, rep: string, i: nat): (r: string)
    requires pat != [] && i <= |s|
    decreases |s| - i
    ensures rep == [] ==> |r| <= |s| - i
  {
    if i + |pat| > |s| then s[i..]
    else if IsAt(s, pat, i) then rep + ReplaceFrom(s, pat, rep, i + |pat|)
    else [s[i]] + ReplaceFrom(s, pat, rep, i + 1)
  }

  /** A stretch of `s` in which no match starts is copied unchanged. */
  lemma {:induction false} ReplaceCopies(s: string, pat: string, rep: string, i: nat, k: nat)
    requires pat != [] && i <= k <= |s|
    requires forall j :: i <= j < k ==> !IsAt(s, pat, j)
    ensures ReplaceFrom(s, pat, rep, i) == s[i..k] + ReplaceFrom(s, pat, rep, k)
    decreases k - i
  {
    if i == k {
      assert s[i..k] == [];
    } else if i + |pat| > |s| {
      assert s[i..] == s[i..k] + s[k..];
    } else {
      ReplaceCopies(s, pat, rep, i + 1, k);
      assert [s[i]] + s[i + 1..k] == s[i..k];
    }
  }

  /** Text in which the pattern never occurs comes back unchanged. */
  lemma ReplaceWithoutMatch(s: string, pat: string, rep: string)
    requires !Occurs(s, pat)
    ensures Replace(s, pat, rep) == s
  {
    if pat == [] {
      assert IsAt(s, pat, 0);
    } else {
      ReplaceCopies(s, pat, rep, 0, |s|);
      assert s[0..|s|] == s;
    }
  }

  /** `Replace` agrees with the find-based loop CPython runs: everything before the
      first match is kept, the match becomes `rep`, and the scan resumes just after it. */
  lemma ReplaceAtFirstMatch(s: string, pat: string, rep: string)
    requires pat != [] && Occurs(s, pat)
    ensures Replace(s, pat, rep)
         == s[..Find(s, pat)] + rep + ReplaceFrom(s, pat, rep, Find(s, pat) + |pat|)
  {
    var f := Find(s, pat);
    ReplaceCopies(s, pat, rep, 0, f);
    assert s[0..f] == s[..f];
  }

  /** Once fewer characters remain than the pattern has, the scan copies the rest. */
  lemma ReplaceTail(s: string, pat: string, rep: string, i: nat)
    requires pat != [] && |s| - |pat| < i <= |s|
    ensures ReplaceFrom(s, pat, rep, i) == s[i..]
  {
  }

  // ---------------------------------------------------------------- strip

  /** Number of whitespace characters at the front of `s`. */
  function LeadingSpace(s: string): (n: nat)
    ensures n <= |s| && AllSpace(s[..n])
    ensures n < |s| ==> !IsSpace(s[n])
  {
    if s == [] || !IsSpace(s[0]) then 0
    else
      var m := LeadingSpace(s[1..]);
      assert s[..1 + m] == [s[0]] + s[1..][..m];
      1 + m
  }

  /** Index where the whitespace run at the back of `s` begins. */
  function TrailingSpaceStart(s: string): (n: nat)
    ensures n <= |s| && AllSpace(s[n..])
    ensures 0 < n ==> !IsSpace(s[n - 1])
  {
    if s == [] || !IsSpace(s[|s| - 1]) then |s|
    else
      var m := TrailingSpaceStart(s[..|s| - 1]);
      assert s[m..] == s[..|s| - 1][m..] + [s[|s| - 1]];
      m
  }

  /** Neither end of `t` is whitespace. */
  predicate IsStripped(t: string) {
    t == [] || (!IsSpace(t[0]) && !IsSpace(t[|t| - 1]))
  }

  /** `t` sits at index `a` of `s` and only whitespace surrounds it. */
  predicate StripsTo(s: string, t: string, a: int) {
    && 0 <= a && a + |t| <= |s|
    && s[a..a + |t|] == t
    && AllSpace(s[..a])
    && AllSpace(s[a + |t|..])
  }

  /** Python's `s.strip()`. */
  function Strip(s: string): (t: string)
    ensures IsStripped(t)
    ensures t == [] <==> AllSpace(s)
  {
    var a := LeadingSpace(s);
    if a == |s| then
      assert s[..a] == s;
      []
    else
      var b := TrailingSpaceStart(s);
      assert a < b;
      s[a..b]
  }

  /** What `strip()` keeps sits at the first non-space character, with only
      whitespace around it. */
  lemma StripSurroundedBySpace(s: string)
    ensures StripsTo(s, Strip(s), LeadingSpace(s))
  {
    var a := LeadingSpace(s);
    if a == |s| {
      assert s[..a] == s;
    } else {
      var b := TrailingSpaceStart(s);
      assert a < b;
    }
  }

  /** Stripping has exactly one answer: any piece of `s` with no whitespace at
      either end and only whitespace around it is `Strip(s)`. */
  lemma StripUnique(s: string, t: string, a: int)
    requires IsStripped(t) && StripsTo(s, t, a)
    ensures t == Strip(s)
  {
    StripSurroundedBySpace(s);
    if t == [] {
      assert AllSpace(s) by {
        forall k | 0 <= k < |s|
          ensures IsSpace(s[k])
        {
          if k < a { assert s[..a][k] == s[k]; }
          else { assert s[a..][k - a] == s[k]; }
        }
      }
    } else {
      var n := LeadingSpace(s);
      assert s[a] == t[0];
      assert n == a;
      var e := a + |t|;
      var b := TrailingSpaceStart(s);
      assert s[e - 1] == t[|t| - 1];
      assert b == e;
    }
  }

  /** `s.strip().strip() == s.strip()`. */
  lemma StripIdempotent(s: string)
    ensures Strip(Strip(s)) == Strip(s)
  {
    var t := Strip(s);
    assert t[0..0 + |t|] == t && t[..0] == [] && t[|t|..] == [];
    StripUnique(t, t, 0);
  }

  /** What `strip()` returns is a piece of its argument. */
  lemma StripOccurs(s: string)
    ensures Occurs(s, Strip(s))
  {
    StripSurroundedBySpace(s);
    var a := LeadingSpace(s);
    assert 0 <= a <= |s| - |Strip(s)| && IsAt(s, Strip(s), a);
  }

  // ---------------------------------------------------------------- slice

  /** How Python normalises one bound of `s[i:j]` for a string of length `n`:
      a negative bound counts from the end, then the bound is clamped to [0, n]. */
  function SliceIndex(i: int, n: nat): (k: nat)
    ensures k <= n
    ensures 0 <= i ==> k == if i <= n then i else n
    ensures -(n as int) <= i < 0 ==> k == n as int + i
    ensures i < -(n as int) ==> k == 0
  {
    if i < 0 then (if i + n < 0 then 0 else i + n)
    else if i > n then n
    else i
  }

  /** Python's `s[i:j]` with the default step. */
  function PySlice(s: string, i: int, j: int): (r: string)
    ensures 0 <= i <= j <= |s| ==> r == s[i..j]
    ensures SliceIndex(i, |s|) < SliceIndex(j, |s|) ==> r == s[SliceIndex(i, |s|)..SliceIndex(j, |s|)]
    ensures SliceIndex(j, |s|) <= SliceIndex(i, |s|) ==> r == []
    ensures |r| <= |s|
  {
    var a := SliceIndex(i, |s|);
    var b := SliceIndex(j, |s|);
    if a < b then s[a..b] else []
  }

  /** Whatever the bounds, a slice is a piece of the sliced text. */
  lemma PySliceOccurs(s: string, i: int, j: int)
    ensures Occurs(s, PySlice(s, i, j))
  {
    var a := SliceIndex(i, |s|);
    var b := SliceIndex(j, |s|);
    if a < b {
      assert IsAt(s, s[a..b], a);
    } else {
      assert IsAt(s, [], 0);
    }
  }
}
