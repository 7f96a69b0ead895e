/**
 * Character classes and the string operations the pipeline is built from:
 * substring search, `str.strip()`, `str.split(sep)[0]` and ASCII upper-casing.
 */
module Text {
  import opened Wrappers

  /** Python's `str.isspace()`; it is also what `\s` matches in a `str` regex
      and what `split()` and `strip()` treat as whitespace. */
  predicate IsSpace(c: char) {
    || ('\t' <= c <= '\r')
    || ('\U{1C}' <= c <= '\U{1F}')
    || c == ' '
    || c == '\U{85}'
    || c == '\U{A0}'
    || c == '\U{1680}'
    || ('\U{2000}' <= c <= '\U{200A}')
    || c == '\U{2028}'
    || c == '\U{2029}'
    || c == '\U{202F}'
    || c == '\U{205F}'
    || c == '\U{3000}'
  }

  predicate IsDigit(c: char) {
    '0' <= c <= '9'
  }

  predicate IsLower(c: char) {
    'a' <= c <= 'z'
  }

  function DigitValue(c: char): (v: nat)
    requires IsDigit(c)
    ensures v < 10
  {
    c as int - '0' as int
  }

  /** The upper-case form of one character (letters `a`-`z` only). */
  function UpperChar(c: char): (u: char)
    ensures !IsLower(u)
    ensures IsSpace(u) <==> IsSpace(c)
    ensures u == c || (IsLower(c) && 'A' <= u <= 'Z')
  {
    if IsLower(c) then (c as int - 'a' as int + 'A' as int) as char else c
  }

  /** `s.upper()`: every character replaced by its upper-case form. */
  function Upper(s: string): (r: string)
    ensures |r| == |s|
    ensures forall k :: 0 <= k < |s| ==> r[k] == UpperChar(s[k])
  {
    if s == [] then [] else [UpperChar(s[0])] + Upper(s[1..])
  }

  lemma UpperOfUpper(s: string)
    requires forall k :: 0 <= k < |s| ==> !IsLower(s[k])
    ensures Upper(s) == s
  {
  }

  // ---------------------------------------------------------------------
  // Substring search

  /** `p` occurs in `s` starting at index `i`. */
  predicate OccursAt(s: string, p: string, i: nat) {
    i + |p| <= |s| && s[i..i + |p|] == p
  }

  /** One of the phrases `ps` occurs in `s` starting at index `i`. */
  predicate OccursAnyAt(s: string, ps: seq<string>, i: nat) {
    exists k :: 0 <= k < |ps| && OccursAt(s, ps[k], i)
  }

  /** Python's `p in s`. */
  predicate Contains(s: string, p: string) {
    exists i :: 0 <= i <= |s| - |p| && OccursAt(s, p, i)
  }

  lemma OccursAnySingle(s: string, p: string, i: nat)
    ensures OccursAnyAt(s, [p], i) <==> OccursAt(s, p, i)
  {
    if OccursAt(s, p, i) {
      assert OccursAt(s, [p][0], i);
    }
  }

  /** The leftmost index at or after `from` where one of `ps` begins. */
  function FindAny(s: string, ps: seq<string>, from: nat): (r: Option<nat>)
    ensures r.Some? ==> from <= r.value && OccursAnyAt(s, ps, r.value)
    ensures forall i: nat :: from <= i && (r.None? || i < r.value) ==> !OccursAnyAt(s, ps, i)
    decreases |s| - from
  {
    if from > |s| then None
    else if OccursAnyAt(s, ps, from) then Some(from)
    else FindAny(s, ps, from + 1)
  }

  /** The leftmost occurrence of `p` at or after `from`. */
  function Find(s: string, p: string, from: nat): (r: Option<nat>)
    ensures r.Some? ==> from <= r.value && OccursAt(s, p, r.value)
    ensures forall i: nat :: from <= i && (r.None? || i < r.value) ==> !OccursAt(s, p, i)
    decreases |s| - from
  {
    if from > |s| then None
    else if OccursAt(s, p, from) then Some(from)
    else Find(s, p, from + 1)
  }

  /** `FindAny` returns the first occurrence, and only it. */
  lemma FindAnyIsFirst(s: string, ps: seq<string>, from: nat, i: nat)
    requires from <= i && OccursAnyAt(s, ps, i)
    requires forall h: nat :: from <= h < i ==> !OccursAnyAt(s, ps, h)
    ensures FindAny(s, ps, from) == Some(i)
  {
    var r := FindAny(s, ps, from);
    assert r.Some? && !(i < r.value);
  }

  /** `Find` returns the first occurrence, and only it. */
  lemma FindIsFirst(s: string, p: string, from: nat, i: nat)
    requires from <= i && OccursAt(s, p, i)
    requires forall h: nat :: from <= h < i ==> !OccursAt(s, p, h)
    ensures Find(s, p, from) == Some(i)
  {
    var r := Find(s, p, from);
    assert r.Some? && !(i < r.value);
  }

  lemma OccursAnySingleEverywhere(s: string, p: string)
    ensures forall i: nat :: OccursAnyAt(s, [p], i) <==> OccursAt(s, p, i)
  {
    forall i: nat ensures OccursAnyAt(s, [p], i) <==> OccursAt(s, p, i) {
      OccursAnySingle(s, p, i);
    }
  }

  /** A phrase found in a slice of `s` is found in `s` itself. */
  lemma ContainsSlice(s: string, a: nat, b: nat, p: string)
    requires a <= b <= |s|
    requires Contains(s[a..b], p)
    ensures Contains(s, p)
  {
    var i :| 0 <= i <= |s[a..b]| - |p| && OccursAt(s[a..b], p, i);
    SliceOfSlice(s, a, b, i, i + |p|);
    assert OccursAt(s, p, a + i);
  }

  lemma SliceOfSlice(s: string, a: nat, b: nat, i: nat, j: nat)
    requires a <= b <= |s| && i <= j <= b - a
    ensures s[a..b][i..j] == s[a + i..a + j]
  {
    forall k | 0 <= k < j - i ensures s[a..b][i..j][k] == s[a + i..a + j][k] {
      assert s[a..b][i..j][k] == s[a..b][i + k] == s[a + i + k];
    }
  }

  /** A slice that ends before the first occurrence of `p` after its start
      does not contain `p`. */
  lemma NotContainsBeforeFirst(s: string, a: nat, b: nat, p: string)
    requires p != []
    requires a <= b <= |s|
    requires forall i: nat :: a <= i < b ==> !OccursAt(s, p, i)
    ensures !Contains(s[a..b], p)
  {
    if Contains(s[a..b], p) {
      var i :| 0 <= i <= |s[a..b]| - |p| && OccursAt(s[a..b], p, i);
      SliceOfSlice(s, a, b, i, i + |p|);
      assert OccursAt(s, p, a + i);
    }
  }

  /** `s.split(p)[0]`: the text before the first occurrence of `p`, or all of
      `s` when `p` does not occur. */
  function Before(s: string, p: string): (r: string)
    requires p != []
    ensures r <= s
    ensures !Contains(r, p)
    ensures !Contains(s, p) ==> r == s
    ensures Contains(s, p) ==> OccursAt(s, p, |r|)
    ensures forall i: nat :: i < |r| ==> !OccursAt(s, p, i)
  {
    match Find(s, p, 0)
    case Some(i) =>
      NotContainsBeforeFirst(s, 0, i, p);
      s[..i]
    case None =>
      NotContainsBeforeFirst(s, 0, |s|, p);
      assert s[0..|s|] == s;
      s
  }

  /** `s.split(p)[0]` is the text before the first occurrence of `p`. */
  lemma BeforeFirst(s: string, p: string, i: nat)
    requires p != []
    requires OccursAt(s, p, i) && forall h: nat :: h < i ==> !OccursAt(s, p, h)
    ensures Before(s, p) == s[..i]
  {
    var r := Before(s, p);
    assert Contains(s, p);
    assert OccursAt(s, p, |r|);
    assert |r| == i;
  }

  // ---------------------------------------------------------------------
  // Whitespace

  /** The first index at or after `i` that does not hold whitespace (or `|s|`). */
  function SkipSpaces(s: string, i: nat): (j: nat)
    requires i <= |s|
    ensures i <= j <= |s|
    ensures forall k :: i <= k < j ==> IsSpace(s[k])
    ensures j < |s| ==> !IsSpace(s[j])
    decreases |s| - i
  {
    if i < |s| && IsSpace(s[i]) then SkipSpaces(s, i + 1) else i
  }

  /** `SkipSpaces` stops at the first non-whitespace character. */
  lemma SkipSpacesTo(s: string, i: nat, j: nat)
    requires i <= j < |s| && !IsSpace(s[j])
    requires forall k :: i <= k < j ==> IsSpace(s[k])
    ensures SkipSpaces(s, i) == j
  {
  }

  /** The length of the run of non-whitespace characters that starts `s`. */
  function WordLength(s: string): (n: nat)
    ensures n <= |s|
    ensures forall k :: 0 <= k < n ==> !IsSpace(s[k])
    ensures n < |s| ==> IsSpace(s[n])
  {
    if s == [] || IsSpace(s[0]) then 0 else 1 + WordLength(s[1..])
  }

  /** A word as `str.split()` yields it: non-empty, no whitespace. */
  predicate IsWord(w: string) {
    w != [] && forall k :: 0 <= k < |w| ==> !IsSpace(w[k])
  }

  lemma {:induction false} WordLengthOfWord(w: string, after: string)
    requires IsWord(w)
    requires after == [] || IsSpace(after[0])
    ensures WordLength(w + after) == |w|
    decreases |w|
  {
    assert (w + after)[0] == w[0];
    if |w| > 1 {
      assert (w + after)[1..] == w[1..] + after;
      WordLengthOfWord(w[1..], after);
    } else {
      assert (w + after)[1..] == after;
    }
  }

  /** Neither starts nor ends with whitespace. */
  predicate Stripped(s: string) {
    s == [] || (!IsSpace(s[0]) && !IsSpace(s[|s| - 1]))
  }

  /** The end of `s[..b]` once trailing whitespace after `a` is dropped. */
  function TrimEnd(s: string, a: nat, b: nat): (e: nat)
    requires a <= b <= |s|
    ensures a <= e <= b
    ensures forall k :: e <= k < b ==> IsSpace(s[k])
    ensures e > a ==> !IsSpace(s[e - 1])
    decreases b
  {
    if b > a && IsSpace(s[b - 1]) then TrimEnd(s, a, b - 1) else b
  }

  /** `s.strip()`: `s` without its leading and trailing whitespace. */
  function Strip(s: string): (r: string)
    ensures Stripped(r)
    ensures Stripped(s) ==> r == s
    ensures forall p :: Contains(r, p) ==> Contains(s, p)
  {
    var a := SkipSpaces(s, 0);
    var b := TrimEnd(s, a, |s|);
    ContainsSliceEverywhere(s, a, b);
    assert Stripped(s) ==> a == 0 && b == |s| && s[a..b] == s;
    s[a..b]
  }

  /** Exactly the whitespace at either end is removed. */
  lemma StripIsSlice(s: string) returns (a: nat, b: nat)
    ensures a <= b <= |s| && Strip(s) == s[a..b]
    ensures forall k :: 0 <= k < a ==> IsSpace(s[k])
    ensures forall k :: b <= k < |s| ==> IsSpace(s[k])
  {
    a := SkipSpaces(s, 0);
    b := TrimEnd(s, a, |s|);
  }

  /** Containment is transitive. */
  lemma ContainsTransitive(s: string, p: string, q: string)
    requires Contains(s, p) && Contains(p, q)
    ensures Contains(s, q)
  {
    var i :| 0 <= i <= |s| - |p| && OccursAt(s, p, i);
    assert s[i..i + |p|] == p;
    ContainsSlice(s, i, i + |p|, q);
  }

  lemma ContainsSliceEverywhere(s: string, a: nat, b: nat)
    requires a <= b <= |s|
    ensures forall p :: Contains(s[a..b], p) ==> Contains(s, p)
  {
    forall p | Contains(s[a..b], p) ensures Contains(s, p) {
      ContainsSlice(s, a, b, p);
    }
  }
}
