/**
 * The string primitives the ingestion rules rely on, with Python's semantics:
 * `str.isspace`, `str.lower`/`str.upper` (on ASCII letters), `str.strip`,
 * `str.split()` with no separator, `str.find`, `in` and `str.count`.
 */
module Text {
  import opened Wrappers

  /** The characters for which Python's `str.isspace()` holds; `strip()` and `split()` use them. */
  const Whitespace: set<char> := {
    '\t', '\n', '\U{0B}', '\U{0C}', '\r', '\U{1C}', '\U{1D}', '\U{1E}', '\U{1F}', ' ',
    '\U{85}', '\U{A0}', '\U{1680}', '\U{2000}', '\U{2001}', '\U{2002}', '\U{2003}',
    '\U{2004}', '\U{2005}', '\U{2006}', '\U{2007}', '\U{2008}', '\U{2009}', '\U{200A}',
    '\U{2028}', '\U{2029}', '\U{202F}', '\U{205F}', '\U{3000}'
  }

  predicate IsSpace(c: char) {
    c in Whitespace
  }

  /** True when `s.strip()` is empty. */
  predicate IsBlank(s: string) {
    forall i :: 0 <= i < |s| ==> IsSpace(s[i])
  }

  function LowerChar(c: char): char {
    if 'A' <= c <= 'Z' then (c as int + 32) as char else c
  }

  function UpperChar(c: char): char {
    if 'a' <= c <= 'z' then (c as int - 32) as char else c
  }

  function Lower(s: string): string {
    seq(|s|, i requires 0 <= i < |s| => LowerChar(s[i]))
  }

  function Upper(s: string): string {
    seq(|s|, i requires 0 <= i < |s| => UpperChar(s[i]))
  }

  predicate IsLowerLetter(c: char) {
    'a' <= c <= 'z'
  }

  /** The first position at or after `i` that holds no whitespace, or `|s|`. */
  function SkipSpaces(s: string, i: nat): (k: nat)
    requires i <= |s|
    ensures i <= k <= |s| && (k < |s| ==> !IsSpace(s[k]))
    ensures forall m :: i <= m < k ==> IsSpace(s[m])
    decreases |s| - i
  {
    if i < |s| && IsSpace(s[i]) then SkipSpaces(s, i + 1) else i
  }

  /** The position just past the last non-whitespace character of `s[lo..j]`, or `lo`. */
  function BackSpaces(s: string, lo: nat, j: nat): (k: nat)
    requires lo <= j <= |s|
    ensures lo <= k <= j && (k > lo ==> !IsSpace(s[k - 1]))
    ensures forall m :: k <= m < j ==> IsSpace(s[m])
    decreases j
  {
    if j > lo && IsSpace(s[j - 1]) then BackSpaces(s, lo, j - 1) else j
  }

  /** `s.lstrip()`: the suffix of `s` left after its leading whitespace. */
  function StripLeft(s: string): (r: string)
    ensures |r| <= |s| && (r == [] || !IsSpace(r[0]))
  {
    s[SkipSpaces(s, 0)..]
  }

  /** `s.strip()`: `s` without its leading and trailing whitespace. */
  function Strip(s: string): (r: string)
    ensures |r| <= |s| && (r == [] || (!IsSpace(r[0]) && !IsSpace(r[|r| - 1])))
  {
    var a := SkipSpaces(s, 0);
    s[a..BackSpaces(s, a, |s|)]
  }

  /** Stripping is empty exactly on blank strings. */
  lemma StripEmpty(s: string)
    ensures Strip(s) == [] <==> IsBlank(s)
  {
    var a := SkipSpaces(s, 0);
    var b := BackSpaces(s, a, |s|);
    if a < |s| {
      assert !IsSpace(s[a]) && b > a;
    }
  }

  /**
   * Stripping a slice `t[start..end]` leaves the slice `t[a..b]` of `t`, with
   * only whitespace cut from either end.
   */
  lemma StripSlice(t: string, start: nat, end: nat) returns (a: nat, b: nat)
    requires start <= end <= |t|
    ensures start <= a <= b <= end && Strip(t[start..end]) == t[a..b]
    ensures forall i :: start <= i < a ==> IsSpace(t[i])
    ensures forall i :: b <= i < end ==> IsSpace(t[i])
  {
    var w := t[start..end];
    var k := SkipSpaces(w, 0);
    var m := BackSpaces(w, k, |w|);
    a, b := start + k, start + m;
    forall i | 0 <= i < m - k ensures w[k..m][i] == t[a..b][i] {
      assert w[k..m][i] == w[k + i] == t[a + i];
    }
    assert w[k..m] == t[a..b];
    forall i | start <= i < a ensures IsSpace(t[i]) {
      assert t[i] == w[i - start];
    }
    forall i | b <= i < end ensures IsSpace(t[i]) {
      assert t[i] == w[i - start];
    }
  }

  /** Lower-casing neither creates nor removes whitespace. */
  lemma LowerKeepsSpaces(s: string)
    ensures forall i :: 0 <= i < |s| ==> (IsSpace(Lower(s)[i]) <==> IsSpace(s[i]))
  {
  }

  /** The longest prefix of `s` free of whitespace. */
  function TakeWord(s: string): (w: string)
    ensures |w| <= |s| && w == s[..|w|]
    ensures s != [] && !IsSpace(s[0]) ==> |w| >= 1
    ensures forall i :: 0 <= i < |w| ==> !IsSpace(w[i])
  {
    if s == [] || IsSpace(s[0]) then [] else [s[0]] + TakeWord(s[1..])
  }

  /** `s.split()`: the maximal runs of non-whitespace characters, in order. */
  function Words(s: string): seq<string>
    decreases |s|
  {
    var t := StripLeft(s);
    if t == [] then []
    else
      var w := TakeWord(t);
      [w] + Words(t[|w|..])
  }

  /** `set(s.split())`. */
  function WordSet(s: string): set<string> {
    set w | w in Words(s)
  }

  /** `p` occurs in `s` starting at position `k`. */
  predicate OccursAt(s: string, p: string, k: nat) {
    k + |p| <= |s| && s[k..k + |p|] == p
  }

  function FindFrom(s: string, p: string, k: nat): (r: Option<nat>)
    requires k <= |s|
    ensures r.Some? ==> k <= r.value && OccursAt(s, p, r.value)
    ensures r.Some? ==> forall j :: k <= j < r.value ==> !OccursAt(s, p, j)
    ensures r.None? ==> forall j :: k <= j <= |s| ==> !OccursAt(s, p, j)
    decreases |s| - k
  {
    if OccursAt(s, p, k) then Some(k)
    else if k == |s| then None
    else FindFrom(s, p, k + 1)
  }

  /** `s.find(p)`, with `None` for Python's `-1`: the first position where `p` occurs. */
  function Find(s: string, p: string): (r: Option<nat>)
    ensures r.Some? ==> OccursAt(s, p, r.value)
    ensures r.Some? ==> forall j :: 0 <= j < r.value ==> !OccursAt(s, p, j)
    ensures r.None? ==> forall j :: 0 <= j <= |s| ==> !OccursAt(s, p, j)
  {
    FindFrom(s, p, 0)
  }

  /** Python's `p in s`. */
  predicate Contains(s: string, p: string) {
    Find(s, p).Some?
  }

  /** Non-overlapping occurrences of a non-empty `p` in `s[k..]`, scanning left to right. */
  function CountFrom(s: string, p: string, k: nat): nat
    requires p != [] && k <= |s|
    decreases |s| - k
  {
    if k + |p| > |s| then 0
    else if s[k..k + |p|] == p then 1 + CountFrom(s, p, k + |p|)
    else CountFrom(s, p, k + 1)
  }

  /** `s.count(p)`: non-overlapping occurrences; `len(s) + 1` for the empty `p`, as in Python. */
  function Count(s: string, p: string): nat {
    if p == [] then |s| + 1 else CountFrom(s, p, 0)
  }

  lemma {:induction false} CountFromPositive(s: string, p: string, k: nat, j: nat)
    requires p != [] && k <= j && OccursAt(s, p, j)
    ensures CountFrom(s, p, k) >= 1
    decreases |s| - k
  {
    if s[k..k + |p|] != p {
      assert k != j;
      CountFromPositive(s, p, k + 1, j);
    }
  }

  /** A pattern that occurs is counted at least once. */
  lemma CountPositive(s: string, p: string)
    requires Contains(s, p)
    ensures Count(s, p) >= 1
  {
    if p != [] {
      CountFromPositive(s, p, 0, Find(s, p).value);
    }
  }

  /** An upper-cased string contains no pattern with a lower-case ASCII letter in it. */
  lemma UpperExcludesLower(s: string, p: string, i: nat)
    requires i < |p| && IsLowerLetter(p[i])
    ensures !Contains(Upper(s), p)
  {
  }

  /** A string with no words in it has none in common with any other. */
  lemma WordsOfBlank(s: string)
    requires IsBlank(s)
    ensures Words(s) == []
  {
  }

  /** A string with a non-blank character in it has a word. */
  lemma WordsOfNonBlank(s: string)
    requires !IsBlank(s)
    ensures Words(s) != []
  {
  }

  /** A word of both strings is in the intersection of their word sets. */
  lemma SharedWord(s: string, t: string, w: string)
    requires w in Words(s) && w in Words(t)
    ensures w in WordSet(s) * WordSet(t)
  {
  }

  /** Python's `a <= b` on `str`: lexicographic by code point, a prefix first. */
  predicate StrLe(a: string, b: string)
    decreases |a|
  {
    if a == [] then true
    else if b == [] then false
    else if a[0] != b[0] then a[0] < b[0]
    else StrLe(a[1..], b[1..])
  }

  lemma {:induction false} StrLeReflexive(a: string)
    ensures StrLe(a, a)
    decreases |a|
  {
    if a != [] {
      StrLeReflexive(a[1..]);
    }
  }

  lemma {:induction false} StrLeTotal(a: string, b: string)
    ensures StrLe(a, b) || StrLe(b, a)
    decreases |a|
  {
    if a != [] && b != [] && a[0] == b[0] {
      StrLeTotal(a[1..], b[1..]);
    }
  }

  lemma {:induction false} StrLeAntisymmetric(a: string, b: string)
    requires StrLe(a, b) && StrLe(b, a)
    ensures a == b
    decreases |a|
  {
    if a != [] {
      StrLeAntisymmetric(a[1..], b[1..]);
      assert a == [a[0]] + a[1..] && b == [b[0]] + b[1..];
    }
  }

  lemma {:induction false} StrLeTransitive(a: string, b: string, c: string)
    requires StrLe(a, b) && StrLe(b, c)
    ensures StrLe(a, c)
    decreases |a|
  {
    if a != [] && a[0] == b[0] && b[0] == c[0] {
      StrLeTransitive(a[1..], b[1..], c[1..]);
    }
  }

  /** `sorted(xs) == xs` for a list of strings. */
  ghost predicate StrSorted(xs: seq<string>) {
    forall i, j :: 0 <= i < j < |xs| ==> StrLe(xs[i], xs[j])
  }

  lemma SortedHeadLeast(xs: seq<string>, x: string)
    requires StrSorted(xs) && x in xs
    ensures StrLe(xs[0], x)
  {
    var i :| 0 <= i < |xs| && xs[i] == x;
    if i == 0 {
      StrLeReflexive(x);
    }
  }

  lemma SortedTail(xs: seq<string>)
    requires StrSorted(xs) && xs != []
    ensures StrSorted(xs[1..])
  {
    forall a, b | 0 <= a < b < |xs| - 1 ensures StrLe(xs[1..][a], xs[1..][b]) {
      assert xs[1..][a] == xs[a + 1] && xs[1..][b] == xs[b + 1];
    }
  }

  lemma MultisetTail(xs: seq<string>, ys: seq<string>)
    requires xs != [] && ys != [] && xs[0] == ys[0]
    requires multiset(xs) == multiset(ys)
    ensures multiset(xs[1..]) == multiset(ys[1..])
  {
    assert xs == [xs[0]] + xs[1..] && ys == [ys[0]] + ys[1..];
    assert multiset(xs) == multiset{xs[0]} + multiset(xs[1..]);
    assert multiset(ys) == multiset{ys[0]} + multiset(ys[1..]);
    forall e ensures multiset(xs[1..])[e] == multiset(ys[1..])[e] {
      assert multiset(xs)[e] == multiset{xs[0]}[e] + multiset(xs[1..])[e];
      assert multiset(ys)[e] == multiset{ys[0]}[e] + multiset(ys[1..])[e];
    }
  }

  /** A sorted list is determined by the multiset of its entries. */
  lemma {:induction false} StrSortedUnique(xs: seq<string>, ys: seq<string>)
    requires StrSorted(xs) && StrSorted(ys)
    requires multiset(xs) == multiset(ys)
    ensures xs == ys
    decreases |xs|
  {
    assert |xs| == |multiset(xs)| == |multiset(ys)| == |ys|;
    if xs != [] {
      assert xs[0] in multiset(ys) && ys[0] in multiset(xs);
      SortedHeadLeast(ys, xs[0]);
      SortedHeadLeast(xs, ys[0]);
      StrLeAntisymmetric(xs[0], ys[0]);
      MultisetTail(xs, ys);
      SortedTail(xs);
      SortedTail(ys);
      StrSortedUnique(xs[1..], ys[1..]);
      assert xs == [xs[0]] + xs[1..] && ys == [ys[0]] + ys[1..];
    }
  }

  /** `sorted([a, b, c])`. */
  function Sort3(a: string, b: string, c: string): seq<string> {
    var lo := if StrLe(a, b) then a else b;
    var hi := if StrLe(a, b) then b else a;
    if StrLe(hi, c) then [lo, hi, c]
    else if StrLe(lo, c) then [lo, c, hi]
    else [c, lo, hi]
  }

  /** `Sort3` sorts: its result is an ordering of its three arguments, and sorted. */
  lemma Sort3Spec(a: string, b: string, c: string)
    ensures |Sort3(a, b, c)| == 3 && multiset(Sort3(a, b, c)) == multiset{a, b, c}
    ensures StrSorted(Sort3(a, b, c))
  {
    StrLeTotal(a, b);
    var lo := if StrLe(a, b) then a else b;
    var hi := if StrLe(a, b) then b else a;
    Insert3(lo, hi, c);
  }

  /** Inserting `c` into the sorted pair `lo <= hi`. */
  lemma Insert3(lo: string, hi: string, c: string)
    requires StrLe(lo, hi)
    ensures StrLe(hi, c) ==> StrSorted([lo, hi, c])
    ensures !StrLe(hi, c) && StrLe(lo, c) ==> StrSorted([lo, c, hi])
    ensures !StrLe(hi, c) && !StrLe(lo, c) ==> StrSorted([c, lo, hi])
  {
    StrLeTotal(hi, c);
    StrLeTotal(lo, c);
    if StrLe(hi, c) {
      StrLeTransitive(lo, hi, c);
    } else if !StrLe(lo, c) {
      StrLeTransitive(c, lo, hi);
    }
  }
}
