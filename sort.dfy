/**
 * Python's `sorted(xs, key=k, reverse=True)`: a stable sort on a real key,
 * largest key first. Stability survives `reverse=True`: elements with equal keys
 * keep their original relative order.
 */
module StableSort {

  /** Places `x` in front of the first element whose key is not larger than its own. */
  function Insert<T>(x: T, s: seq<T>, key: T -> real): seq<T>
    decreases |s|
  {
    if s == [] then [x]
    else if key(x) >= key(s[0]) then [x] + s
    else [s[0]] + Insert(x, s[1..], key)
  }

  /** Insertion sort, descending by `key`, taking the input from the front. */
  function SortDesc<T>(s: seq<T>, key: T -> real): seq<T>
    decreases |s|
  {
    if s == [] then [] else Insert(s[0], SortDesc(s[1..], key), key)
  }

  ghost predicate NonIncreasing<T>(s: seq<T>, key: T -> real) {
    forall i, j :: 0 <= i < j < |s| ==> key(s[i]) >= key(s[j])
  }

  /** The elements of `s` whose key is exactly `c`, in their order in `s`. */
  function WithKey<T>(s: seq<T>, key: T -> real, c: real): seq<T>
    decreases |s|
  {
    if s == [] then []
    else (if key(s[0]) == c then [s[0]] else []) + WithKey(s[1..], key, c)
  }

  lemma {:induction false} InsertPermutes<T>(x: T, s: seq<T>, key: T -> real)
    ensures multiset(Insert(x, s, key)) == multiset(s) + multiset{x}
    decreases |s|
  {
    if s != [] && key(x) < key(s[0]) {
      InsertPermutes(x, s[1..], key);
      assert s == [s[0]] + s[1..];
    }
  }

  lemma TailNonIncreasing<T>(s: seq<T>, key: T -> real)
    requires s != [] && NonIncreasing(s, key)
    ensures NonIncreasing(s[1..], key)
    ensures forall k :: 0 <= k < |s[1..]| ==> key(s[0]) >= key(s[1..][k])
  {
    var t := s[1..];
    forall i, j | 0 <= i < j < |t| ensures key(t[i]) >= key(t[j]) {
      assert t[i] == s[i + 1] && t[j] == s[j + 1];
    }
  }

  lemma ConsNonIncreasing<T>(x: T, s: seq<T>, key: T -> real)
    requires NonIncreasing(s, key)
    requires forall k :: 0 <= k < |s| ==> key(x) >= key(s[k])
    ensures NonIncreasing([x] + s, key)
  {
    var r := [x] + s;
    forall i, j | 0 <= i < j < |r| ensures key(r[i]) >= key(r[j]) {
      assert r[j] == s[j - 1];
      if i > 0 {
        assert r[i] == s[i - 1];
      }
    }
  }

  lemma {:induction false} InsertSorted<T>(x: T, s: seq<T>, key: T -> real)
    requires NonIncreasing(s, key)
    ensures NonIncreasing(Insert(x, s, key), key)
    decreases |s|
  {
    if s == [] {
    } else if key(x) >= key(s[0]) {
      forall k | 0 <= k < |s| ensures key(x) >= key(s[k]) {
        assert k == 0 || key(s[0]) >= key(s[k]);
      }
      ConsNonIncreasing(x, s, key);
    } else {
      var t := s[1..];
      TailNonIncreasing(s, key);
      InsertSorted(x, t, key);
      InsertPermutes(x, t, key);
      var rest := Insert(x, t, key);
      forall k | 0 <= k < |rest| ensures key(s[0]) >= key(rest[k]) {
        assert rest[k] in multiset(rest);
        if rest[k] != x {
          assert rest[k] in multiset(t);
          var m :| 0 <= m < |t| && t[m] == rest[k];
        }
      }
      ConsNonIncreasing(s[0], rest, key);
    }
  }

  lemma {:induction false} InsertStable<T>(x: T, s: seq<T>, key: T -> real, c: real)
    requires NonIncreasing(s, key)
    ensures WithKey(Insert(x, s, key), key, c) == (if key(x) == c then [x] else []) + WithKey(s, key, c)
    decreases |s|
  {
    if s == [] {
    } else if key(x) >= key(s[0]) {
      assert ([x] + s)[1..] == s;
    } else {
      var t := s[1..];
      TailNonIncreasing(s, key);
      InsertStable(x, t, key, c);
      var r := [s[0]] + Insert(x, t, key);
      assert r[1..] == Insert(x, t, key);
    }
  }

  lemma {:induction false} SortDescCorrect<T>(s: seq<T>, key: T -> real, c: real)
    ensures NonIncreasing(SortDesc(s, key), key)
    ensures multiset(SortDesc(s, key)) == multiset(s)
    ensures WithKey(SortDesc(s, key), key, c) == WithKey(s, key, c)
    decreases |s|
  {
    if s != [] {
      SortDescCorrect(s[1..], key, c);
      InsertSorted(s[0], SortDesc(s[1..], key), key);
      InsertPermutes(s[0], SortDesc(s[1..], key), key);
      InsertStable(s[0], SortDesc(s[1..], key), key, c);
      assert s == [s[0]] + s[1..];
    }
  }

  /** The sorted sequence is a permutation, non-increasing, and stable on every key value. */
  lemma SortDescSpec<T>(s: seq<T>, key: T -> real)
    ensures NonIncreasing(SortDesc(s, key), key)
    ensures multiset(SortDesc(s, key)) == multiset(s)
    ensures forall c :: WithKey(SortDesc(s, key), key, c) == WithKey(s, key, c)
  {
    SortDescCorrect(s, key, 0.0);
    forall c ensures WithKey(SortDesc(s, key), key, c) == WithKey(s, key, c) {
      SortDescCorrect(s, key, c);
    }
  }

  /** The head of the sorted sequence carries the largest key of the input. */
  lemma SortDescHead<T>(s: seq<T>, key: T -> real)
    requires s != []
    ensures |SortDesc(s, key)| == |s|
    ensures SortDesc(s, key)[0] in s
    ensures forall k :: 0 <= k < |s| ==> key(s[k]) <= key(SortDesc(s, key)[0])
  {
    SortDescSpec(s, key);
    var r := SortDesc(s, key);
    assert |r| == |multiset(r)| == |multiset(s)| == |s|;
    assert r[0] in multiset(r);
    forall k | 0 <= k < |s| ensures key(s[k]) <= key(r[0]) {
      assert s[k] in multiset(s);
      var m :| 0 <= m < |r| && r[m] == s[k];
    }
  }
}
