/**
 * Grouping into a dictionary of lists: `if k not in d: d[k] = []` followed by
 * `d[k].append(x)`, with Python's insertion-ordered dictionaries. The groups are
 * kept as a list of (key, members) entries in insertion order.
 */
module Grouping {
  import opened Wrappers

  datatype Group<T, K> = Group(key: K, members: seq<T>)

  /** The position of the entry for `k`, if there is one. */
  function IndexOfKey<T, K(==)>(groups: seq<Group<T, K>>, k: K): (r: Option<nat>)
    ensures r.Some? ==> r.value < |groups| && groups[r.value].key == k
    ensures r.None? ==> forall i :: 0 <= i < |groups| ==> groups[i].key != k
    decreases |groups|
  {
    if groups == [] then None
    else if groups[|groups| - 1].key == k then Some(|groups| - 1)
    else IndexOfKey(groups[..|groups| - 1], k)
  }

  /** One step of the grouping loop: append `x` to its key's list, created at the end when new. */
  function AddTo<T, K(==)>(groups: seq<Group<T, K>>, x: T, key: T -> K): seq<Group<T, K>> {
    match IndexOfKey(groups, key(x))
    case Some(i) => groups[i := groups[i].(members := groups[i].members + [x])]
    case None => groups + [Group(key(x), [x])]
  }

  /** The dictionary after the whole loop over `xs`. */
  function GroupBy<T, K(==)>(xs: seq<T>, key: T -> K): seq<Group<T, K>>
    decreases |xs|
  {
    if xs == [] then [] else AddTo(GroupBy(xs[..|xs| - 1], key), xs[|xs| - 1], key)
  }

  /** The elements of `xs` with key `k`, in order. */
  function Having<T, K(==)>(xs: seq<T>, key: T -> K, k: K): seq<T>
    decreases |xs|
  {
    if xs == [] then []
    else Having(xs[..|xs| - 1], key, k) + (if key(xs[|xs| - 1]) == k then [xs[|xs| - 1]] else [])
  }

  lemma {:induction false} HavingMember<T, K>(xs: seq<T>, key: T -> K, k: K, x: T)
    ensures x in Having(xs, key, k) <==> x in xs && key(x) == k
    decreases |xs|
  {
    if xs != [] {
      HavingMember(xs[..|xs| - 1], key, k, x);
      assert xs == xs[..|xs| - 1] + [xs[|xs| - 1]];
    }
  }

  ghost predicate DistinctKeys<T, K>(groups: seq<Group<T, K>>) {
    forall i, j :: 0 <= i < j < |groups| ==> groups[i].key != groups[j].key
  }

  ghost predicate GroupsHold<T, K>(xs: seq<T>, key: T -> K, groups: seq<Group<T, K>>) {
    forall i :: 0 <= i < |groups| ==> groups[i].members == Having(xs, key, groups[i].key) && groups[i].members != []
  }

  ghost predicate GroupsCover<T, K>(xs: seq<T>, key: T -> K, groups: seq<Group<T, K>>) {
    forall x :: x in xs ==> exists i :: 0 <= i < |groups| && groups[i].key == key(x)
  }

  /** `groups` groups `xs`: one entry per key occurring in `xs`, holding its elements in order. */
  ghost predicate GroupsOf<T, K>(xs: seq<T>, key: T -> K, groups: seq<Group<T, K>>) {
    DistinctKeys(groups) && GroupsHold(xs, key, groups) && GroupsCover(xs, key, groups)
  }

  lemma HavingSnoc<T, K>(xs: seq<T>, x: T, key: T -> K, k: K)
    ensures Having(xs + [x], key, k) == Having(xs, key, k) + (if key(x) == k then [x] else [])
  {
    assert (xs + [x])[..|xs|] == xs;
  }

  lemma {:induction false} HavingNone<T, K>(xs: seq<T>, key: T -> K, k: K)
    requires forall x :: x in xs ==> key(x) != k
    ensures Having(xs, key, k) == []
    decreases |xs|
  {
    if xs != [] {
      assert forall x :: x in xs[..|xs| - 1] ==> x in xs;
      HavingNone(xs[..|xs| - 1], key, k);
    }
  }

  lemma AddKeepsDistinct<T, K>(groups: seq<Group<T, K>>, x: T, key: T -> K)
    requires DistinctKeys(groups)
    ensures DistinctKeys(AddTo(groups, x, key))
  {
  }

  lemma AddKeepsCover<T, K>(xs: seq<T>, groups: seq<Group<T, K>>, x: T, key: T -> K)
    requires GroupsCover(xs, key, groups)
    ensures GroupsCover(xs + [x], key, AddTo(groups, x, key))
  {
    var r := AddTo(groups, x, key);
    assert forall k :: 0 <= k < |groups| ==> r[k].key == groups[k].key;
    assert exists k :: 0 <= k < |r| && r[k].key == key(x) by {
      match IndexOfKey(groups, key(x))
      case Some(i) => assert r[i].key == key(x);
      case None => assert r[|groups|].key == key(x);
    }
    forall y | y in xs + [x] ensures exists k :: 0 <= k < |r| && r[k].key == key(y) {
      if y != x {
        assert y in xs;
        var k :| 0 <= k < |groups| && groups[k].key == key(y);
        assert r[k].key == key(y);
      }
    }
  }

  lemma AddKeepsHold<T, K>(xs: seq<T>, groups: seq<Group<T, K>>, x: T, key: T -> K)
    requires GroupsOf(xs, key, groups)
    ensures GroupsHold(xs + [x], key, AddTo(groups, x, key))
  {
    var r := AddTo(groups, x, key);
    forall k | 0 <= k < |r| ensures r[k].members == Having(xs + [x], key, r[k].key) && r[k].members != [] {
      HavingSnoc(xs, x, key, r[k].key);
      if k == |groups| {
        assert IndexOfKey(groups, key(x)).None?;
        assert forall y :: y in xs ==> key(y) != key(x) by {
          forall y | y in xs ensures key(y) != key(x) {
            var m :| 0 <= m < |groups| && groups[m].key == key(y);
          }
        }
        HavingNone(xs, key, key(x));
      }
    }
  }

  /** The grouping invariant survives one step of the loop. */
  lemma AddToSpec<T, K>(xs: seq<T>, groups: seq<Group<T, K>>, x: T, key: T -> K)
    requires GroupsOf(xs, key, groups)
    ensures GroupsOf(xs + [x], key, AddTo(groups, x, key))
  {
    AddKeepsDistinct(groups, x, key);
    AddKeepsCover(xs, groups, x, key);
    AddKeepsHold(xs, groups, x, key);
  }

  /** `GroupBy` groups its input: distinct keys, each entry the elements of its key in order. */
  lemma {:induction false} GroupBySpec<T, K>(xs: seq<T>, key: T -> K)
    ensures GroupsOf(xs, key, GroupBy(xs, key))
    decreases |xs|
  {
    if xs != [] {
      var init, last := xs[..|xs| - 1], xs[|xs| - 1];
      assert init + [last] == xs;
      GroupBySpec(init, key);
      AddToSpec(init, GroupBy(init, key), last, key);
    }
  }

  /**
   * A dictionary `d` with key list `keys` (its insertion order) holds the
   * entries `groups`.
   */
  ghost predicate Represents<T, K>(keys: seq<K>, d: map<K, seq<T>>, groups: seq<Group<T, K>>) {
    && |keys| == |groups|
    && (forall i :: 0 <= i < |groups| ==> keys[i] == groups[i].key && keys[i] in d && d[keys[i]] == groups[i].members)
    && (forall k :: k in d ==> k in keys)
  }

  lemma RepresentsEntry<T, K>(keys: seq<K>, d: map<K, seq<T>>, groups: seq<Group<T, K>>, i: nat)
    requires Represents(keys, d, groups) && i < |keys|
    ensures keys[i] in d && groups[i] == Group(keys[i], d[keys[i]])
  {
  }

  /** The dictionary update of one loop step does what `AddTo` does to the entries. */
  lemma RepresentsStep<T, K>(keys: seq<K>, d: map<K, seq<T>>, groups: seq<Group<T, K>>, x: T, key: T -> K)
    requires Represents(keys, d, groups) && DistinctKeys(groups)
    ensures Represents(if key(x) in d then keys else keys + [key(x)],
                       d[key(x) := (if key(x) in d then d[key(x)] else []) + [x]],
                       AddTo(groups, x, key))
  {
    var k := key(x);
    var r := AddTo(groups, x, key);
    if k in d {
      var i :| 0 <= i < |keys| && keys[i] == k;
      assert IndexOfKey(groups, k) == Some(i);
    } else {
      assert IndexOfKey(groups, k).None?;
    }
  }

  /** The grouping loop, on a dictionary `d` and the list of its keys in insertion order. */
  method GroupInto<T, K(==)>(xs: seq<T>, key: T -> K) returns (keys: seq<K>, d: map<K, seq<T>>)
    ensures Represents(keys, d, GroupBy(xs, key))
  {
    keys := [];
    d := map[];
    for n := 0 to |xs|
      invariant Represents(keys, d, GroupBy(xs[..n], key))
    {
      var x := xs[n];
      var k := key(x);
      GroupBySpec(xs[..n], key);
      RepresentsStep(keys, d, GroupBy(xs[..n], key), x, key);
      assert xs[..n + 1][..n] == xs[..n];
      if k !in d {
        keys := keys + [k];
        d := d[k := []];
      }
      d := d[k := d[k] + [x]];
    }
    assert xs[..|xs|] == xs;
  }
}
