/**
 * The two loop shapes the gap detectors share, as functions: a scan that keeps
 * what a per-element test produces (`for x in xs: ... gaps.append(...)`) and the
 * scan over unordered pairs `for i, x in enumerate(xs): for y in xs[i+1:]: ...`.
 * Both keep the order in which the loops would append.
 */
module Sweep {
  import opened Wrappers

  /** The `Some` results of `f` over `xs`, in order. */
  function Each<T, U>(xs: seq<T>, f: T -> Option<U>): seq<U>
    decreases |xs|
  {
    if xs == [] then [] else Each(xs[..|xs| - 1], f) + OptSeq(f(xs[|xs| - 1]))
  }

  /** Row `a` of the pair scan: the `Some` results of `f(a, b)` for the `b` of `bs`, in order. */
  function EachWith<T, U>(a: T, bs: seq<T>, f: (T, T) -> Option<U>): seq<U>
    decreases |bs|
  {
    if bs == [] then [] else EachWith(a, bs[..|bs| - 1], f) + OptSeq(f(a, bs[|bs| - 1]))
  }

  /** The pair scan restricted to its first `n` rows. */
  function PairsUpTo<T, U>(xs: seq<T>, f: (T, T) -> Option<U>, n: nat): seq<U>
    requires n <= |xs|
  {
    if n == 0 then [] else PairsUpTo(xs, f, n - 1) + EachWith(xs[n - 1], xs[n..], f)
  }

  /** The `Some` results of `f(xs[i], xs[j])` for all `i < j`, row by row. */
  function Pairs<T, U>(xs: seq<T>, f: (T, T) -> Option<U>): seq<U> {
    PairsUpTo(xs, f, |xs|)
  }

  lemma {:induction false} EachMember<T, U>(xs: seq<T>, f: T -> Option<U>, u: U)
    ensures u in Each(xs, f) <==> exists i :: 0 <= i < |xs| && f(xs[i]) == Some(u)
    decreases |xs|
  {
    if xs != [] {
      var init := xs[..|xs| - 1];
      EachMember(init, f, u);
      if exists i :: 0 <= i < |xs| && f(xs[i]) == Some(u) {
        var i :| 0 <= i < |xs| && f(xs[i]) == Some(u);
        if i < |xs| - 1 {
          assert f(init[i]) == Some(u);
        }
      }
      if exists i :: 0 <= i < |init| && f(init[i]) == Some(u) {
        var i :| 0 <= i < |init| && f(init[i]) == Some(u);
        assert f(xs[i]) == Some(u);
      }
    }
  }

  lemma {:induction false} EachLength<T, U>(xs: seq<T>, f: T -> Option<U>)
    ensures |Each(xs, f)| <= |xs|
    decreases |xs|
  {
    if xs != [] {
      EachLength(xs[..|xs| - 1], f);
    }
  }

  lemma {:induction false} EachWithMember<T, U>(a: T, bs: seq<T>, f: (T, T) -> Option<U>, u: U)
    ensures u in EachWith(a, bs, f) <==> exists j :: 0 <= j < |bs| && f(a, bs[j]) == Some(u)
    decreases |bs|
  {
    if bs != [] {
      var init := bs[..|bs| - 1];
      EachWithMember(a, init, f, u);
      if exists j :: 0 <= j < |bs| && f(a, bs[j]) == Some(u) {
        var j :| 0 <= j < |bs| && f(a, bs[j]) == Some(u);
        if j < |bs| - 1 {
          assert f(a, init[j]) == Some(u);
        }
      }
      if exists j :: 0 <= j < |init| && f(a, init[j]) == Some(u) {
        var j :| 0 <= j < |init| && f(a, init[j]) == Some(u);
        assert f(a, bs[j]) == Some(u);
      }
    }
  }

  lemma {:induction false} PairsUpToMember<T, U>(xs: seq<T>, f: (T, T) -> Option<U>, n: nat, u: U)
    requires n <= |xs|
    ensures u in PairsUpTo(xs, f, n) <==>
            exists i, j :: 0 <= i < n && i < j < |xs| && f(xs[i], xs[j]) == Some(u)
  {
    if n > 0 {
      PairsUpToMember(xs, f, n - 1, u);
      var row := xs[n..];
      EachWithMember(xs[n - 1], row, f, u);
      if u in PairsUpTo(xs, f, n - 1) {
        var i, j :| 0 <= i < n - 1 && i < j < |xs| && f(xs[i], xs[j]) == Some(u);
        assert 0 <= i < n && i < j < |xs|;
      } else if u in EachWith(xs[n - 1], row, f) {
        var j :| 0 <= j < |row| && f(xs[n - 1], row[j]) == Some(u);
        assert f(xs[n - 1], xs[j + n]) == Some(u);
        assert 0 <= n - 1 < n && n - 1 < j + n < |xs|;
      } else {
        forall i, j | 0 <= i < n && i < j < |xs|
          ensures f(xs[i], xs[j]) != Some(u)
        {
          if i == n - 1 {
            assert row[j - n] == xs[j];
          }
        }
      }
    }
  }

  /** One more step of a row. */
  lemma EachWithStep<T, U>(a: T, bs: seq<T>, f: (T, T) -> Option<U>, k: nat)
    requires k < |bs|
    ensures EachWith(a, bs[..k + 1], f) == EachWith(a, bs[..k], f) + OptSeq(f(a, bs[k]))
  {
    assert bs[..k + 1][..k] == bs[..k];
  }

  /** One more step of a plain scan. */
  lemma EachStep<T, U>(xs: seq<T>, f: T -> Option<U>, k: nat)
    requires k < |xs|
    ensures Each(xs[..k + 1], f) == Each(xs[..k], f) + OptSeq(f(xs[k]))
  {
    assert xs[..k + 1][..k] == xs[..k];
  }

  /** Results told apart by `h` whenever their inputs produce results stay told apart. */
  lemma {:induction false} EachDistinct<T, U, V>(xs: seq<T>, f: T -> Option<U>, h: U -> V)
    requires forall i, j :: 0 <= i < j < |xs| && f(xs[i]).Some? && f(xs[j]).Some? ==> h(f(xs[i]).value) != h(f(xs[j]).value)
    ensures forall a, b :: 0 <= a < b < |Each(xs, f)| ==> h(Each(xs, f)[a]) != h(Each(xs, f)[b])
    decreases |xs|
  {
    if xs != [] {
      var init, last := xs[..|xs| - 1], xs[|xs| - 1];
      EachDistinct(init, f, h);
      var r0 := Each(init, f);
      var r := Each(xs, f);
      forall a, b | 0 <= a < b < |r| ensures h(r[a]) != h(r[b]) {
        if b >= |r0| {
          assert r[a] == r0[a] && r[a] in r0;
          EachMember(init, f, r[a]);
          var i :| 0 <= i < |init| && f(init[i]) == Some(r[a]);
          assert f(xs[i]) == Some(r[a]) && f(last).Some? && r[b] == f(last).value;
        } else {
          assert r[a] == r0[a] && r[b] == r0[b];
        }
      }
    }
  }

  /**
   * The pair scan as the detectors run it: `for i, x in enumerate(xs): for y in
   * xs[i+1:]: ...`, appending what the pair test produces.
   */
  method ScanPairs<T, U>(xs: seq<T>, f: (T, T) -> Option<U>) returns (out: seq<U>)
    ensures out == Pairs(xs, f)
  {
    out := [];
    for i := 0 to |xs|
      invariant out == PairsUpTo(xs, f, i)
    {
      var rest := xs[i + 1..];
      for k := 0 to |rest|
        invariant out == PairsUpTo(xs, f, i) + EachWith(xs[i], rest[..k], f)
      {
        EachWithStep(xs[i], rest, f, k);
        out := out + OptSeq(f(xs[i], rest[k]));
      }
      assert rest[..|rest|] == rest;
    }
  }

  lemma PairsMember<T, U>(xs: seq<T>, f: (T, T) -> Option<U>, u: U)
    ensures u in Pairs(xs, f) <==> exists i, j :: 0 <= i < j < |xs| && f(xs[i], xs[j]) == Some(u)
  {
    PairsUpToMember(xs, f, |xs|, u);
  }
}

/** Python's slice `s[:n]`. */
module Slices {
  function Take<T>(s: seq<T>, n: nat): (r: seq<T>)
    ensures |r| <= n && |r| <= |s| && r == s[..|r|]
    ensures |s| <= n ==> r == s
    ensures n <= |s| ==> |r| == n
  {
    if |s| <= n then s else s[..n]
  }
}
