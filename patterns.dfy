/**
 * `_find_pattern_gaps` and `_has_explaining_hypothesis`: triangles of the view
 * are grouped by the sorted types of their corners; a type pattern seen at least
 * three times that no hypothesis node touches in most instances is proposed as
 * the trace of a general mechanism.
 */
module PatternGaps {
  import opened Wrappers
  import opened Text
  import opened GraphView
  import opened Gaps
  import opened Sweep
  import opened Slices
  import opened Grouping

  const PatternMethods: seq<string> := ["Meta-analysis", "Systems biology approach", "Pathway analysis"]

  /** A 3-clique, corners in node order. */
  datatype Triangle = Triangle(a: Node, b: Node, c: Node)

  function Corners(t: Triangle): seq<Node> {
    [t.a, t.b, t.c]
  }

  /** The corners `nodes[i], nodes[j], nodes[k]` are pairwise linked. */
  predicate IsTriangle(g: Graph, nodes: seq<Node>, i: nat, j: nat, k: nat)
    requires i < j < k < |nodes|
  {
    HasEdge(g, nodes[i].id, nodes[j].id) && HasEdge(g, nodes[i].id, nodes[k].id) && HasEdge(g, nodes[j].id, nodes[k].id)
  }

  /** Triangles `(i, j, k)` for fixed `i < j` and `k` from `k0` on. */
  function Thirds(g: Graph, ns: seq<Node>, i: nat, j: nat, k0: nat): seq<Triangle>
    requires i < j < k0 <= |ns|
    decreases |ns| - k0
  {
    if k0 == |ns| then []
    else (if IsTriangle(g, ns, i, j, k0) then [Triangle(ns[i], ns[j], ns[k0])] else []) + Thirds(g, ns, i, j, k0 + 1)
  }

  /** Triangles `(i, j, k)` for fixed `i` and `j` from `j0` on. */
  function Seconds(g: Graph, ns: seq<Node>, i: nat, j0: nat): seq<Triangle>
    requires i < j0 <= |ns|
    decreases |ns| - j0
  {
    if j0 == |ns| then []
    else Thirds(g, ns, i, j0, j0 + 1) + Seconds(g, ns, i, j0 + 1)
  }

  /** Triangles `(i, j, k)` with `i` from `i0` on. */
  function Firsts(g: Graph, ns: seq<Node>, i0: nat): seq<Triangle>
    requires i0 <= |ns|
    decreases |ns| - i0
  {
    if i0 == |ns| then [] else Seconds(g, ns, i0, i0 + 1) + Firsts(g, ns, i0 + 1)
  }

  /**
   * The size-3 cliques of the view in the order networkx's `enumerate_all_cliques`
   * yields them when nodes are indexed in insertion order: by lowest corner, then
   * middle corner, then highest corner.
   */
  function Triangles(g: Graph): seq<Triangle> {
    Firsts(g, g.nodes, 0)
  }

  lemma {:induction false} ThirdsMember(g: Graph, ns: seq<Node>, i: nat, j: nat, k0: nat, t: Triangle)
    requires i < j < k0 <= |ns|
    ensures t in Thirds(g, ns, i, j, k0) <==>
              exists k :: k0 <= k < |ns| && IsTriangle(g, ns, i, j, k) && t == Triangle(ns[i], ns[j], ns[k])
    decreases |ns| - k0
  {
    if k0 < |ns| {
      ThirdsMember(g, ns, i, j, k0 + 1, t);
    }
  }

  lemma {:induction false} SecondsMember(g: Graph, ns: seq<Node>, i: nat, j0: nat, t: Triangle)
    requires i < j0 <= |ns|
    ensures t in Seconds(g, ns, i, j0) <==>
              exists j, k :: j0 <= j < k < |ns| && IsTriangle(g, ns, i, j, k) && t == Triangle(ns[i], ns[j], ns[k])
    decreases |ns| - j0
  {
    if j0 < |ns| {
      SecondsMember(g, ns, i, j0 + 1, t);
      ThirdsMember(g, ns, i, j0, j0 + 1, t);
    }
  }

  lemma SecondsSound(g: Graph, ns: seq<Node>, i: nat, j0: nat, t: Triangle) returns (j: nat, k: nat)
    requires i < j0 <= |ns| && t in Seconds(g, ns, i, j0)
    ensures j0 <= j < k < |ns| && IsTriangle(g, ns, i, j, k) && t == Triangle(ns[i], ns[j], ns[k])
  {
    SecondsMember(g, ns, i, j0, t);
    j, k :| j0 <= j < k < |ns| && IsTriangle(g, ns, i, j, k) && t == Triangle(ns[i], ns[j], ns[k]);
  }

  lemma {:induction false} FirstsSound(g: Graph, ns: seq<Node>, i0: nat, t: Triangle)
    returns (i: nat, j: nat, k: nat)
    requires i0 <= |ns| && t in Firsts(g, ns, i0)
    ensures i0 <= i < j < k < |ns| && IsTriangle(g, ns, i, j, k) && t == Triangle(ns[i], ns[j], ns[k])
    decreases |ns| - i0
  {
    assert t in Seconds(g, ns, i0, i0 + 1) + Firsts(g, ns, i0 + 1);
    if t in Seconds(g, ns, i0, i0 + 1) {
      i := i0;
      j, k := SecondsSound(g, ns, i0, i0 + 1, t);
    } else {
      i, j, k := FirstsSound(g, ns, i0 + 1, t);
    }
  }

  lemma {:induction false} FirstsComplete(g: Graph, ns: seq<Node>, i0: nat, t: Triangle, i: nat, j: nat, k: nat)
    requires i0 <= i < j < k < |ns| && IsTriangle(g, ns, i, j, k) && t == Triangle(ns[i], ns[j], ns[k])
    ensures t in Firsts(g, ns, i0)
    decreases |ns| - i0
  {
    assert Firsts(g, ns, i0) == Seconds(g, ns, i0, i0 + 1) + Firsts(g, ns, i0 + 1);
    if i == i0 {
      SecondsComplete(g, ns, i0, i0 + 1, t, j, k);
    } else {
      FirstsComplete(g, ns, i0 + 1, t, i, j, k);
    }
  }

  lemma SecondsComplete(g: Graph, ns: seq<Node>, i: nat, j0: nat, t: Triangle, j: nat, k: nat)
    requires i < j0 <= j < k < |ns| && IsTriangle(g, ns, i, j, k) && t == Triangle(ns[i], ns[j], ns[k])
    ensures t in Seconds(g, ns, i, j0)
  {
    SecondsMember(g, ns, i, j0, t);
    assert j0 <= j < k < |ns| && IsTriangle(g, ns, i, j, k) && t == Triangle(ns[i], ns[j], ns[k]);
  }

  lemma FirstsMember(g: Graph, ns: seq<Node>, i0: nat, t: Triangle)
    requires i0 <= |ns|
    ensures t in Firsts(g, ns, i0) <==>
              exists i, j, k :: i0 <= i < j < k < |ns| && IsTriangle(g, ns, i, j, k) && t == Triangle(ns[i], ns[j], ns[k])
  {
    if t in Firsts(g, ns, i0) {
      var i, j, k := FirstsSound(g, ns, i0, t);
    }
    if exists i, j, k :: i0 <= i < j < k < |ns| && IsTriangle(g, ns, i, j, k) && t == Triangle(ns[i], ns[j], ns[k]) {
      var i, j, k :| i0 <= i < j < k < |ns| && IsTriangle(g, ns, i, j, k) && t == Triangle(ns[i], ns[j], ns[k]);
      FirstsComplete(g, ns, i0, t, i, j, k);
    }
  }

  /** The triangles are exactly the pairwise-linked triples of nodes, corners in node order. */
  lemma TrianglesMember(g: Graph, t: Triangle)
    ensures t in Triangles(g) <==>
              exists i, j, k :: 0 <= i < j < k < |g.nodes| && IsTriangle(g, g.nodes, i, j, k) &&
                t == Triangle(g.nodes[i], g.nodes[j], g.nodes[k])
  {
    FirstsMember(g, g.nodes, 0, t);
  }

  type Pattern = seq<string>

  /** `tuple(sorted([G.nodes[n]['type'] for n in triangle]))`. */
  function PatternOf(t: Triangle): Pattern {
    Sort3(t.a.attrs.kind, t.b.attrs.kind, t.c.attrs.kind)
  }

  /** A pattern lists the corners' types, each as often as it occurs, in sorted order. */
  lemma PatternOfSorted(t: Triangle)
    ensures |PatternOf(t)| == 3
    ensures multiset(PatternOf(t)) == multiset{t.a.attrs.kind, t.b.attrs.kind, t.c.attrs.kind}
    ensures StrSorted(PatternOf(t))
  {
    Sort3Spec(t.a.attrs.kind, t.b.attrs.kind, t.c.attrs.kind);
  }

  /** Two triangles share a pattern exactly when their corners carry the same types, counted with multiplicity. */
  lemma SamePattern(t: Triangle, u: Triangle)
    ensures PatternOf(t) == PatternOf(u) <==>
              multiset{t.a.attrs.kind, t.b.attrs.kind, t.c.attrs.kind} == multiset{u.a.attrs.kind, u.b.attrs.kind, u.c.attrs.kind}
  {
    Sort3Spec(t.a.attrs.kind, t.b.attrs.kind, t.c.attrs.kind);
    Sort3Spec(u.a.attrs.kind, u.b.attrs.kind, u.c.attrs.kind);
    if multiset{t.a.attrs.kind, t.b.attrs.kind, t.c.attrs.kind} == multiset{u.a.attrs.kind, u.b.attrs.kind, u.c.attrs.kind} {
      Sort3Spec(t.a.attrs.kind, t.b.attrs.kind, t.c.attrs.kind);
      Sort3Spec(u.a.attrs.kind, u.b.attrs.kind, u.c.attrs.kind);
      StrSortedUnique(PatternOf(t), PatternOf(u));
    }
  }

  /** `pattern_groups` after the grouping loop, in insertion order. */
  function PatternGroups(g: Graph): seq<Group<Triangle, Pattern>> {
    GroupBy(Triangles(g), PatternOf)
  }

  /** `G.has_edge(h, node)` for some corner `node` of `t`. */
  predicate Touches(g: Graph, h: NodeId, t: Triangle) {
    HasEdge(g, h, t.a.id) || HasEdge(g, h, t.b.id) || HasEdge(g, h, t.c.id)
  }

  /** `connected_to_pattern`: how many instances have a corner linked to `h`. */
  function CoveredCount(g: Graph, h: NodeId, instances: seq<Triangle>): (n: nat)
    ensures n <= |instances|
    decreases |instances|
  {
    if instances == [] then 0
    else CoveredCount(g, h, instances[..|instances| - 1]) + (if Touches(g, h, instances[|instances| - 1]) then 1 else 0)
  }

  /** `h` is linked to at least 70% of the instances. */
  predicate Covers(g: Graph, h: NodeId, instances: seq<Triangle>) {
    CoveredCount(g, h, instances) as real >= |instances| as real * 0.7
  }

  function HypothesisNodes(g: Graph): seq<Node> {
    OfKind(g.nodes, "hypothesis")
  }

  /** Some hypothesis node covers the instances. */
  predicate Explained(g: Graph, instances: seq<Triangle>) {
    exists k :: 0 <= k < |HypothesisNodes(g)| && Covers(g, HypothesisNodes(g)[k].id, instances)
  }

  lemma ExplainedMeans(g: Graph, instances: seq<Triangle>)
    ensures Explained(g, instances) <==>
              exists h :: h in g.nodes && h.attrs.kind == "hypothesis" && Covers(g, h.id, instances)
  {
    var hs := HypothesisNodes(g);
    if exists h :: h in g.nodes && h.attrs.kind == "hypothesis" && Covers(g, h.id, instances) {
      var h :| h in g.nodes && h.attrs.kind == "hypothesis" && Covers(g, h.id, instances);
      assert h in hs;
      var k :| 0 <= k < |hs| && hs[k] == h;
    }
    if Explained(g, instances) {
      var k :| 0 <= k < |hs| && Covers(g, hs[k].id, instances);
      assert hs[k] in hs;
    }
  }

  /** With no instances every hypothesis covers them, so an empty list is explained iff there is a hypothesis node. */
  lemma NoInstancesExplained(g: Graph)
    ensures Explained(g, []) <==> HypothesisNodes(g) != []
  {
    if HypothesisNodes(g) != [] {
      assert Covers(g, HypothesisNodes(g)[0].id, []);
    }
  }

  /** `_has_explaining_hypothesis`. */
  method HasExplainingHypothesis(g: Graph, instances: seq<Triangle>) returns (explained: bool)
    ensures explained == Explained(g, instances)
  {
    var hypothesisNodes := HypothesisNodes(g);
    for h := 0 to |hypothesisNodes|
      invariant forall h' :: 0 <= h' < h ==> !Covers(g, hypothesisNodes[h'].id, instances)
    {
      var hyp := hypothesisNodes[h].id;
      var connectedToPattern := 0;
      for i := 0 to |instances|
        invariant connectedToPattern == CoveredCount(g, hyp, instances[..i])
      {
        assert instances[..i + 1][..i] == instances[..i];
        var corners := Corners(instances[i]);
        var m := 0;
        while m < |corners| && !HasEdge(g, hyp, corners[m].id)
          invariant 0 <= m <= |corners|
          invariant forall m' :: 0 <= m' < m ==> !HasEdge(g, hyp, corners[m'].id)
        {
          m := m + 1;
        }
        assert (m < |corners|) == Touches(g, hyp, instances[i]) by {
          if m == |corners| {
            assert !HasEdge(g, hyp, corners[0].id) && !HasEdge(g, hyp, corners[1].id) && !HasEdge(g, hyp, corners[2].id);
          }
        }
        if m < |corners| {
          connectedToPattern := connectedToPattern + 1;
        }
      }
      assert instances[..|instances|] == instances;
      if connectedToPattern as real >= |instances| as real * 0.7 {
        return true;
      }
    }
    return false;
  }

  function FirstCornerNames(ts: seq<Triangle>): seq<string> {
    seq(|ts|, i requires 0 <= i < |ts| => ts[i].a.attrs.name)
  }

  /** The record reported for a pattern and its instances. */
  function PatternGap(pattern: Pattern, instances: seq<Triangle>): HypothesisGap {
    HypothesisGap(
      GeneralMechanism(pattern),
      Min(0.9, |instances| as real / 10.0),
      Recurring(|instances|, FirstCornerNames(Take(instances, 3))),
      [PatternDescriptor(pattern, |instances|, "GENERAL_MECHANISM")],
      Medium,
      PatternMethods)
  }

  /** The body of the loop over `pattern_groups.items()` for one entry. */
  function PatternCandidate(g: Graph, grp: Group<Triangle, Pattern>): Option<HypothesisGap> {
    if |grp.members| >= 3 && !Explained(g, grp.members) then Some(PatternGap(grp.key, grp.members)) else None
  }

  function PatternCandidates(g: Graph): Group<Triangle, Pattern> -> Option<HypothesisGap> {
    grp => PatternCandidate(g, grp)
  }

  /** What the detector returns: one gap per unexplained pattern seen three times or more, in insertion order. */
  function RecurringPatternGaps(g: Graph): seq<HypothesisGap> {
    Each(PatternGroups(g), PatternCandidates(g))
  }

  method FindPatternGaps(g: Graph) returns (gaps: seq<HypothesisGap>)
    ensures gaps == RecurringPatternGaps(g)
  {
    var triangles := Triangles(g);
    var patternKeys, patternGroups := GroupInto(triangles, PatternOf);
    ghost var groups := PatternGroups(g);
    ghost var f := PatternCandidates(g);
    gaps := [];
    for i := 0 to |patternKeys|
      invariant gaps == Each(groups[..i], f)
    {
      EachStep(groups, f, i);
      RepresentsEntry(patternKeys, patternGroups, groups, i);
      var patternType := patternKeys[i];
      var instances := patternGroups[patternType];
      assert groups[i] == Group(patternType, instances);
      if |instances| >= 3 {
        var explained := HasExplainingHypothesis(g, instances);
        if !explained {
          gaps := gaps + [PatternGap(patternType, instances)];
        }
      }
    }
    assert groups[..|groups|] == groups;
  }

  /** The gap reported for the pattern of the triangle `t`. */
  ghost predicate PatternReport(g: Graph, t: Triangle, gap: HypothesisGap) {
    && t in Triangles(g)
    && var p := PatternOf(t);
       var instances := Having(Triangles(g), PatternOf, p);
       && |instances| >= 3
       && !Explained(g, instances)
       && gap.claim == GeneralMechanism(p)
       && gap.confidence == Min(0.9, |instances| as real / 10.0)
       && gap.priority == Medium
       && gap.missing == [PatternDescriptor(p, |instances|, "GENERAL_MECHANISM")]
       && gap.evidence == Recurring(|instances|, FirstCornerNames(Take(instances, 3)))
       && gap.suggestedMethods == PatternMethods
  }

  /** Every reported gap is the report of some triangle's pattern. */
  lemma RecurringPatternGapsSound(g: Graph, gap: HypothesisGap)
    requires gap in RecurringPatternGaps(g)
    ensures exists t :: t in Triangles(g) && PatternReport(g, t, gap)
  {
    var groups := PatternGroups(g);
    EachMember(groups, PatternCandidates(g), gap);
    var i :| 0 <= i < |groups| && PatternCandidates(g)(groups[i]) == Some(gap);
    GroupBySpec(Triangles(g), PatternOf);
    var t := groups[i].members[0];
    assert t in groups[i].members;
    HavingMember(Triangles(g), PatternOf, groups[i].key, t);
    assert groups[i].members == Having(Triangles(g), PatternOf, PatternOf(t));
    PatternGapIsReport(g, t);
  }

  /** Every pattern seen at least three times and not explained by a hypothesis is reported. */
  lemma RecurringPatternGapsComplete(g: Graph, t: Triangle)
    requires t in Triangles(g)
    requires |Having(Triangles(g), PatternOf, PatternOf(t))| >= 3
    requires !Explained(g, Having(Triangles(g), PatternOf, PatternOf(t)))
    ensures exists gap :: gap in RecurringPatternGaps(g) && PatternReport(g, t, gap)
  {
    var groups := PatternGroups(g);
    var instances := Having(Triangles(g), PatternOf, PatternOf(t));
    GroupBySpec(Triangles(g), PatternOf);
    var i :| 0 <= i < |groups| && groups[i].key == PatternOf(t);
    assert groups[i].members == instances;
    var gap := PatternGap(PatternOf(t), instances);
    assert PatternCandidates(g)(groups[i]) == Some(gap);
    EachMember(groups, PatternCandidates(g), gap);
    PatternGapIsReport(g, t);
  }

  /** The record built for a recurring, unexplained pattern is that pattern's report. */
  lemma PatternGapIsReport(g: Graph, t: Triangle)
    requires t in Triangles(g)
    requires |Having(Triangles(g), PatternOf, PatternOf(t))| >= 3
    requires !Explained(g, Having(Triangles(g), PatternOf, PatternOf(t)))
    ensures PatternReport(g, t, PatternGap(PatternOf(t), Having(Triangles(g), PatternOf, PatternOf(t))))
  {
  }

  /** No pattern is reported twice. */
  lemma RecurringPatternGapsDistinct(g: Graph)
    ensures forall a, b :: 0 <= a < b < |RecurringPatternGaps(g)| ==>
              RecurringPatternGaps(g)[a].claim != RecurringPatternGaps(g)[b].claim
  {
    GroupBySpec(Triangles(g), PatternOf);
    EachDistinct(PatternGroups(g), PatternCandidates(g), ClaimOf);
  }

  function ClaimOf(gap: HypothesisGap): Claim {
    gap.claim
  }
}
