/**
 * `_find_untested_method_combinations` and its helpers: two methods that no
 * result has used together, whose embeddings are close and that share an
 * application area, are proposed as a combination.
 */
module MethodGaps {
  import opened Wrappers
  import opened GraphView
  import opened Embedding
  import opened Gaps
  import opened Sweep

  const CombinationMethods: seq<string> := ["Pilot study", "Feasibility analysis"]

  /** Node types that count as an application area. */
  const AreaKinds: set<string> := {"pathway", "gene", "hypothesis"}

  /**
   * `tuple(sorted([a, b]))`. A sorted pair is determined by the set of its
   * entries, so two keys are equal exactly when they hold the same ids.
   */
  type ComboKey = set<NodeId>

  function Key(a: NodeId, b: NodeId): ComboKey {
    {a, b}
  }

  function MethodNodes(g: Graph): seq<Node> {
    OfKind(g.nodes, "method")
  }

  /** The method-type neighbours of `r`, in node order. */
  function MethodNeighbors(g: Graph, r: NodeId): (ms: seq<Node>)
    ensures forall x :: x in ms <==> x in g.nodes && x.attrs.kind == "method" && x.id in Neighbors(g, r)
  {
    NodesIn(MethodNodes(g), Neighbors(g, r))
  }

  /** The keys of all pairs `a < b` of `ms`: the rows `a < i`, in full. */
  function RowsUpTo(ms: seq<Node>, i: nat): set<ComboKey>
    requires i <= |ms|
  {
    if i == 0 then {} else RowsUpTo(ms, i - 1) + RowPrefix(ms, i - 1, |ms|)
  }

  /** Row `i` of the pair loop up to (not including) column `j`. */
  function RowPrefix(ms: seq<Node>, i: nat, j: nat): set<ComboKey>
    requires i < |ms| && j <= |ms|
  {
    if j <= i + 1 then {} else RowPrefix(ms, i, j - 1) + {Key(ms[i].id, ms[j - 1].id)}
  }

  function PairKeys(ms: seq<Node>): set<ComboKey> {
    RowsUpTo(ms, |ms|)
  }

  /** What one node adds to the set: the method pairs of a result node. */
  function ResultPairs(g: Graph, node: Node): set<ComboKey> {
    if node.attrs.kind == "result" then PairKeys(MethodNeighbors(g, node.id)) else {}
  }

  function CombinationsUpTo(g: Graph, n: nat): set<ComboKey>
    requires n <= |g.nodes|
  {
    if n == 0 then {} else CombinationsUpTo(g, n - 1) + ResultPairs(g, g.nodes[n - 1])
  }

  /** `_get_successful_method_combinations`. */
  function SuccessfulCombinations(g: Graph): set<ComboKey> {
    CombinationsUpTo(g, |g.nodes|)
  }

  /** Some result node is linked to both `a` and `b`. */
  ghost predicate JointlyUsed(g: Graph, a: NodeId, b: NodeId) {
    exists r :: r in g.nodes && r.attrs.kind == "result" && HasEdge(g, r.id, a) && HasEdge(g, r.id, b)
  }

  method GetSuccessfulMethodCombinations(g: Graph) returns (combinations: set<ComboKey>)
    ensures combinations == SuccessfulCombinations(g)
  {
    combinations := {};
    for k := 0 to |g.nodes|
      invariant combinations == CombinationsUpTo(g, k)
    {
      var node := g.nodes[k];
      if node.attrs.kind == "result" {
        var methods := MethodNeighbors(g, node.id);
        if |methods| >= 2 {
          combinations := AddPairKeys(combinations, methods);
        } else {
          assert PairKeys(methods) == {} by {
            if |methods| == 1 {
              assert RowsUpTo(methods, 1) == RowsUpTo(methods, 0) + RowPrefix(methods, 0, 1);
            }
          }
        }
      }
    }
  }

  /** The nested `for i ... for j in range(i+1, len(methods))` loop of one result node. */
  method AddPairKeys(combinations0: set<ComboKey>, methods: seq<Node>) returns (combinations: set<ComboKey>)
    ensures combinations == combinations0 + PairKeys(methods)
  {
    combinations := combinations0;
    for i := 0 to |methods|
      invariant combinations == combinations0 + RowsUpTo(methods, i)
    {
      for j := i + 1 to |methods|
        invariant combinations == combinations0 + RowsUpTo(methods, i) + RowPrefix(methods, i, j)
      {
        combinations := combinations + {Key(methods[i].id, methods[j].id)};
      }
    }
  }

  lemma {:induction false} RowPrefixMember(ms: seq<Node>, i: nat, j: nat, c: ComboKey)
    requires i < |ms| && j <= |ms|
    ensures c in RowPrefix(ms, i, j) <==> exists b :: i < b < j && c == Key(ms[i].id, ms[b].id)
    decreases j
  {
    if j > i + 1 {
      RowPrefixMember(ms, i, j - 1, c);
    }
  }

  lemma {:induction false} RowsUpToMember(ms: seq<Node>, i: nat, c: ComboKey)
    requires i <= |ms|
    ensures c in RowsUpTo(ms, i) <==> exists a, b :: 0 <= a < i && a < b < |ms| && c == Key(ms[a].id, ms[b].id)
  {
    if i > 0 {
      RowsUpToMember(ms, i - 1, c);
      RowPrefixMember(ms, i - 1, |ms|, c);
    }
  }

  /** `PairKeys` holds exactly the keys of the pairs `a < b`. */
  lemma PairKeysMember(ms: seq<Node>, c: ComboKey)
    ensures c in PairKeys(ms) <==> exists a, b :: 0 <= a < b < |ms| && c == Key(ms[a].id, ms[b].id)
  {
    RowsUpToMember(ms, |ms|, c);
  }

  lemma {:induction false} CombinationsUpToMember(g: Graph, n: nat, c: ComboKey)
    requires n <= |g.nodes|
    ensures c in CombinationsUpTo(g, n) <==> exists k :: 0 <= k < n && c in ResultPairs(g, g.nodes[k])
  {
    if n > 0 {
      CombinationsUpToMember(g, n - 1, c);
    }
  }

  /** Every recorded combination is a pair of methods that some result used together. */
  lemma SuccessfulCombinationsSound(g: Graph, c: ComboKey)
    requires c in SuccessfulCombinations(g)
    ensures exists m1, m2 :: m1 in g.nodes && m1.attrs.kind == "method" &&
              m2 in g.nodes && m2.attrs.kind == "method" &&
              c == Key(m1.id, m2.id) && JointlyUsed(g, m1.id, m2.id)
  {
    CombinationsUpToMember(g, |g.nodes|, c);
    var k :| 0 <= k < |g.nodes| && c in ResultPairs(g, g.nodes[k]);
    var m1, m2 := ResultPairSound(g, g.nodes[k], c);
  }

  /** A key that a result node contributes joins two of its method neighbours. */
  lemma ResultPairSound(g: Graph, r: Node, c: ComboKey) returns (m1: Node, m2: Node)
    requires r in g.nodes && c in ResultPairs(g, r)
    ensures m1 in g.nodes && m1.attrs.kind == "method" && m2 in g.nodes && m2.attrs.kind == "method"
    ensures c == Key(m1.id, m2.id) && JointlyUsed(g, m1.id, m2.id)
  {
    var ms := MethodNeighbors(g, r.id);
    PairKeysMember(ms, c);
    var a, b :| 0 <= a < b < |ms| && c == Key(ms[a].id, ms[b].id);
    m1, m2 := ms[a], ms[b];
    assert m1 in ms && m2 in ms;
    UsedBy(g, r, m1.id, m2.id);
  }

  /** A result node linked to both methods witnesses their joint use. */
  lemma UsedBy(g: Graph, r: Node, a: NodeId, b: NodeId)
    requires r in g.nodes && r.attrs.kind == "result" && a in Neighbors(g, r.id) && b in Neighbors(g, r.id)
    ensures JointlyUsed(g, a, b)
  {
  }

  /** Every pair of distinct methods that some result used together is recorded. */
  lemma SuccessfulCombinationsComplete(g: Graph, m1: Node, m2: Node)
    requires m1 in g.nodes && m1.attrs.kind == "method"
    requires m2 in g.nodes && m2.attrs.kind == "method"
    requires m1.id != m2.id
    requires JointlyUsed(g, m1.id, m2.id)
    ensures Key(m1.id, m2.id) in SuccessfulCombinations(g)
  {
    var r :| r in g.nodes && r.attrs.kind == "result" && HasEdge(g, r.id, m1.id) && HasEdge(g, r.id, m2.id);
    var k :| 0 <= k < |g.nodes| && g.nodes[k] == r;
    var ms := MethodNeighbors(g, r.id);
    assert m1 in ms && m2 in ms;
    var a :| 0 <= a < |ms| && ms[a] == m1;
    var b :| 0 <= b < |ms| && ms[b] == m2;
    var c := Key(m1.id, m2.id);
    if a < b {
      assert c == Key(ms[a].id, ms[b].id);
    } else {
      assert c == Key(ms[b].id, ms[a].id);
    }
    PairKeysMember(ms, c);
    CombinationsUpToMember(g, |g.nodes|, c);
  }

  /** A key is recorded for two distinct methods exactly when some result used both. */
  lemma RecordedIffJointlyUsed(g: Graph, m1: Node, m2: Node)
    requires m1 in g.nodes && m1.attrs.kind == "method"
    requires m2 in g.nodes && m2.attrs.kind == "method"
    requires m1.id != m2.id
    ensures Key(m1.id, m2.id) in SuccessfulCombinations(g) <==> JointlyUsed(g, m1.id, m2.id)
  {
    var c := Key(m1.id, m2.id);
    if c in SuccessfulCombinations(g) {
      SuccessfulCombinationsSound(g, c);
      var x, y :| x in g.nodes && x.attrs.kind == "method" && y in g.nodes && y.attrs.kind == "method" &&
        c == Key(x.id, y.id) && JointlyUsed(g, x.id, y.id);
      assert x.id in c && y.id in c && m1.id in Key(x.id, y.id) && m2.id in Key(x.id, y.id);
      if x.id == m1.id {
        assert y.id == m2.id;
      } else {
        assert x.id == m2.id && y.id == m1.id;
      }
    } else if JointlyUsed(g, m1.id, m2.id) {
      SuccessfulCombinationsComplete(g, m1, m2);
    }
  }

  /** `_assess_method_compatibility`: the cosine clamped at 0, or 0.5 without both embeddings. */
  function Compatibility(cos: Cosine, a: Attrs, b: Attrs): (c: real)
    ensures c >= 0.0
    ensures Similarity(cos, a, b).None? ==> c == 0.5
    ensures c > 0.6 ==> Similarity(cos, a, b) == Some(c)
    ensures Similarity(cos, a, b).Some? && Similarity(cos, a, b).value > 0.6 ==> c == Similarity(cos, a, b).value
  {
    match Similarity(cos, a, b)
    case Some(s) => if s > 0.0 then s else 0.0
    case None => 0.5
  }

  /** The nodes of `nodes` whose type is an application area. */
  function AreaNodes(nodes: seq<Node>): (r: seq<Node>)
    ensures forall x :: x in r <==> x in nodes && x.attrs.kind in AreaKinds
    decreases |nodes|
  {
    if nodes == [] then []
    else AreaNodes(nodes[..|nodes| - 1]) + (if nodes[|nodes| - 1].attrs.kind in AreaKinds then [nodes[|nodes| - 1]] else [])
  }

  /** A common neighbour of `a` and `b` whose type is an application area. */
  ghost predicate IsArea(g: Graph, a: NodeId, b: NodeId, x: Node) {
    x in g.nodes && x.id in Neighbors(g, a) && x.id in Neighbors(g, b) && x.attrs.kind in AreaKinds
  }

  /** `_find_potential_application_areas`: the names of up to three common area neighbours. */
  function ApplicationAreas(g: Graph, a: NodeId, b: NodeId): (areas: seq<string>)
    ensures |areas| <= 3
    ensures forall nm :: nm in areas ==> exists x :: IsArea(g, a, b, x) && x.attrs.name == nm
    ensures areas == [] <==> forall x :: x in g.nodes ==> !IsArea(g, a, b, x)
  {
    var common := AreaNodes(NodesIn(g.nodes, Neighbors(g, a) * Neighbors(g, b)));
    assert (exists x :: x in g.nodes && IsArea(g, a, b, x)) ==> common != [] by {
      if exists x :: x in g.nodes && IsArea(g, a, b, x) {
        var x :| x in g.nodes && IsArea(g, a, b, x);
        assert x in common;
      }
    }
    assert (forall x :: x in g.nodes ==> !IsArea(g, a, b, x)) ==> common == [] by {
      if common != [] {
        assert IsArea(g, a, b, common[0]);
      }
    }
    FirstNames(common, 3)
  }

  /** `_find_potential_application_areas` as the source runs it: a loop over the common neighbours, then `[:3]`. */
  method FindApplicationAreas(g: Graph, a: NodeId, b: NodeId) returns (areas: seq<string>)
    ensures areas == ApplicationAreas(g, a, b)
  {
    var common := NodesIn(g.nodes, Neighbors(g, a) * Neighbors(g, b));
    var found: seq<string> := [];
    var i := 0;
    while i < |common|
      invariant 0 <= i <= |common|
      invariant found == Names(AreaNodes(common[..i]))
    {
      AreaNamesStep(common, i);
      if common[i].attrs.kind in AreaKinds {
        found := found + [common[i].attrs.name];
      }
      i := i + 1;
    }
    assert common[..|common|] == common;
    var k := if 3 <= |found| then 3 else |found|;
    areas := found[..k];
    NamesPrefix(AreaNodes(common), k);
  }

  /** One more node extends the area names by its own name when it is an area. */
  lemma AreaNamesStep(xs: seq<Node>, i: nat)
    requires i < |xs|
    ensures Names(AreaNodes(xs[..i + 1]))
         == Names(AreaNodes(xs[..i])) + (if xs[i].attrs.kind in AreaKinds then [xs[i].attrs.name] else [])
  {
    assert xs[..i + 1][..i] == xs[..i];
    var r0 := AreaNodes(xs[..i]);
    if xs[i].attrs.kind in AreaKinds {
      assert AreaNodes(xs[..i + 1]) == r0 + [xs[i]];
      assert Names(r0 + [xs[i]]) == Names(r0) + [xs[i].attrs.name];
    } else {
      assert AreaNodes(xs[..i + 1]) == r0;
    }
  }

  /** Names of a prefix are the prefix of the names. */
  lemma NamesPrefix(xs: seq<Node>, k: nat)
    requires k <= |xs|
    ensures Names(xs)[..k] == Names(xs[..k])
  {
  }

  /** The body of the inner loop for the pair `(m1, m2)`, given the recorded combinations. */
  function MethodCandidate(g: Graph, cos: Cosine, combos: set<ComboKey>, m1: Node, m2: Node): Option<HypothesisGap> {
    if Key(m1.id, m2.id) in combos then None
    else
      var c := Compatibility(cos, m1.attrs, m2.attrs);
      if c <= 0.6 then None
      else
        var areas := ApplicationAreas(g, m1.id, m2.id);
        if areas == [] then None
        else Some(HypothesisGap(
          Combination(m1.attrs.name, m2.attrs.name, areas[0]),
          c,
          Compatible(c, areas),
          [ProposedEdge(m1.id, m2.id, "COMBINES_WITH")],
          Medium,
          CombinationMethods))
  }

  function MethodCandidates(g: Graph, cos: Cosine, combos: set<ComboKey>): (Node, Node) -> Option<HypothesisGap> {
    (m1, m2) => MethodCandidate(g, cos, combos, m1, m2)
  }

  /** What the detector returns: one gap per qualifying pair of methods, in scan order. */
  function UntestedCombinationGaps(g: Graph, cos: Cosine): seq<HypothesisGap> {
    Pairs(MethodNodes(g), MethodCandidates(g, cos, SuccessfulCombinations(g)))
  }

  method FindUntestedMethodCombinations(g: Graph, cos: Cosine) returns (gaps: seq<HypothesisGap>)
    ensures gaps == UntestedCombinationGaps(g, cos)
  {
    var combos := GetSuccessfulMethodCombinations(g);
    gaps := ScanPairs(MethodNodes(g), MethodCandidates(g, cos, combos));
  }

  /** The gap the detector reports for the never-combined, compatible methods `m1` and `m2`. */
  ghost predicate CombinationGap(g: Graph, cos: Cosine, m1: Node, m2: Node, gap: HypothesisGap) {
    && m1 in g.nodes && m1.attrs.kind == "method"
    && m2 in g.nodes && m2.attrs.kind == "method"
    && m1.id != m2.id
    && !JointlyUsed(g, m1.id, m2.id)
    && Similarity(cos, m1.attrs, m2.attrs).Some?
    && var s := Similarity(cos, m1.attrs, m2.attrs).value;
       && s > 0.6
       && gap.confidence == s
       && gap.priority == Medium
       && gap.missing == [ProposedEdge(m1.id, m2.id, "COMBINES_WITH")]
       && gap.evidence.Compatible? && gap.evidence.score == s
       && 1 <= |gap.evidence.areas| <= 3
       && gap.claim == Combination(m1.attrs.name, m2.attrs.name, gap.evidence.areas[0])
       && gap.suggestedMethods == CombinationMethods
       && forall nm :: nm in gap.evidence.areas ==> exists x :: IsArea(g, m1.id, m2.id, x) && x.attrs.name == nm
  }

  lemma CandidateIsCombinationGap(g: Graph, cos: Cosine, i: nat, j: nat, gap: HypothesisGap)
    requires Valid(g)
    requires 0 <= i < j < |MethodNodes(g)|
    requires MethodCandidate(g, cos, SuccessfulCombinations(g), MethodNodes(g)[i], MethodNodes(g)[j]) == Some(gap)
    ensures CombinationGap(g, cos, MethodNodes(g)[i], MethodNodes(g)[j], gap)
  {
    OfKindDistinct(g.nodes, "method");
    var ms := MethodNodes(g);
    assert ms[i] in ms && ms[j] in ms;
    RecordedIffJointlyUsed(g, ms[i], ms[j]);
  }

  /** Every reported gap concerns two distinct methods that no result used together. */
  lemma UntestedCombinationGapsSound(g: Graph, cos: Cosine, gap: HypothesisGap)
    requires Valid(g)
    requires gap in UntestedCombinationGaps(g, cos)
    ensures exists i, j :: 0 <= i < j < |MethodNodes(g)| &&
              CombinationGap(g, cos, MethodNodes(g)[i], MethodNodes(g)[j], gap)
  {
    var ms := MethodNodes(g);
    PairsMember(ms, MethodCandidates(g, cos, SuccessfulCombinations(g)), gap);
    var i, j :| 0 <= i < j < |ms| && MethodCandidates(g, cos, SuccessfulCombinations(g))(ms[i], ms[j]) == Some(gap);
    CandidateIsCombinationGap(g, cos, i, j, gap);
  }

  /** Every untried pair of compatible methods with a common application area is reported. */
  lemma UntestedCombinationGapsComplete(g: Graph, cos: Cosine, i: nat, j: nat, area: Node)
    requires Valid(g)
    requires 0 <= i < j < |MethodNodes(g)|
    requires !JointlyUsed(g, MethodNodes(g)[i].id, MethodNodes(g)[j].id)
    requires Similarity(cos, MethodNodes(g)[i].attrs, MethodNodes(g)[j].attrs).Some?
    requires Similarity(cos, MethodNodes(g)[i].attrs, MethodNodes(g)[j].attrs).value > 0.6
    requires IsArea(g, MethodNodes(g)[i].id, MethodNodes(g)[j].id, area)
    ensures exists gap :: gap in UntestedCombinationGaps(g, cos) &&
              CombinationGap(g, cos, MethodNodes(g)[i], MethodNodes(g)[j], gap)
  {
    OfKindDistinct(g.nodes, "method");
    var ms := MethodNodes(g);
    assert ms[i] in ms && ms[j] in ms;
    RecordedIffJointlyUsed(g, ms[i], ms[j]);
    var gap := MethodCandidate(g, cos, SuccessfulCombinations(g), ms[i], ms[j]).value;
    PairsMember(ms, MethodCandidates(g, cos, SuccessfulCombinations(g)), gap);
    CandidateIsCombinationGap(g, cos, i, j, gap);
  }
}
