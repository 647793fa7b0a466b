/**
 * `_find_isolated_high_potential_nodes` and its helpers: a weakly connected gene,
 * pathway or method whose metadata promise much is proposed to work like its
 * closest well-connected look-alike.
 */
module IsolatedGaps {
  import opened Wrappers
  import opened GraphView
  import opened Embedding
  import opened Gaps
  import opened Sweep
  import opened Slices
  import opened StableSort

  /** Node types the detector looks at. */
  const AnalysisKinds: set<string> := {"gene", "pathway", "method"}

  const IsolatedMethods: seq<string> := ["Literature review", "Functional analysis", "Comparative study"]

  /**
   * `_calculate_research_potential`: 0.5, plus at most 0.3 for recent mentions,
   * plus a fifth of the clinical relevance, capped at 1.0.
   */
  function ResearchPotential(p: Properties): (r: real)
    ensures r <= 1.0
    ensures p.recentMentions.None? && p.clinicalRelevance.None? ==> r == 0.5
    ensures p.clinicalRelevance.None? ==> r <= 0.8
    ensures p.clinicalRelevance.None? && r > 0.7 ==> p.recentMentions.Some? && p.recentMentions.value > 20.0
  {
    var base := 0.5;
    var withMentions := if p.recentMentions.Some? then base + Min(0.3, p.recentMentions.value / 100.0) else base;
    var withRelevance := if p.clinicalRelevance.Some? then withMentions + p.clinicalRelevance.value * 0.2 else withMentions;
    Min(1.0, withRelevance)
  }

  /** One entry of `similar_nodes`. */
  datatype SimilarNode = SimilarNode(id: NodeId, name: string, similarity: real, degree: nat)

  /** `o` is another node of the same type, of degree above 5, whose cosine with `n` exceeds 0.6. */
  predicate WellConnectedAnalogue(g: Graph, cos: Cosine, n: Node, o: Node) {
    && o.id != n.id
    && o.attrs.kind == n.attrs.kind
    && Degree(g, o.id) > 5
    && Similarity(cos, n.attrs, o.attrs).Some?
    && Similarity(cos, n.attrs, o.attrs).value > 0.6
  }

  function SimilarCandidate(g: Graph, cos: Cosine, n: Node, o: Node): Option<SimilarNode> {
    if WellConnectedAnalogue(g, cos, n, o)
    then Some(SimilarNode(o.id, o.attrs.name, Similarity(cos, n.attrs, o.attrs).value, Degree(g, o.id)))
    else None
  }

  function SimilarCandidates(g: Graph, cos: Cosine, n: Node): Node -> Option<SimilarNode> {
    o => SimilarCandidate(g, cos, n, o)
  }

  function SimilarityKey(s: SimilarNode): real {
    s.similarity
  }

  /** `_find_similar_well_connected_nodes`: the three most similar analogues, most similar first. */
  function SimilarWellConnected(g: Graph, cos: Cosine, n: Node): seq<SimilarNode> {
    Take(SortDesc(Each(g.nodes, SimilarCandidates(g, cos, n)), SimilarityKey), 3)
  }

  method FindSimilarWellConnectedNodes(g: Graph, cos: Cosine, n: Node) returns (similar: seq<SimilarNode>)
    ensures similar == SimilarWellConnected(g, cos, n)
  {
    var f := SimilarCandidates(g, cos, n);
    var similarNodes: seq<SimilarNode> := [];
    for k := 0 to |g.nodes|
      invariant similarNodes == Each(g.nodes[..k], f)
    {
      EachStep(g.nodes, f, k);
      var other := g.nodes[k];
      if WellConnectedAnalogue(g, cos, n, other) {
        var sim := Similarity(cos, n.attrs, other.attrs).value;
        similarNodes := similarNodes + [SimilarNode(other.id, other.attrs.name, sim, Degree(g, other.id))];
      }
    }
    assert g.nodes[..|g.nodes|] == g.nodes;
    similar := Take(SortDesc(similarNodes, SimilarityKey), 3);
  }

  /** Each listed entry describes a genuine well-connected analogue. */
  lemma SimilarAreAnalogues(g: Graph, cos: Cosine, n: Node, s: SimilarNode)
    requires s in SimilarWellConnected(g, cos, n)
    ensures exists o :: o in g.nodes && WellConnectedAnalogue(g, cos, n, o) && SimilarCandidate(g, cos, n, o) == Some(s)
  {
    var f := SimilarCandidates(g, cos, n);
    var cands := Each(g.nodes, f);
    var sorted := SortDesc(cands, SimilarityKey);
    SortDescSpec(cands, SimilarityKey);
    assert s in sorted;
    assert s in multiset(sorted);
    assert s in cands;
    EachMember(g.nodes, f, s);
    var i :| 0 <= i < |g.nodes| && f(g.nodes[i]) == Some(s);
    assert g.nodes[i] in g.nodes;
  }

  /** With some analogue present the list is not empty, and its head is the most similar analogue. */
  lemma SimilarHeadIsBest(g: Graph, cos: Cosine, n: Node, o: Node)
    requires o in g.nodes && WellConnectedAnalogue(g, cos, n, o)
    ensures SimilarWellConnected(g, cos, n) != []
    ensures forall o' :: o' in g.nodes && WellConnectedAnalogue(g, cos, n, o') ==>
              Similarity(cos, n.attrs, o'.attrs).value <= SimilarWellConnected(g, cos, n)[0].similarity
  {
    var cands := Each(g.nodes, SimilarCandidates(g, cos, n));
    var sorted := SortDesc(cands, SimilarityKey);
    var r := SimilarWellConnected(g, cos, n);
    var k0 := AnalogueIsCandidate(g, cos, n, o);
    SortDescHead(cands, SimilarityKey);
    assert r == sorted[..|r|] && |r| >= 1;
    forall o' | o' in g.nodes && WellConnectedAnalogue(g, cos, n, o')
      ensures Similarity(cos, n.attrs, o'.attrs).value <= r[0].similarity
    {
      var k := AnalogueIsCandidate(g, cos, n, o');
    }
  }

  /** Every analogue in the graph has its candidate record in the unsorted list. */
  lemma AnalogueIsCandidate(g: Graph, cos: Cosine, n: Node, o: Node) returns (k: nat)
    requires o in g.nodes && WellConnectedAnalogue(g, cos, n, o)
    ensures k < |Each(g.nodes, SimilarCandidates(g, cos, n))|
    ensures Each(g.nodes, SimilarCandidates(g, cos, n))[k].similarity == Similarity(cos, n.attrs, o.attrs).value
  {
    var f := SimilarCandidates(g, cos, n);
    var c := SimilarCandidate(g, cos, n, o).value;
    var i :| 0 <= i < |g.nodes| && g.nodes[i] == o;
    EachMember(g.nodes, f, c);
    k :| 0 <= k < |Each(g.nodes, f)| && Each(g.nodes, f)[k] == c;
  }

  /** The list is at most three long and in non-increasing similarity. */
  lemma SimilarOrdered(g: Graph, cos: Cosine, n: Node)
    ensures |SimilarWellConnected(g, cos, n)| <= 3
    ensures NonIncreasing(SimilarWellConnected(g, cos, n), SimilarityKey)
  {
    var cands := Each(g.nodes, SimilarCandidates(g, cos, n));
    SortDescSpec(cands, SimilarityKey);
    var sorted := SortDesc(cands, SimilarityKey);
    var r := SimilarWellConnected(g, cos, n);
    assert r == sorted[..|r|];
    assert forall i, j :: 0 <= i < j < |r| ==> r[i] == sorted[i] && r[j] == sorted[j];
  }

  /**
   * `_find_similar_well_connected_nodes` as a whole: at most three genuine
   * analogues in non-increasing similarity; empty exactly when there is no
   * analogue; and otherwise headed by an analogue of the highest similarity.
   */
  lemma SimilarWellConnectedSpec(g: Graph, cos: Cosine, n: Node)
    ensures |SimilarWellConnected(g, cos, n)| <= 3
    ensures NonIncreasing(SimilarWellConnected(g, cos, n), SimilarityKey)
    ensures forall s :: s in SimilarWellConnected(g, cos, n) ==>
              exists o :: o in g.nodes && WellConnectedAnalogue(g, cos, n, o) && SimilarCandidate(g, cos, n, o) == Some(s)
    ensures SimilarWellConnected(g, cos, n) == [] <==> forall o :: o in g.nodes ==> !WellConnectedAnalogue(g, cos, n, o)
    ensures SimilarWellConnected(g, cos, n) != [] ==>
              forall o :: o in g.nodes && WellConnectedAnalogue(g, cos, n, o) ==>
                Similarity(cos, n.attrs, o.attrs).value <= SimilarWellConnected(g, cos, n)[0].similarity
  {
    var r := SimilarWellConnected(g, cos, n);
    SimilarOrdered(g, cos, n);
    if exists o :: o in g.nodes && WellConnectedAnalogue(g, cos, n, o) {
      var o :| o in g.nodes && WellConnectedAnalogue(g, cos, n, o);
      SimilarHeadIsBest(g, cos, n, o);
    } else if r != [] {
      SimilarAreAnalogues(g, cos, n, r[0]);
    }
    forall s | s in r
      ensures exists o :: o in g.nodes && WellConnectedAnalogue(g, cos, n, o) && SimilarCandidate(g, cos, n, o) == Some(s)
    {
      SimilarAreAnalogues(g, cos, n, s);
    }
  }

  function SimilarNames(ss: seq<SimilarNode>): seq<string> {
    seq(|ss|, i requires 0 <= i < |ss| => ss[i].name)
  }

  /** The body of the node loop for `n`. */
  function IsolatedCandidate(g: Graph, cos: Cosine, n: Node): Option<HypothesisGap> {
    if Degree(g, n.id) <= 2 && n.attrs.kind in AnalysisKinds then
      var potential := ResearchPotential(PropertiesOf(n.attrs));
      if potential > 0.7 then
        var similar := SimilarWellConnected(g, cos, n);
        if similar != [] then
          Some(HypothesisGap(
            Analogous(n.attrs.name, similar[0].name),
            potential,
            HighPotential(potential, SimilarNames(Take(similar, 2))),
            [ProposedEdge(n.id, similar[0].id, "SIMILAR_FUNCTION")],
            High,
            IsolatedMethods))
        else None
      else None
    else None
  }

  function IsolatedCandidates(g: Graph, cos: Cosine): Node -> Option<HypothesisGap> {
    n => IsolatedCandidate(g, cos, n)
  }

  /** What the detector returns: one gap per qualifying node, in node order. */
  function IsolatedNodeGaps(g: Graph, cos: Cosine): seq<HypothesisGap> {
    Each(g.nodes, IsolatedCandidates(g, cos))
  }

  method FindIsolatedHighPotentialNodes(g: Graph, cos: Cosine) returns (gaps: seq<HypothesisGap>)
    ensures gaps == IsolatedNodeGaps(g, cos)
  {
    var f := IsolatedCandidates(g, cos);
    gaps := [];
    for k := 0 to |g.nodes|
      invariant gaps == Each(g.nodes[..k], f)
    {
      EachStep(g.nodes, f, k);
      var node := g.nodes[k];
      var degree := Degree(g, node.id);
      if degree <= 2 && node.attrs.kind in AnalysisKinds {
        var potential := ResearchPotential(PropertiesOf(node.attrs));
        if potential > 0.7 {
          var similar := FindSimilarWellConnectedNodes(g, cos, node);
          if similar != [] {
            var gap := HypothesisGap(
              Analogous(node.attrs.name, similar[0].name),
              potential,
              HighPotential(potential, SimilarNames(Take(similar, 2))),
              [ProposedEdge(node.id, similar[0].id, "SIMILAR_FUNCTION")],
              High,
              IsolatedMethods);
            gaps := gaps + [gap];
          }
        }
      }
    }
    assert g.nodes[..|g.nodes|] == g.nodes;
  }

  /**
   * The gap the detector reports for the isolated node `n`: `n` has degree at
   * most 2 and a potential above 0.7, and the proposed partner is a
   * well-connected analogue that no other analogue beats on similarity.
   */
  ghost predicate IsolationGap(g: Graph, cos: Cosine, n: Node, gap: HypothesisGap) {
    && n in g.nodes
    && Degree(g, n.id) <= 2
    && n.attrs.kind in AnalysisKinds
    && var potential := ResearchPotential(PropertiesOf(n.attrs));
       && potential > 0.7
       && gap.confidence == potential
       && gap.priority == High
       && gap.evidence.HighPotential? && gap.evidence.score == potential
       && 1 <= |gap.evidence.similar| <= 2
       && gap.suggestedMethods == IsolatedMethods
       && exists t :: t in g.nodes && WellConnectedAnalogue(g, cos, n, t)
            && gap.claim == Analogous(n.attrs.name, t.attrs.name)
            && gap.missing == [ProposedEdge(n.id, t.id, "SIMILAR_FUNCTION")]
            && forall o :: o in g.nodes && WellConnectedAnalogue(g, cos, n, o) ==>
                 Similarity(cos, n.attrs, o.attrs).value <= Similarity(cos, n.attrs, t.attrs).value
  }

  lemma CandidateIsIsolationGap(g: Graph, cos: Cosine, n: Node, gap: HypothesisGap)
    requires n in g.nodes
    requires IsolatedCandidate(g, cos, n) == Some(gap)
    ensures IsolationGap(g, cos, n, gap)
  {
    SimilarWellConnectedSpec(g, cos, n);
    var similar := SimilarWellConnected(g, cos, n);
    assert similar[0] in similar;
    var t :| t in g.nodes && WellConnectedAnalogue(g, cos, n, t) && SimilarCandidate(g, cos, n, t) == Some(similar[0]);
    assert gap.claim == Analogous(n.attrs.name, t.attrs.name);
  }

  /** Every reported gap is the isolation gap of one of the graph's nodes. */
  lemma IsolatedNodeGapsSound(g: Graph, cos: Cosine, gap: HypothesisGap)
    requires gap in IsolatedNodeGaps(g, cos)
    ensures exists n :: n in g.nodes && IsolationGap(g, cos, n, gap)
  {
    EachMember(g.nodes, IsolatedCandidates(g, cos), gap);
    var i :| 0 <= i < |g.nodes| && IsolatedCandidates(g, cos)(g.nodes[i]) == Some(gap);
    CandidateIsIsolationGap(g, cos, g.nodes[i], gap);
  }

  /** Every weakly connected, promising node with a well-connected analogue is reported. */
  lemma IsolatedNodeGapsComplete(g: Graph, cos: Cosine, n: Node, o: Node)
    requires n in g.nodes && Degree(g, n.id) <= 2 && n.attrs.kind in AnalysisKinds
    requires ResearchPotential(PropertiesOf(n.attrs)) > 0.7
    requires o in g.nodes && WellConnectedAnalogue(g, cos, n, o)
    ensures exists gap :: gap in IsolatedNodeGaps(g, cos) && IsolationGap(g, cos, n, gap)
  {
    SimilarWellConnectedSpec(g, cos, n);
    var gap := IsolatedCandidate(g, cos, n).value;
    var i :| 0 <= i < |g.nodes| && g.nodes[i] == n;
    EachMember(g.nodes, IsolatedCandidates(g, cos), gap);
    CandidateIsIsolationGap(g, cos, n, gap);
  }
}
