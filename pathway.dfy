/**
 * `_find_missing_pathway_connections`: two pathways that are not linked, whose
 * embeddings are close (cosine above 0.7) and that share at least two
 * neighbours are proposed to regulate one another.
 */
module PathwayGaps {
  import opened Wrappers
  import opened GraphView
  import opened Embedding
  import opened Gaps
  import opened Sweep

  const PathwayMethods: seq<string> := ["Pathway enrichment analysis", "Co-expression analysis", "Proteomics"]

  /** `set(G.neighbors(a)) & set(G.neighbors(b))`. */
  function CommonNeighbors(g: Graph, a: NodeId, b: NodeId): set<NodeId> {
    Neighbors(g, a) * Neighbors(g, b)
  }

  function PathwayNodes(g: Graph): seq<Node> {
    OfKind(g.nodes, "pathway")
  }

  /** The body of the inner loop for the pair `(p1, p2)`. */
  function PathwayCandidate(g: Graph, cos: Cosine, p1: Node, p2: Node): Option<HypothesisGap> {
    if HasEdge(g, p1.id, p2.id) then None
    else match Similarity(cos, p1.attrs, p2.attrs)
      case None => None
      case Some(s) =>
        var common := CommonNeighbors(g, p1.id, p2.id);
        if s > 0.7 && |common| >= 2 then
          Some(HypothesisGap(
            Regulates(p1.attrs.name, p2.attrs.name, |common|),
            s * (|common| as real / 10.0),
            SharedTargets(FirstNames(NodesIn(g.nodes, common), 3)),
            [ProposedEdge(p1.id, p2.id, "REGULATES")],
            if s > 0.8 then High else Medium,
            PathwayMethods))
        else None
  }

  function PathwayCandidates(g: Graph, cos: Cosine): (Node, Node) -> Option<HypothesisGap> {
    (p1, p2) => PathwayCandidate(g, cos, p1, p2)
  }

  /** What the detector returns: one gap per qualifying pair, in scan order. */
  function MissingPathwayGaps(g: Graph, cos: Cosine): seq<HypothesisGap> {
    Pairs(PathwayNodes(g), PathwayCandidates(g, cos))
  }

  /** The gap the detector reports for the unlinked, similar pathways `p1` and `p2`. */
  ghost predicate RegulationGap(g: Graph, cos: Cosine, p1: Node, p2: Node, gap: HypothesisGap) {
    && p1 in g.nodes && p1.attrs.kind == "pathway"
    && p2 in g.nodes && p2.attrs.kind == "pathway"
    && p1.id != p2.id
    && !HasEdge(g, p1.id, p2.id)
    && Similarity(cos, p1.attrs, p2.attrs).Some?
    && var s := Similarity(cos, p1.attrs, p2.attrs).value;
       var common := CommonNeighbors(g, p1.id, p2.id);
       && s > 0.7 && |common| >= 2
       && gap.claim == Regulates(p1.attrs.name, p2.attrs.name, |common|)
       && gap.confidence == s * (|common| as real / 10.0)
       && (gap.priority == High <==> s > 0.8)
       && gap.priority != Low
       && gap.missing == [ProposedEdge(p1.id, p2.id, "REGULATES")]
       && gap.suggestedMethods == PathwayMethods
       && gap.evidence.SharedTargets?
       && |gap.evidence.names| <= 3
       && (forall nm :: nm in gap.evidence.names ==>
             exists x :: x in g.nodes && x.id in common && x.attrs.name == nm)
  }

  method FindMissingPathwayConnections(g: Graph, cos: Cosine) returns (gaps: seq<HypothesisGap>)
    ensures gaps == MissingPathwayGaps(g, cos)
  {
    gaps := ScanPairs(PathwayNodes(g), PathwayCandidates(g, cos));
  }

  /** A candidate that the pair test produces is a regulation gap of that pair. */
  lemma CandidateIsRegulationGap(g: Graph, cos: Cosine, i: nat, j: nat, gap: HypothesisGap)
    requires Valid(g)
    requires 0 <= i < j < |PathwayNodes(g)|
    requires PathwayCandidate(g, cos, PathwayNodes(g)[i], PathwayNodes(g)[j]) == Some(gap)
    ensures RegulationGap(g, cos, PathwayNodes(g)[i], PathwayNodes(g)[j], gap)
  {
    OfKindDistinct(g.nodes, "pathway");
    var ps := PathwayNodes(g);
    assert ps[i] in ps && ps[j] in ps;
    assert ps[i].id != ps[j].id;
    PairIsRegulationGap(g, cos, ps[i], ps[j], gap);
  }

  /** The gap produced for two distinct pathway nodes is their regulation gap. */
  lemma PairIsRegulationGap(g: Graph, cos: Cosine, p1: Node, p2: Node, gap: HypothesisGap)
    requires p1 in g.nodes && p1.attrs.kind == "pathway"
    requires p2 in g.nodes && p2.attrs.kind == "pathway"
    requires p1.id != p2.id
    requires PathwayCandidate(g, cos, p1, p2) == Some(gap)
    ensures RegulationGap(g, cos, p1, p2, gap)
  {
    SharedNames(g, CommonNeighbors(g, p1.id, p2.id));
  }

  /** The evidence lists at most three names, each of a node in the common neighbourhood. */
  lemma SharedNames(g: Graph, common: set<NodeId>)
    ensures |FirstNames(NodesIn(g.nodes, common), 3)| <= 3
    ensures forall nm :: nm in FirstNames(NodesIn(g.nodes, common), 3) ==>
              exists x :: x in g.nodes && x.id in common && x.attrs.name == nm
  {
    var ns := NodesIn(g.nodes, common);
    forall nm | nm in FirstNames(ns, 3)
      ensures exists x :: x in g.nodes && x.id in common && x.attrs.name == nm
    {
      var x :| x in ns && x.attrs.name == nm;
    }
  }

  /** Every reported gap concerns two distinct, unlinked, similar pathways, `i` before `j` in node order. */
  lemma MissingPathwayGapsSound(g: Graph, cos: Cosine, gap: HypothesisGap)
    requires Valid(g)
    requires gap in MissingPathwayGaps(g, cos)
    ensures exists i, j :: 0 <= i < j < |PathwayNodes(g)| &&
              RegulationGap(g, cos, PathwayNodes(g)[i], PathwayNodes(g)[j], gap)
  {
    var ps := PathwayNodes(g);
    PairsMember(ps, PathwayCandidates(g, cos), gap);
    var i, j :| 0 <= i < j < |ps| && PathwayCandidates(g, cos)(ps[i], ps[j]) == Some(gap);
    CandidateIsRegulationGap(g, cos, i, j, gap);
  }

  /** Every unlinked pair of pathways that passes both tests is reported. */
  lemma MissingPathwayGapsComplete(g: Graph, cos: Cosine, i: nat, j: nat)
    requires Valid(g)
    requires 0 <= i < j < |PathwayNodes(g)|
    requires !HasEdge(g, PathwayNodes(g)[i].id, PathwayNodes(g)[j].id)
    requires Similarity(cos, PathwayNodes(g)[i].attrs, PathwayNodes(g)[j].attrs).Some?
    requires Similarity(cos, PathwayNodes(g)[i].attrs, PathwayNodes(g)[j].attrs).value > 0.7
    requires |CommonNeighbors(g, PathwayNodes(g)[i].id, PathwayNodes(g)[j].id)| >= 2
    ensures exists gap :: gap in MissingPathwayGaps(g, cos) &&
              RegulationGap(g, cos, PathwayNodes(g)[i], PathwayNodes(g)[j], gap)
  {
    var ps := PathwayNodes(g);
    var gap := PathwayCandidate(g, cos, ps[i], ps[j]).value;
    PairsMember(ps, PathwayCandidates(g, cos), gap);
    CandidateIsRegulationGap(g, cos, i, j, gap);
  }
}
