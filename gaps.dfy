/**
 * The `HypothesisGap` record every detector emits. The free-text fields of the
 * source (the hypothesis sentence and the evidence lines) are kept as the
 * structured data they are formatted from.
 */
module Gaps {
  import opened GraphView

  datatype Priority = High | Medium | Low

  /** One entry of `missing_connections`: a proposed edge or a recurring pattern. */
  datatype Connection =
    | ProposedEdge(source: NodeId, target: NodeId, kind: string)
    | PatternDescriptor(pattern: seq<string>, instances: nat, kind: string)

  /** What `potential_hypothesis` states. */
  datatype Claim =
    | Regulates(pathway: string, regulated: string, sharedTargets: nat)
    | Combination(first: string, second: string, area: string)
    | Analogous(node: string, analogue: string)
    | GeneralMechanism(pattern: seq<string>)

  /** What `supporting_evidence` reports. */
  datatype Evidence =
    | SharedTargets(names: seq<string>)
    | Compatible(score: real, areas: seq<string>)
    | HighPotential(score: real, similar: seq<string>)
    | Recurring(count: nat, examples: seq<string>)

  datatype HypothesisGap = HypothesisGap(
    claim: Claim,
    confidence: real,
    evidence: Evidence,
    missing: seq<Connection>,
    priority: Priority,
    suggestedMethods: seq<string>)

  /** The ranking key, `x.confidence_score`. */
  function Confidence(gap: HypothesisGap): real {
    gap.confidence
  }

  function Min(a: real, b: real): real {
    if a <= b then a else b
  }

  /** The names of the nodes, in order. */
  function Names(nodes: seq<Node>): seq<string> {
    seq(|nodes|, i requires 0 <= i < |nodes| => nodes[i].attrs.name)
  }

  /** The nodes of `nodes` whose id is in `ids`, in node order. */
  function NodesIn(nodes: seq<Node>, ids: set<NodeId>): (r: seq<Node>)
    ensures forall x :: x in r <==> x in nodes && x.id in ids
    decreases |nodes|
  {
    if nodes == [] then []
    else NodesIn(nodes[..|nodes| - 1], ids) + (if nodes[|nodes| - 1].id in ids then [nodes[|nodes| - 1]] else [])
  }

  /** The names of the first `n` of `nodes` (`[... for x in nodes][:n]`). */
  function FirstNames(nodes: seq<Node>, n: nat): (r: seq<string>)
    ensures |r| == (if n <= |nodes| then n else |nodes|)
    ensures forall nm :: nm in r ==> exists x :: x in nodes && x.attrs.name == nm
  {
    var r := Names(nodes[..if n <= |nodes| then n else |nodes|]);
    assert forall k :: 0 <= k < |r| ==> nodes[k] in nodes && r[k] == nodes[k].attrs.name;
    r
  }
}
