/**
 * `find_hypothesis_gaps`: the four detectors' results, concatenated in a fixed
 * order, then sorted by confidence, highest first, keeping the detectors' order
 * among equal confidences.
 */
module Ranking {
  import opened Embedding
  import opened GraphView
  import opened Gaps
  import opened StableSort
  import PathwayGaps
  import MethodGaps
  import IsolatedGaps
  import PatternGaps

  /** `gaps` before sorting: pathway links, method pairs, isolated nodes, then patterns. */
  function AllGaps(g: Graph, cos: Cosine): seq<HypothesisGap> {
    PathwayGaps.MissingPathwayGaps(g, cos)
      + MethodGaps.UntestedCombinationGaps(g, cos)
      + IsolatedGaps.IsolatedNodeGaps(g, cos)
      + PatternGaps.RecurringPatternGaps(g)
  }

  function RankedGaps(g: Graph, cos: Cosine): seq<HypothesisGap> {
    SortDesc(AllGaps(g, cos), Confidence)
  }

  /**
   * The ranked list holds exactly the detected gaps, by non-increasing
   * confidence, and gaps of equal confidence keep their detection order.
   */
  method FindHypothesisGaps(g: Graph, cos: Cosine) returns (ranked: seq<HypothesisGap>)
    ensures ranked == RankedGaps(g, cos)
    ensures NonIncreasing(ranked, Confidence)
    ensures multiset(ranked) == multiset(AllGaps(g, cos))
    ensures forall c :: WithKey(ranked, Confidence, c) == WithKey(AllGaps(g, cos), Confidence, c)
  {
    var pathwayGaps := PathwayGaps.FindMissingPathwayConnections(g, cos);
    var methodGaps := MethodGaps.FindUntestedMethodCombinations(g, cos);
    var isolatedGaps := IsolatedGaps.FindIsolatedHighPotentialNodes(g, cos);
    var patternGaps := PatternGaps.FindPatternGaps(g);
    var gaps := pathwayGaps + methodGaps + isolatedGaps + patternGaps;
    ranked := SortDesc(gaps, Confidence);
    RankedGapsSpec(g, cos);
  }

  /** The first ranked gap has the highest confidence of all detected gaps. */
  lemma TopGapMostConfident(g: Graph, cos: Cosine)
    requires AllGaps(g, cos) != []
    ensures |RankedGaps(g, cos)| == |AllGaps(g, cos)|
    ensures RankedGaps(g, cos)[0] in AllGaps(g, cos)
    ensures forall gap :: gap in AllGaps(g, cos) ==> gap.confidence <= RankedGaps(g, cos)[0].confidence
  {
    SortDescHead(AllGaps(g, cos), Confidence);
  }

  lemma RankedGapsSpec(g: Graph, cos: Cosine)
    ensures NonIncreasing(RankedGaps(g, cos), Confidence)
    ensures multiset(RankedGaps(g, cos)) == multiset(AllGaps(g, cos))
    ensures forall c :: WithKey(RankedGaps(g, cos), Confidence, c) == WithKey(AllGaps(g, cos), Confidence, c)
  {
    SortDescSpec(AllGaps(g, cos), Confidence);
  }
}
