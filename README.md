# ImmortaGraph core in Dafny

ImmortaGraph builds a knowledge graph of longevity research from PubMed
articles. It then looks for "hypothesis gaps": places where the graph
suggests a missing link. This project models two parts of it and proves
properties of them.

**The ingestion side (`data_ingestion.py`):**

- The dictionary-driven entity extractor: genes, pathways, methods and
  researchers, plus the context window cut around a mention.
- The publication-date reader.
- The merge of all articles' entities into one catalogue per entity type.
- The four fixed rules that turn an article's entities into relationships:
  STUDIES, PARTICIPATES_IN, USED_TO_STUDY and RELATES_TO.

**The analysis side (`main.py`, `NetworkAnalyzer`):**

- The undirected view built from the stored `(n, r, m)` records.
- The four gap detectors:
  - pathways that should be linked;
  - method pairs never used together;
  - isolated but promising nodes;
  - recurring triangle patterns with no explaining hypothesis.
- Their helpers.
- The final stable ranking by confidence.

**Modules, one per file:**

| module | file | contents |
|---|---|---|
| `Wrappers` | `wrappers.dfy` | `Option` |
| `Text` | `text.dfy` | Python string primitives: `isspace`, ASCII `lower`/`upper`, `strip`, `split()`, `find`, `in`, `count`, and `<=` on `str` |
| `Sweep`, `Slices` | `sweep.dfy` | the two loop shapes the detectors share, and `xs[:n]` |
| `StableSort` | `sort.dfy` | `sorted(..., reverse=True)` |
| `Grouping` | `grouping.dfy` | dictionary-of-lists grouping |
| `GraphView` | `graph.dfy` | the graph view |
| `Embedding` | `embedding.dfy` | node embeddings |
| `Gaps` | `gaps.dfy` | the `HypothesisGap` record |
| `PathwayGaps`, `MethodGaps`, `IsolatedGaps`, `PatternGaps` | `pathway.dfy`, `methods.dfy`, `isolated.dfy`, `patterns.dfy` | the four detectors |
| `Ranking` | `ranking.dfy` | `find_hypothesis_gaps` |
| `Extraction` | `extraction.dfy` | the entity extractor |
| `Dates` | `dates.dfy` | the publication date |
| `Merge` | `merge.dfy` | the catalogue merge |
| `Linking` | `linking.dfy` | the relationship rules |

**How the source's code maps onto Dafny:**

- Each loop of the source becomes a `method` with a loop. Its
  postcondition ties the result to a specification function, and lemmas
  prove what the source promises about that function.
- The graph builder that writes relationships becomes the class
  `Linking.GraphBuilder`. Its `emitted` field is the sequence of
  relationships the builder asks the database for, in order.

**Behaviours of the code as written that the model keeps:**

- "mTOR" is in the gene list but is matched against upper-cased text, so
  it is never reported as a gene (`Extraction.MtorNeverGene`).
- Researcher and hypothesis records have no `mentions` key. When an id of
  either kind is met a second time, the merge's `+=` raises a KeyError and
  the whole build aborts. The model returns `None` for that case, and
  `Merge.CollectFailsIffRepeat` states exactly when it happens.
- A PubDate whose Year element has no text gives a date starting with
  "None" (`Dates.TextlessYear`).

## Model

| member | source | states |
|---|---|---|
| `GraphView.BuildGraph` | main.py:111-127 | The view built from the records is well formed: ids are unique, adjacency is symmetric and covers exactly the nodes. Its nodes are exactly the records' endpoints. Their attributes are merged key by key, as `dict.update` does: `type` and `name` come from the last endpoint with the id, and `description` and `properties` from the last endpoint with the id that sets them, or are absent when none does. Two ids are adjacent exactly when some record joins them, in either direction. |
| `GraphView.GraphOfNodes` | main.py:116-122 | Processing the records in order yields one node per endpoint id. Each key of its attributes holds the value of the last endpoint with that id that sets the key. |
| `GraphView.GraphOfAttrs` | main.py:116-122 | The attributes the view holds for an id are the endpoints' attributes folded in order by `update`. |
| `GraphView.AttrsOfSpec` | main.py:121-122 | The fold is absent exactly when no endpoint has the id. Otherwise `type` and `name` are the last endpoint's, and each optional key is the last value set for it, or absent if never set. |
| `GraphView.LaterEndpointKeepsKeys` | main.py:121-122 | When a later endpoint with the same id has only `type` and `name`, the node keeps the earlier `description` and `properties`. |
| `GraphView.GraphOfValid` | main.py:116-125 | The view stays well formed, and its ids are exactly the records' endpoint ids. |
| `GraphView.GraphOfEdges` | main.py:123-125 | An edge of the view is exactly a pair joined by some record, in either direction. |
| `GraphView.AddNodeSpec` | main.py:121-122 | `add_node` keeps the view well formed and adds the id. An existing node's attributes are updated key by key: a key the call gives wins, the others are kept. It leaves adjacency unchanged. |
| `GraphView.AddEdgeSpec` | main.py:123 | `add_edge` adds exactly the pair in both directions and keeps the node list. |
| `GraphView.UpsertSpec` | main.py:121-122 | Upserting a node keeps ids distinct and adds its id. The attributes of its id become the held ones updated by the given ones; every other id keeps its attributes. |
| `GraphView.AddRecordSpec` | main.py:116-125 | One record adds its two endpoints, updating their attributes first by `n` and then by `m`, and exactly one undirected edge. |
| `GraphView.OfKind` | main.py:151-152 | The type filter keeps exactly the nodes of that type. |
| `GraphView.OfKindInOrder` | main.py:151-152 | The type filter is the in-order subsequence of the matching nodes: its entries sit at increasing positions of the node list, and every matching node is among them. |
| `GraphView.OfKindDistinct` | main.py:151-152 | The type filter keeps ids distinct. |
| `GraphView.ValidSymmetric` | main.py:156 | `has_edge` on the view is symmetric. |
| `Embedding.Similarity` | main.py:158-164 | A cosine exists exactly when both nodes have an embedding. |
| `Embedding.EmbeddingDefined` | main.py:278-284 | A node has an embedding exactly when its name or its description, read as empty when absent, has a non-whitespace character. |
| `PathwayGaps.FindMissingPathwayConnections` | main.py:147-181 | The scan over all pathway pairs returns the detector's gaps: one per qualifying pair, in scan order. |
| `Sweep.ScanPairs` | main.py:154-155 | The nested `for i ...: for ... in xs[i+1:]` loop appends, in scan order, whatever the pair test yields for each pair `i < j`. |
| `Sweep.PairsMember` | main.py:154-155 | An item is produced by the pair scan iff the pair test yields it for some pair `i < j`. |
| `PathwayGaps.MissingPathwayGapsSound` | main.py:154-179 | Each gap concerns two different pathways, the first earlier in node order. The two are unlinked, their cosine is above 0.7 and they share at least two neighbours. The gap's confidence is cosine × shared/10, its priority is high iff the cosine is above 0.8, and it lists at most three shared neighbours. Its suggested methods are the pathway detector's fixed list. |
| `PathwayGaps.MissingPathwayGapsComplete` | main.py:154-179 | Every unlinked pathway pair with cosine above 0.7 and two or more shared neighbours is reported. |
| `PathwayGaps.CandidateIsRegulationGap` | main.py:156-178 | The pair test produces only regulation gaps of that pair. |
| `MethodGaps.GetSuccessfulMethodCombinations` | main.py:286-300 | The loop returns the recorded combinations. |
| `MethodGaps.AddPairKeys` | main.py:293-298 | The inner double loop adds exactly the sorted keys of all pairs `i < j` of the method neighbours. |
| `MethodGaps.MethodNeighbors` | main.py:293-294 | It lists exactly the method-type neighbours of the result node. |
| `MethodGaps.PairKeysMember` | main.py:296-298 | A key is recorded exactly for the pairs `i < j`. |
| `MethodGaps.SuccessfulCombinationsSound` | main.py:286-300 | Every recorded key is a pair of methods that one result node is linked to both of. |
| `MethodGaps.SuccessfulCombinationsComplete` | main.py:286-300 | Every pair of distinct methods used by one result node is recorded. |
| `MethodGaps.RecordedIffJointlyUsed` | main.py:286-300 | For distinct methods: recorded iff jointly used. |
| `MethodGaps.Compatibility` | main.py:302-318 | The result is never negative. It is 0.5 without both embeddings. Above 0.6 it is exactly the cosine. |
| `MethodGaps.FindApplicationAreas` | main.py:320-333 | The loop over the common neighbours, followed by `[:3]`, returns exactly `ApplicationAreas`. |
| `MethodGaps.ApplicationAreas` | main.py:320-333 | At most three names, each of a common neighbour of type pathway, gene or hypothesis. The list is empty exactly when no such neighbour exists. |
| `MethodGaps.FindUntestedMethodCombinations` | main.py:183-215 | After collecting the recorded combinations, the scan over all method pairs returns the detector's gaps, in scan order. |
| `MethodGaps.UntestedCombinationGapsSound` | main.py:193-213 | Each gap concerns two distinct methods that no result used together. Their cosine is above 0.6 and is the gap's confidence. The gap has one to three application areas, the claim names the first, and the priority is medium. Its suggested methods are the combination detector's fixed list. |
| `MethodGaps.UntestedCombinationGapsComplete` | main.py:193-213 | Every never-combined method pair with cosine above 0.6 and a common application area is reported. |
| `MethodGaps.CandidateIsCombinationGap` | main.py:195-212 | The pair test produces only combination gaps of that pair. |
| `IsolatedGaps.ResearchPotential` | main.py:335-346 | The score is at most 1.0, and 0.5 without metadata. Without clinical relevance it is at most 0.8, and above 0.7 only when recent mentions exceed 20. |
| `IsolatedGaps.FindSimilarWellConnectedNodes` | main.py:348-375 | The loop, sort and cut return the specified analogue list. |
| `IsolatedGaps.SimilarWellConnectedSpec` | main.py:348-375 | At most three genuine analogues, in non-increasing similarity. An analogue is another node of the same type, with degree above 5 and cosine above 0.6. The list is empty exactly when there is no analogue; otherwise its head is a most similar one. |
| `IsolatedGaps.SimilarAreAnalogues` | main.py:353-373 | Each listed entry describes a well-connected analogue. |
| `IsolatedGaps.SimilarHeadIsBest` | main.py:375 | With an analogue present, the list's head has the highest similarity. |
| `IsolatedGaps.SimilarOrdered` | main.py:375 | At most three entries, with non-increasing similarity. |
| `IsolatedGaps.FindIsolatedHighPotentialNodes` | main.py:217-244 | The node loop returns the detector's gaps, in node order. |
| `IsolatedGaps.IsolatedNodeGapsSound` | main.py:221-242 | Each gap concerns a node of degree at most 2 and type gene, pathway or method, with potential above 0.7. Potential is the gap's confidence and the priority is high. The partner named is a well-connected analogue that no other analogue beats on similarity. Its suggested methods are the isolation detector's fixed list. |
| `IsolatedGaps.IsolatedNodeGapsComplete` | main.py:221-242 | Every such node that has an analogue is reported. |
| `IsolatedGaps.CandidateIsIsolationGap` | main.py:222-241 | The node test produces only isolation gaps of that node. |
| `PatternGaps.TrianglesMember` | main.py:251 | The triangles are exactly the pairwise-linked triples of distinct nodes, corners in node order. |
| `PatternGaps.PatternOfSorted` | main.py:256 | A pattern is the corners' types, with multiplicity, in sorted order. |
| `PatternGaps.SamePattern` | main.py:256 | Two triangles share a pattern exactly when their corner types agree as multisets. |
| `Grouping.GroupInto` | main.py:254-259 | The grouping loop's dictionary and key order represent `GroupBy` of the triangles. |
| `Grouping.GroupBySpec` | main.py:254-259 | One entry per key, keys distinct. Each entry holds exactly the elements with its key, in order. |
| `Grouping.AddToSpec` | main.py:257-259 | One grouping step preserves that invariant. |
| `PatternGaps.HasExplainingHypothesis` | main.py:377-395 | Returns true exactly when some hypothesis node is linked to a corner of at least 70% of the instances. |
| `PatternGaps.ExplainedMeans` | main.py:380-393 | That is the same as: there exists a hypothesis-type node of the graph that covers the instances. |
| `PatternGaps.NoInstancesExplained` | main.py:392 | An empty instance list is explained iff the graph has a hypothesis node. |
| `PatternGaps.CoveredCount` | main.py:384-389 | At most one count per instance. |
| `PatternGaps.FindPatternGaps` | main.py:246-276 | The loop over the groups returns the detector's gaps. |
| `PatternGaps.RecurringPatternGapsSound` | main.py:262-274 | Each gap is the report of a triangle's pattern: at least three instances and not explained. Its confidence is min(0.9, n/10), its priority medium, and its evidence the instance count with the first corners of three instances. Its suggested methods are the pattern detector's fixed list. |
| `PatternGaps.RecurringPatternGapsComplete` | main.py:262-274 | Every unexplained pattern with three or more instances is reported. |
| `PatternGaps.RecurringPatternGapsDistinct` | main.py:262 | No pattern is reported twice. |
| `StableSort.SortDescSpec` | main.py:145 | The sort is a permutation and non-increasing in the key. It is stable: for every key value, elements with that key keep their order. |
| `StableSort.SortDescHead` | main.py:145 | The head carries the largest key. |
| `Ranking.FindHypothesisGaps` | main.py:129-145 | The result holds exactly the four detectors' gaps, as a multiset, by non-increasing confidence. Ties keep the order "pathway, method, isolated, pattern" and each detector's own order. |
| `Ranking.TopGapMostConfident` | main.py:145 | The first ranked gap is a detected gap of highest confidence. |
| `Ranking.RankedGapsSpec` | main.py:145 | Ranking is a permutation, non-increasing and stable. |
| `Gaps.FirstNames` | main.py:174 | At most `n` names, each the name of a listed node. |
| `Gaps.NodesIn` | main.py:174 | Exactly the listed nodes whose id is in the set. |
| `Text.Find` | data_ingestion.py:353 | `str.find`: the first position where the pattern occurs, or none. |
| `Text.Strip` | data_ingestion.py:360 | The result is no longer than the input and neither starts nor ends with whitespace. |
| `Text.StripSlice` | data_ingestion.py:360 | Stripping a slice leaves a sub-slice, with only whitespace cut from each end. |
| `Text.StripEmpty` | main.py:282 | A stripped string is empty exactly when the string is blank. |
| `Text.CountPositive` | data_ingestion.py:264 | A pattern that occurs is counted at least once. |
| `Extraction.ExtractContext` | data_ingestion.py:351-360 | Context is empty when the entity does not occur. It is at most `len(entity) + 2·window` long and starts and ends with non-whitespace. |
| `Extraction.ContextAroundFirstMention` | data_ingestion.py:353-360 | When the entity first occurs at `pos`, the context is the slice of the window around `pos` left after trimming whitespace from both ends. |
| `Extraction.ContextNonEmpty` | data_ingestion.py:351-360 | A non-blank entity that occurs has a non-empty context. |
| `Extraction.ExtractGenes` | data_ingestion.py:251-267 | The loop returns the gene records, in pattern order. |
| `Extraction.GenesSpec` | data_ingestion.py:251-267 | A gene record is reported iff the upper-cased text contains its symbol. It carries the digest id, the context and the occurrence count, which is at least one. |
| `Extraction.GenesAreUpperCase` | data_ingestion.py:254-257 | No reported gene name has a lower-case letter. |
| `Extraction.MtorNeverGene` | data_ingestion.py:256-257 | "mTOR" is a listed symbol yet never reported as a gene. |
| `Extraction.ExtractTerms` | data_ingestion.py:269-303 | The loop shared by pathways and methods returns the term records, in term order. |
| `Extraction.ExtractPathways` | data_ingestion.py:269-285 | The pathway records of the text. |
| `Extraction.ExtractMethods` | data_ingestion.py:287-303 | The method records of the text. |
| `Extraction.TermsSpec` | data_ingestion.py:269-303 | A term record is reported iff the lower-cased text contains the lower-cased term. Its count of such occurrences is at least one. |
| `Extraction.OneRecordPerPattern` | data_ingestion.py:251-303 | Each extractor reports at most one record per pattern. Names are pairwise distinct, since the patterns are sets. |
| `Extraction.OneGenePerPattern` | data_ingestion.py:251-267 | At most one gene record per symbol, with pairwise distinct names. |
| `Extraction.OneTermPerPattern` | data_ingestion.py:269-303 | Any term list without repeats yields at most one record per term, with pairwise distinct names. |
| `Extraction.PatternsDistinct` | data_ingestion.py:36-65 | The three pattern lists repeat no entry. |
| `Extraction.Researchers` | data_ingestion.py:305-320 | One researcher record per author, in order, duplicates included, none with a `mentions` key. |
| `Extraction.ExtractResearchers` | data_ingestion.py:305-320 | The loop returns those records. |
| `Extraction.RelatedSymmetric` | data_ingestion.py:529-536 | Relatedness is symmetric. |
| `Extraction.BlankNameUnrelated` | data_ingestion.py:529-536 | An entity with a blank name is related to nothing. |
| `Extraction.RelatedToItself` | data_ingestion.py:529-536 | An entity is related to itself iff its name has a word. |
| `Dates.DefaultWhenUnreadable` | data_ingestion.py:175-191 | No PubDate, or a Month or Day element without text (the `zfill` on `None` is caught), gives "2024-01-01". |
| `Dates.AllMissingIsDefault` | data_ingestion.py:181-186 | A PubDate with none of the three children gives "2024-01-01". |
| `Dates.TextlessYear` | data_ingestion.py:183-186 | A Year element without text puts "None" in front of the date. |
| `Dates.DigitsGiveIsoDate` | data_ingestion.py:175-191 | A four-digit year with one- or two-digit month and day (or absent ones) gives a `YYYY-MM-DD` date. Its year is the year's text, and its month and day end in the month's and day's digits. |
| `Dates.DateFromChildren` | data_ingestion.py:180-188 | When month and day have text or are absent, the date joins the year's text with the zero-padded month and day texts. An absent year reads as "2024", an absent month or day as "01", and a textless year as "None". |
| `Dates.ExampleDate` | data_ingestion.py:186 | Year 2023, month 5 and no day give "2023-05-01". A month of "Jan" is kept as is. |
| `Dates.ZFillLength` | data_ingestion.py:186 | `zfill` pads to the width and never shortens. |
| `Dates.ZFillUnsigned` | data_ingestion.py:186 | Without a sign, `zfill` prepends zeros and keeps the text whole. |
| `Dates.ZFillSigned` | data_ingestion.py:186 | A leading sign stays in front of the zeros. |
| `Dates.ZFillIdempotent` | data_ingestion.py:186 | Padding twice is padding once. |
| `Dates.PaddedPart` | data_ingestion.py:186 | A padded one- or two-digit part is two digits ending in the part. |
| `Merge.CollectEntities` | data_ingestion.py:376-400 | The collection loop returns the specified merge of all articles, or the KeyError. |
| `Merge.MergeArticle` | data_ingestion.py:390-400 | The loop over one article's entity types returns the merge of its groups. |
| `Merge.AbsorbInto` | data_ingestion.py:394-400 | The loop over one type's records updates only that type's bucket. It stops at the KeyError. |
| `Merge.AbsorbKeys` | data_ingestion.py:394-397 | A merged bucket holds exactly the old ids and the ids of the records. |
| `Merge.AbsorbKeepsFirst` | data_ingestion.py:396-397 | A stored record is the first one seen for its id, up to its count. |
| `Merge.AbsorbTally` | data_ingestion.py:398-400 | A stored count is the old count plus each later record's `mentions`, or 1 when it has none. |
| `Merge.AbsorbFails` | data_ingestion.py:398-400 | Merging raises exactly when some id, held by a record without `mentions`, is met again. |
| `Merge.MergeArticlesFlat` | data_ingestion.py:380-400 | The article loop is one merge over all articles' groups. |
| `Merge.MergeGroupsByKind` | data_ingestion.py:390-400 | The merge succeeds iff each type's records merge. Each type's bucket is then the merge of that type's records alone. |
| `Merge.MergeGroupsFailsAt` | data_ingestion.py:390-400 | One failing type makes the whole merge fail. |
| `Merge.CountedNeverFails` | data_ingestion.py:398-400 | Counted records never raise. |
| `Merge.UncountedFailsOnRepeat` | data_ingestion.py:398-400 | Uncounted records raise from an empty bucket exactly when an id repeats. |
| `Merge.KindVerdict` | data_ingestion.py:390-400 | For extractor-shaped articles, a type's merge fails iff it is researchers or hypotheses and an id repeats. |
| `Merge.CollectFailsIffRepeat` | data_ingestion.py:380-400 | For extractor-shaped articles, the build aborts iff some researcher or hypothesis id occurs twice. |
| `Merge.CollectedCatalog` | data_ingestion.py:389-400 | After a successful merge, a type's bucket holds exactly the ids of that type's records. Each id maps to its first record, and a counted one to the total of the `mentions`. |
| `Merge.ExtractedIsWellFormed` | data_ingestion.py:237-249 | The entities the four extractors return for an article, together with hypothesis records, have the shape the merge and the linking rules expect. |
| `Merge.KindsOfRecords` | data_ingestion.py:241-247 | In extractor-shaped articles, gene, pathway and method records are counted; researcher and hypothesis records are not. |
| `Linking.GraphBuilder.Emit` | main.py:78-93 | `create_relationship` appends the relationship to the log. |
| `Linking.GraphBuilder.LinkResearcherToEntities` | data_ingestion.py:453-471 | Appends one STUDIES relationship with weight 1.0 from the researcher to every entity of every type except researchers, in type order. |
| `Linking.GraphBuilder.LinkGenesToPathways` | data_ingestion.py:473-489 | Appends PARTICIPATES_IN with weight 0.8 for every gene-pathway pair, gene-major. |
| `Linking.GraphBuilder.LinkMethodsToResults` | data_ingestion.py:491-506 | Appends USED_TO_STUDY with weight 0.7 for every method-result pair, method-major. |
| `Linking.GraphBuilder.EmitRelated` | data_ingestion.py:513-527 | Appends RELATES_TO with weight 0.6 to each related entity of the list, in order. |
| `Linking.GraphBuilder.LinkGroup` | data_ingestion.py:511-527 | A single entity type's step of the hypothesis rule, with the hypotheses type skipped. |
| `Linking.GraphBuilder.LinkHypothesisToEntities` | data_ingestion.py:511-527 | One hypothesis against every type, as a per-type walk. |
| `Linking.GraphBuilder.LinkHypothesesToEntities` | data_ingestion.py:508-527 | Appends, for each hypothesis and each entity of every other type, RELATES_TO with weight 0.6 when the two are related. |
| `Linking.GraphBuilder.LinkArticle` | data_ingestion.py:436-451 | One article appends its STUDIES, PARTICIPATES_IN, USED_TO_STUDY and RELATES_TO relationships, in that order. |
| `Linking.GraphBuilder.CreateRelationships` | data_ingestion.py:432-451 | Appends the relationships of every article, article by article. |
| `Linking.GraphBuilder.constructor` | data_ingestion.py:367-370 | An empty log, with `_entities_are_related` as the relatedness test. |
| `Linking.CrossLength` | data_ingestion.py:475-476 | The pairwise rules write `len(froms) × len(tos)` relationships. |
| `Linking.CrossMember` | data_ingestion.py:475-484 | A relationship is written by a pairwise rule iff it joins some source to some target with the rule's type and weight. |
| `Linking.RelatedRowMember` | data_ingestion.py:513-522 | A RELATES_TO relationship is written iff the target is related to the hypothesis. At most one is written per target. |
| `Linking.GroupsRowFlat` | data_ingestion.py:511-513 | Walking the types and skipping hypotheses is walking the flat list of the other types' entities. |
| `Linking.HypothesisEdgesMember` | data_ingestion.py:508-527 | The hypothesis rule writes a relationship iff some hypothesis and some non-hypothesis entity are related. It writes at most one per pair. |
| `Linking.StudiedEntities` | data_ingestion.py:457-458 | The entities a researcher is linked to are the article's genes, pathways, methods and hypotheses. The entities a hypothesis is checked against are the genes, pathways, methods and researchers. |
| `Linking.ArticleEdgeCounts` | data_ingestion.py:436-451 | An article writes R·(G+P+M+H) STUDIES, G·P PARTICIPATES_IN and M·(G+P) USED_TO_STUDY relationships, plus at most H·(G+P+M+R) RELATES_TO relationships. |
| `Linking.StudiesLinks` | data_ingestion.py:440-442 | Exactly researcher → non-researcher entity, weight 1.0. |
| `Linking.GenePathwayLinks` | data_ingestion.py:445 | Exactly gene → pathway, weight 0.8. |
| `Linking.MethodLinks` | data_ingestion.py:448 | Exactly method → gene or pathway, weight 0.7. |
| `Linking.HypothesisLinks` | data_ingestion.py:451 | Exactly hypothesis → related non-hypothesis entity, weight 0.6. |

## Left out

- Neo4j storage and the FastAPI endpoints (`main.py` 55-104, 403-463) are not modelled. The stored graph enters as a list of `(n, r, m)` records, and the database as the `emitted` sequence of the relationships written, in order.
- `_create_nodes` (`data_ingestion.py` 410-430) is not modelled. It only forwards the merged catalogue to the database and adds timestamps.
- The Cypher `MATCH ... CREATE` of `create_relationship` (`main.py` 78-93) writes nothing when an endpoint id has no node and one relationship per matching pair. The model records each requested relationship once and does not model the stored nodes it is matched against.
- Each `create_relationship` failure is caught and printed by the source. The model treats every write as appended.
- Relationship and node timestamps (`datetime.now()`), `print` and the request pacing sleeps are left out.
- The PubMed HTTP search, the XML fetch and parsing (`search_pubmed`, `fetch_article_details`, `_parse_pubmed_xml`, `_extract_article_data`, `_extract_authors`, `_extract_keywords`) and `initialize_knowledge_graph` are outside the model. An article enters as its text, authors and PMID.
- `Dates.PublicationDate` reads a PubDate element given as a value, with children absent or present, and text or none. XML search itself is not modelled.
- `_extract_hypotheses` is not modelled. Its regular expressions are outside the model, so hypothesis records enter the merge and the linking rules as input.
- `_generate_id` (MD5 digest) is a parameter `idOf`, not assumed injective.
- The sentence-embedding model and numpy are a parameter `cos`, standing for the cosine of the two texts' embeddings. Floating-point numbers are modelled as reals.
- Case mapping (`lower`, `upper`) covers ASCII letters only; Unicode case mapping is left out.
- Order of Python sets:
  - The gene, pathway and method pattern sets are walked in their listing order.
  - The common-neighbour and application-area sets are walked in node order.
  - `pattern_groups` is walked in its insertion order.
  - The proved properties (which records and gaps occur, their counts, their fields) do not depend on these orders. Only the listing order of the results does.
- networkx internals are left out:
  - The triangle enumeration order of `enumerate_all_cliques` is taken to be by lowest, middle and highest corner in insertion order.
  - Edge attributes (type and weight) are not kept, because the analysis never reads them.
- The records read back from the database are taken to carry `type` and `name` on each node. Of the optional keys only `description` and `properties` are kept; the others (`id`, timestamps) are never read by the analysis. As written, `create_node` (`main.py` 64-69) stores `type` as a label rather than a property and writes no `description`, so nodes read back by `get_graph_data` carry neither key.
- `PatternGaps.PatternGap`: assumes pydantic v1, which coerces the integer `len(instances)` into the `Dict[str, str]` of `missing_connections`. pydantic v2 would raise a `ValidationError` at `main.py` 266-273, which nothing in `find_hypothesis_gaps` catches, so every reported pattern gap would make the whole call fail. The model always builds the gap.
- Free-text fields of `HypothesisGap` are kept as structured data (`Claim`, `Evidence`) rather than formatted strings. The GENERAL_MECHANISM entry keeps the pattern as a list instead of `str(pattern_type)`.
- Entity dictionaries are shared by reference between the per-article lists and `all_entities`, so the merge's `+=` also changes an article's own record. The model keeps values. This does not show in the relationships, which read only ids.
- `Linking.GraphBuilder.constructor`: the entity extractor and database handle the source's builder holds are not modelled.
