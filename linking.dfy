/**
 * The fixed rules that turn one article's entities into relationships:
 * every researcher STUDIES every other entity, every gene PARTICIPATES_IN
 * every pathway, every method is USED_TO_STUDY every gene and pathway, and a
 * hypothesis RELATES_TO each entity whose name shares a word with its own.
 * The database is modelled by the sequence of relationships the builder
 * asks it to write, in order.
 */
module Linking {
  import opened Extraction
  import opened Merge

  /** The four relationship types the rules create. */
  datatype Kind = Studies | ParticipatesIn | UsedToStudy | RelatesTo {
    /** The type's name in the database. */
    function Label(): string {
      match this
      case Studies => "STUDIES"
      case ParticipatesIn => "PARTICIPATES_IN"
      case UsedToStudy => "USED_TO_STUDY"
      case RelatesTo => "RELATES_TO"
    }
  }

  /** A relationship as written to the database; its creation timestamp is not modelled. */
  datatype Relationship = Relationship(source: string, target: string, kind: Kind, weight: real)

  /** One relationship from `from` to each entity of `tos`, in order. */
  function Row(from: Entity, tos: seq<Entity>, kind: Kind, weight: real): (rs: seq<Relationship>)
    ensures |rs| == |tos|
    ensures forall j :: 0 <= j < |tos| ==> rs[j] == Relationship(from.id, tos[j].id, kind, weight)
  {
    seq(|tos|, j requires 0 <= j < |tos| => Relationship(from.id, tos[j].id, kind, weight))
  }

  /** A `Row` for each entity of `froms`, in order: the nested loop over two lists. */
  function Cross(froms: seq<Entity>, tos: seq<Entity>, kind: Kind, weight: real): seq<Relationship>
    decreases |froms|
  {
    if froms == [] then []
    else Cross(froms[..|froms| - 1], tos, kind, weight) + Row(froms[|froms| - 1], tos, kind, weight)
  }

  /** A RELATES_TO relationship from `h` to each entity of `tos` that `related` relates it to, in order. */
  function RelatedRow(h: Entity, tos: seq<Entity>, related: (Entity, Entity) -> bool): seq<Relationship>
    decreases |tos|
  {
    if tos == [] then [] else RelatedRow(h, tos[..|tos| - 1], related) + RelatedEdge(h, tos[|tos| - 1], related)
  }

  /** The RELATES_TO relationship from `h` to `e` when the two are related, and nothing otherwise. */
  function RelatedEdge(h: Entity, e: Entity, related: (Entity, Entity) -> bool): seq<Relationship> {
    if related(h, e) then [Relationship(h.id, e.id, RelatesTo, 0.6)] else []
  }

  /** One hypothesis against each entity type in turn, the hypotheses themselves skipped. */
  function GroupsRow(h: Entity, gs: seq<Group>, related: (Entity, Entity) -> bool): seq<Relationship>
    decreases |gs|
  {
    if gs == [] then [] else GroupsRow(h, gs[..|gs| - 1], related) + RelatedRow(h, Picked(gs[|gs| - 1], "hypotheses"), related)
  }

  lemma GroupsRowStep(h: Entity, gs: seq<Group>, t: nat, related: (Entity, Entity) -> bool)
    requires t < |gs|
    ensures GroupsRow(h, gs[..t + 1], related) == GroupsRow(h, gs[..t], related) + RelatedRow(h, Picked(gs[t], "hypotheses"), related)
  {
    assert gs[..t + 1][..t] == gs[..t];
  }

  /** A `RelatedRow` for each hypothesis, in order. */
  function HypothesisEdges(hs: seq<Entity>, tos: seq<Entity>, related: (Entity, Entity) -> bool): seq<Relationship>
    decreases |hs|
  {
    if hs == [] then [] else HypothesisEdges(hs[..|hs| - 1], tos, related) + RelatedRow(hs[|hs| - 1], tos, related)
  }

  /** The records of every group whose type is not `skip`, in dictionary order. */
  function Others(gs: seq<Group>, skip: string): seq<Entity>
    decreases |gs|
  {
    if gs == [] then [] else Others(gs[..|gs| - 1], skip) + Picked(gs[|gs| - 1], skip)
  }

  /** The records of `g`, unless its type is `skip`. */
  function Picked(g: Group, skip: string): seq<Entity> {
    if g.0 != skip then g.1 else []
  }

  /** The relationships created for one article, in creation order. */
  function ArticleEdges(x: Extracted, related: (Entity, Entity) -> bool): seq<Relationship> {
    StudiesEdges(x) + PairEdges(x) + MethodEdges(x) + RelatesEdges(x, related)
  }

  /** STUDIES, weight 1.0, from each researcher to every entity of another type. */
  function StudiesEdges(x: Extracted): seq<Relationship> {
    Cross(x.researchers, x.genes + x.pathways + x.methods + x.hypotheses, Studies, 1.0)
  }

  /** PARTICIPATES_IN, weight 0.8, from each gene to each pathway. */
  function PairEdges(x: Extracted): seq<Relationship> {
    Cross(x.genes, x.pathways, ParticipatesIn, 0.8)
  }

  /** USED_TO_STUDY, weight 0.7, from each method to each gene and pathway. */
  function MethodEdges(x: Extracted): seq<Relationship> {
    Cross(x.methods, x.genes + x.pathways, UsedToStudy, 0.7)
  }

  /** RELATES_TO, weight 0.6, from each hypothesis to each related entity of another type. */
  function RelatesEdges(x: Extracted, related: (Entity, Entity) -> bool): seq<Relationship> {
    HypothesisEdges(x.hypotheses, x.genes + x.pathways + x.methods + x.researchers, related)
  }

  lemma AllEdgesStep(arts: seq<Extracted>, i: nat, related: (Entity, Entity) -> bool)
    requires i < |arts|
    ensures AllEdges(arts[..i + 1], related) == AllEdges(arts[..i], related) + ArticleEdges(arts[i], related)
  {
    assert arts[..i + 1][..i] == arts[..i];
  }

  lemma Assoc<T>(a: seq<T>, b: seq<T>, c: seq<T>)
    ensures a + b + c == a + (b + c)
  {
  }

  lemma TakeAll<T>(s: seq<T>)
    ensures s[..|s|] == s
  {
  }

  lemma Concat4<T>(s: seq<T>, a: seq<T>, b: seq<T>, c: seq<T>, d: seq<T>)
    ensures s + a + b + c + d == s + (a + b + c + d)
  {
  }

  /** The relationships created for a list of articles, in creation order. */
  function AllEdges(arts: seq<Extracted>, related: (Entity, Entity) -> bool): seq<Relationship>
    decreases |arts|
  {
    if arts == [] then [] else AllEdges(arts[..|arts| - 1], related) + ArticleEdges(arts[|arts| - 1], related)
  }

  lemma RowAppend(from: Entity, a: seq<Entity>, b: seq<Entity>, kind: Kind, weight: real)
    ensures Row(from, a + b, kind, weight) == Row(from, a, kind, weight) + Row(from, b, kind, weight)
  {
  }

  lemma {:induction false} RelatedRowAppend(h: Entity, a: seq<Entity>, b: seq<Entity>, related: (Entity, Entity) -> bool)
    ensures RelatedRow(h, a + b, related) == RelatedRow(h, a, related) + RelatedRow(h, b, related)
    decreases |b|
  {
    if b == [] {
      assert a + b == a;
    } else {
      assert (a + b)[..|a + b| - 1] == a + b[..|b| - 1];
      RelatedRowAppend(h, a, b[..|b| - 1], related);
    }
  }

  /**
   * The relationship-creating part of the graph builder: `emitted` is the
   * relationships it has asked the database to write so far, in order, and `related` is the
   * builder's `_entities_are_related`.
   */
  class GraphBuilder {
    var emitted: seq<Relationship>
    const related: (Entity, Entity) -> bool

    constructor()
      ensures emitted == [] && related == EntitiesAreRelated
    {
      emitted := [];
      related := EntitiesAreRelated;
    }

    /** `create_relationship`: the relationship is appended. */
    method Emit(r: Relationship)
      modifies this
      ensures emitted == old(emitted) + [r]
    {
      emitted := emitted + [r];
    }

    /** The inner loop of the pairwise rules: one relationship from `from` to each of `tos`. */
    method EmitRow(from: Entity, tos: seq<Entity>, kind: Kind, weight: real)
      modifies this
      ensures emitted == old(emitted) + Row(from, tos, kind, weight)
    {
      for j := 0 to |tos|
        invariant emitted == old(emitted) + Row(from, tos[..j], kind, weight)
      {
        RowAppend(from, tos[..j], [tos[j]], kind, weight);
        assert tos[..j + 1] == tos[..j] + [tos[j]];
        Emit(Relationship(from.id, tos[j].id, kind, weight));
      }
      assert tos[..|tos|] == tos;
    }

    /** `_link_researcher_to_entities`: STUDIES, weight 1.0, to every entity of every type but researchers. */
    method LinkResearcherToEntities(researcher: Entity, gs: seq<Group>)
      modifies this
      ensures emitted == old(emitted) + Row(researcher, Others(gs, "researchers"), Studies, 1.0)
    {
      for t := 0 to |gs|
        invariant emitted == old(emitted) + Row(researcher, Others(gs[..t], "researchers"), Studies, 1.0)
      {
        OthersStep(gs, t, "researchers");
        RowAppend(researcher, Others(gs[..t], "researchers"), Picked(gs[t], "researchers"), Studies, 1.0);
        var (kind, list) := gs[t];
        if kind != "researchers" {
          EmitRow(researcher, list, Studies, 1.0);
        }
      }
      assert gs[..|gs|] == gs;
    }

    /** `_link_genes_to_pathways`: PARTICIPATES_IN, weight 0.8, from every gene to every pathway. */
    method LinkGenesToPathways(genes: seq<Entity>, pathways: seq<Entity>)
      modifies this
      ensures emitted == old(emitted) + Cross(genes, pathways, ParticipatesIn, 0.8)
    {
      for i := 0 to |genes|
        invariant emitted == old(emitted) + Cross(genes[..i], pathways, ParticipatesIn, 0.8)
      {
        assert genes[..i + 1][..i] == genes[..i];
        EmitRow(genes[i], pathways, ParticipatesIn, 0.8);
      }
      assert genes[..|genes|] == genes;
    }

    /** `_link_methods_to_results`: USED_TO_STUDY, weight 0.7, from every method to every result. */
    method LinkMethodsToResults(methods: seq<Entity>, results: seq<Entity>)
      modifies this
      ensures emitted == old(emitted) + Cross(methods, results, UsedToStudy, 0.7)
    {
      for i := 0 to |methods|
        invariant emitted == old(emitted) + Cross(methods[..i], results, UsedToStudy, 0.7)
      {
        assert methods[..i + 1][..i] == methods[..i];
        EmitRow(methods[i], results, UsedToStudy, 0.7);
      }
      assert methods[..|methods|] == methods;
    }

    /** The innermost loop of `_link_hypotheses_to_entities`: RELATES_TO each related entity. */
    method EmitRelated(h: Entity, tos: seq<Entity>)
      modifies this
      ensures emitted == old(emitted) + RelatedRow(h, tos, related)
    {
      for j := 0 to |tos|
        invariant emitted == old(emitted) + RelatedRow(h, tos[..j], related)
      {
        assert tos[..j + 1][..j] == tos[..j];
        if related(h, tos[j]) {
          Emit(Relationship(h.id, tos[j].id, RelatesTo, 0.6));
        }
      }
      assert tos[..|tos|] == tos;
    }

    /** One entity type of `_link_hypotheses_to_entities`: the hypotheses themselves are skipped. */
    method LinkGroup(h: Entity, g: Group)
      modifies this
      ensures emitted == old(emitted) + RelatedRow(h, Picked(g, "hypotheses"), related)
    {
      var (kind, list) := g;
      if kind != "hypotheses" {
        EmitRelated(h, list);
      }
    }

    /** The body of the outer loop of `_link_hypotheses_to_entities`: one hypothesis against every entity type. */
    method LinkHypothesisToEntities(h: Entity, gs: seq<Group>)
      modifies this
      ensures emitted == old(emitted) + GroupsRow(h, gs, related)
    {
      for t := 0 to |gs|
        invariant emitted == old(emitted) + GroupsRow(h, gs[..t], related)
      {
        GroupsRowStep(h, gs, t, related);
        LinkGroup(h, gs[t]);
        Assoc(old(emitted), GroupsRow(h, gs[..t], related), RelatedRow(h, Picked(gs[t], "hypotheses"), related));
      }
      TakeAll(gs);
    }

    /** `_link_hypotheses_to_entities`. */
    method LinkHypothesesToEntities(hypotheses: seq<Entity>, gs: seq<Group>)
      modifies this
      ensures emitted == old(emitted) + HypothesisEdges(hypotheses, Others(gs, "hypotheses"), related)
    {
      ghost var others := Others(gs, "hypotheses");
      for i := 0 to |hypotheses|
        invariant emitted == old(emitted) + HypothesisEdges(hypotheses[..i], others, related)
      {
        assert hypotheses[..i + 1][..i] == hypotheses[..i];
        LinkHypothesisToEntities(hypotheses[i], gs);
        GroupsRowFlat(hypotheses[i], gs, related);
        Assoc(old(emitted), HypothesisEdges(hypotheses[..i], others, related), RelatedRow(hypotheses[i], others, related));
      }
      assert hypotheses[..|hypotheses|] == hypotheses;
    }

    /** `_create_relationships` for one article. */
    method LinkArticle(x: Extracted)
      modifies this
      ensures emitted == old(emitted) + ArticleEdges(x, related)
    {
      StudiedEntities(x);
      for i := 0 to |x.researchers|
        invariant emitted == old(emitted) + Cross(x.researchers[..i], Others(Groups(x), "researchers"), Studies, 1.0)
      {
        assert x.researchers[..i + 1][..i] == x.researchers[..i];
        LinkResearcherToEntities(x.researchers[i], Groups(x));
      }
      TakeAll(x.researchers);
      ghost var studied := emitted;
      assert studied == old(emitted) + StudiesEdges(x);
      LinkGenesToPathways(x.genes, x.pathways);
      ghost var paired := emitted;
      assert paired == studied + PairEdges(x);
      LinkMethodsToResults(x.methods, x.genes + x.pathways);
      ghost var used := emitted;
      assert used == paired + MethodEdges(x);
      LinkHypothesesToEntities(x.hypotheses, Groups(x));
      assert emitted == used + RelatesEdges(x, related);
      Concat4(old(emitted), StudiesEdges(x), PairEdges(x), MethodEdges(x), RelatesEdges(x, related));
    }

    /** `_create_relationships`. */
    method CreateRelationships(arts: seq<Extracted>)
      modifies this
      ensures emitted == old(emitted) + AllEdges(arts, related)
    {
      for i := 0 to |arts|
        invariant emitted == old(emitted) + AllEdges(arts[..i], related)
      {
        AllEdgesStep(arts, i, related);
        LinkArticle(arts[i]);
        Assoc(old(emitted), AllEdges(arts[..i], related), ArticleEdges(arts[i], related));
      }
      assert arts[..|arts|] == arts;
    }
  }

  // ----- What the rules produce -----

  /** The nested loop over two lists produces one relationship per pair. */
  lemma {:induction false} CrossLength(froms: seq<Entity>, tos: seq<Entity>, kind: Kind, weight: real)
    ensures |Cross(froms, tos, kind, weight)| == |froms| * |tos|
    decreases |froms|
  {
    if froms != [] {
      CrossLength(froms[..|froms| - 1], tos, kind, weight);
      assert |froms| * |tos| == (|froms| - 1) * |tos| + |tos|;
    }
  }

  /** A relationship of the nested loop links some entity of `froms` to some entity of `tos`, and each such pair is linked. */
  lemma {:induction false} CrossMember(froms: seq<Entity>, tos: seq<Entity>, kind: Kind, weight: real, r: Relationship)
    ensures r in Cross(froms, tos, kind, weight) <==>
      exists i, j :: 0 <= i < |froms| && 0 <= j < |tos| && r == Relationship(froms[i].id, tos[j].id, kind, weight)
    decreases |froms|
  {
    if froms != [] {
      var init := froms[..|froms| - 1];
      var last := froms[|froms| - 1];
      CrossMember(init, tos, kind, weight, r);
      if r in Row(last, tos, kind, weight) {
        var j :| 0 <= j < |tos| && Row(last, tos, kind, weight)[j] == r;
        assert r == Relationship(froms[|froms| - 1].id, tos[j].id, kind, weight);
      }
      if exists i, j :: 0 <= i < |froms| && 0 <= j < |tos| && r == Relationship(froms[i].id, tos[j].id, kind, weight) {
        var i, j :| 0 <= i < |froms| && 0 <= j < |tos| && r == Relationship(froms[i].id, tos[j].id, kind, weight);
        if i < |froms| - 1 {
          assert init[i] == froms[i];
        } else {
          assert Row(last, tos, kind, weight)[j] == r;
        }
      }
    }
  }

  /** `RelatedRow` links `h` to exactly the entities of `tos` related to it. */
  lemma {:induction false} RelatedRowMember(h: Entity, tos: seq<Entity>, related: (Entity, Entity) -> bool, r: Relationship)
    ensures r in RelatedRow(h, tos, related) <==>
      exists j :: 0 <= j < |tos| && related(h, tos[j]) && r == Relationship(h.id, tos[j].id, RelatesTo, 0.6)
    ensures |RelatedRow(h, tos, related)| <= |tos|
    decreases |tos|
  {
    if tos != [] {
      var init := tos[..|tos| - 1];
      RelatedRowMember(h, init, related, r);
      if exists j :: 0 <= j < |tos| && related(h, tos[j]) && r == Relationship(h.id, tos[j].id, RelatesTo, 0.6) {
        var j :| 0 <= j < |tos| && related(h, tos[j]) && r == Relationship(h.id, tos[j].id, RelatesTo, 0.6);
        if j < |tos| - 1 {
          assert init[j] == tos[j];
        }
      }
    }
  }

  /** Walking the entity types for one hypothesis is filtering the records of every type but hypotheses. */
  lemma {:induction false} GroupsRowFlat(h: Entity, gs: seq<Group>, related: (Entity, Entity) -> bool)
    ensures GroupsRow(h, gs, related) == RelatedRow(h, Others(gs, "hypotheses"), related)
    decreases |gs|
  {
    if gs != [] {
      GroupsRowFlat(h, gs[..|gs| - 1], related);
      RelatedRowAppend(h, Others(gs[..|gs| - 1], "hypotheses"), Picked(gs[|gs| - 1], "hypotheses"), related);
    }
  }

  /** Hypothesis relationships link a hypothesis to an entity exactly when the two are related. */
  lemma {:induction false} HypothesisEdgesMember(hs: seq<Entity>, tos: seq<Entity>, related: (Entity, Entity) -> bool, r: Relationship)
    ensures r in HypothesisEdges(hs, tos, related) <==>
      exists i, j :: 0 <= i < |hs| && 0 <= j < |tos| && related(hs[i], tos[j])
                     && r == Relationship(hs[i].id, tos[j].id, RelatesTo, 0.6)
    ensures |HypothesisEdges(hs, tos, related)| <= |hs| * |tos|
    decreases |hs|
  {
    if hs != [] {
      var init := hs[..|hs| - 1];
      var last := hs[|hs| - 1];
      HypothesisEdgesMember(init, tos, related, r);
      RelatedRowMember(last, tos, related, r);
      assert |hs| * |tos| == (|hs| - 1) * |tos| + |tos|;
      if exists i, j :: 0 <= i < |hs| && 0 <= j < |tos| && related(hs[i], tos[j])
                        && r == Relationship(hs[i].id, tos[j].id, RelatesTo, 0.6) {
        var i, j :| 0 <= i < |hs| && 0 <= j < |tos| && related(hs[i], tos[j])
                    && r == Relationship(hs[i].id, tos[j].id, RelatesTo, 0.6);
        if i < |hs| - 1 {
          assert init[i] == hs[i];
        }
      }
    }
  }

  lemma OthersStep(gs: seq<Group>, t: nat, skip: string)
    requires t < |gs|
    ensures Others(gs[..t + 1], skip) == Others(gs[..t], skip) + Picked(gs[t], skip)
  {
    assert gs[..t + 1][..t] == gs[..t];
  }

  lemma OthersSnoc(gs: seq<Group>, g: Group, skip: string)
    ensures Others(gs + [g], skip) == Others(gs, skip) + Picked(g, skip)
  {
    assert (gs + [g])[..|gs|] == gs;
  }

  lemma OthersOfGroups(x: Extracted, skip: string)
    ensures Others(Groups(x), skip) ==
      (if skip != "genes" then x.genes else []) + (if skip != "pathways" then x.pathways else [])
      + (if skip != "methods" then x.methods else []) + (if skip != "researchers" then x.researchers else [])
      + (if skip != "hypotheses" then x.hypotheses else [])
  {
    var g0, g1, g2, g3, g4 := ("genes", x.genes), ("pathways", x.pathways), ("methods", x.methods),
                              ("researchers", x.researchers), ("hypotheses", x.hypotheses);
    assert Groups(x) == [g0, g1, g2, g3] + [g4];
    assert [g0, g1, g2, g3] == [g0, g1, g2] + [g3];
    assert [g0, g1, g2] == [g0, g1] + [g2];
    assert [g0, g1] == [g0] + [g1];
    assert [g0] == [] + [g0];
    var p0, p1, p2, p3, p4 := Picked(g0, skip), Picked(g1, skip), Picked(g2, skip), Picked(g3, skip), Picked(g4, skip);
    OthersSnoc([], g0, skip);
    assert Others([g0], skip) == p0;
    OthersSnoc([g0], g1, skip);
    assert Others([g0, g1], skip) == p0 + p1;
    OthersSnoc([g0, g1], g2, skip);
    assert Others([g0, g1, g2], skip) == p0 + p1 + p2;
    OthersSnoc([g0, g1, g2], g3, skip);
    assert Others([g0, g1, g2, g3], skip) == p0 + p1 + p2 + p3;
    OthersSnoc([g0, g1, g2, g3], g4, skip);
  }

  /** The entities a researcher studies are all of the article's genes, pathways, methods and hypotheses, in that order. */
  lemma StudiedEntities(x: Extracted)
    ensures Others(Groups(x), "researchers") == x.genes + x.pathways + x.methods + x.hypotheses
    ensures Others(Groups(x), "hypotheses") == x.genes + x.pathways + x.methods + x.researchers
  {
    OthersOfGroups(x, "researchers");
    OthersOfGroups(x, "hypotheses");
  }

  /**
   * Per article: one STUDIES relationship per researcher and entity of
   * another type, |genes|·|pathways| PARTICIPATES_IN ones,
   * |methods|·(|genes|+|pathways|) USED_TO_STUDY ones, and at most one
   * RELATES_TO per hypothesis and entity of another type.
   */
  lemma ArticleEdgeCounts(x: Extracted, related: (Entity, Entity) -> bool)
    ensures |StudiesEdges(x)| == |x.researchers| * (|x.genes| + |x.pathways| + |x.methods| + |x.hypotheses|)
    ensures |PairEdges(x)| == |x.genes| * |x.pathways|
    ensures |MethodEdges(x)| == |x.methods| * (|x.genes| + |x.pathways|)
    ensures |RelatesEdges(x, related)| <= |x.hypotheses| * (|x.genes| + |x.pathways| + |x.methods| + |x.researchers|)
    ensures |ArticleEdges(x, related)| == |StudiesEdges(x)| + |PairEdges(x)| + |MethodEdges(x)| + |RelatesEdges(x, related)|
  {
    CrossLength(x.genes, x.pathways, ParticipatesIn, 0.8);
    CrossLength(x.methods, x.genes + x.pathways, UsedToStudy, 0.7);
    CrossLength(x.researchers, x.genes + x.pathways + x.methods + x.hypotheses, Studies, 1.0);
    HypothesisEdgesLength(x.hypotheses, x.genes + x.pathways + x.methods + x.researchers, related);
  }

  lemma HypothesisEdgesLength(hs: seq<Entity>, tos: seq<Entity>, related: (Entity, Entity) -> bool)
    ensures |HypothesisEdges(hs, tos, related)| <= |hs| * |tos|
  {
    HypothesisEdgesMember(hs, tos, related, Relationship("", "", RelatesTo, 0.0));
  }

  /** Each researcher of an article STUDIES, with weight 1.0, every gene, pathway, method and hypothesis of it, and nothing else. */
  lemma StudiesLinks(x: Extracted, r: Relationship)
    ensures r in StudiesEdges(x) <==>
      exists i, j :: 0 <= i < |x.researchers| && 0 <= j < |x.genes + x.pathways + x.methods + x.hypotheses|
        && r == Relationship(x.researchers[i].id, (x.genes + x.pathways + x.methods + x.hypotheses)[j].id, Studies, 1.0)
  {
    CrossMember(x.researchers, x.genes + x.pathways + x.methods + x.hypotheses, Studies, 1.0, r);
  }

  /** Each gene of an article PARTICIPATES_IN, with weight 0.8, every pathway of it, and nothing else. */
  lemma GenePathwayLinks(x: Extracted, r: Relationship)
    ensures r in PairEdges(x) <==>
      exists i, j :: 0 <= i < |x.genes| && 0 <= j < |x.pathways| && r == Relationship(x.genes[i].id, x.pathways[j].id, ParticipatesIn, 0.8)
  {
    CrossMember(x.genes, x.pathways, ParticipatesIn, 0.8, r);
  }

  /** Each method of an article is USED_TO_STUDY, with weight 0.7, every gene and pathway of it, and nothing else. */
  lemma MethodLinks(x: Extracted, r: Relationship)
    ensures r in MethodEdges(x) <==>
      exists i, j :: 0 <= i < |x.methods| && 0 <= j < |x.genes + x.pathways|
        && r == Relationship(x.methods[i].id, (x.genes + x.pathways)[j].id, UsedToStudy, 0.7)
  {
    CrossMember(x.methods, x.genes + x.pathways, UsedToStudy, 0.7, r);
  }

  /**
   * A hypothesis relationship of an article links one of its hypotheses to a
   * gene, pathway, method or researcher of the same article that shares a
   * word with it, and every such related pair is linked.
   */
  lemma HypothesisLinks(x: Extracted, r: Relationship)
    ensures r in RelatesEdges(x, EntitiesAreRelated) <==>
      exists i, j :: 0 <= i < |x.hypotheses| && 0 <= j < |x.genes + x.pathways + x.methods + x.researchers|
        && EntitiesAreRelated(x.hypotheses[i], (x.genes + x.pathways + x.methods + x.researchers)[j])
        && r == Relationship(x.hypotheses[i].id, (x.genes + x.pathways + x.methods + x.researchers)[j].id, RelatesTo, 0.6)
  {
    HypothesisEdgesMember(x.hypotheses, x.genes + x.pathways + x.methods + x.researchers, EntitiesAreRelated, r);
  }
}
