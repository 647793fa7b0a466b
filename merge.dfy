/**
 * The merge of per-article extraction results into one catalogue per entity
 * type: the first record seen for an id is kept, and every later record
 * with that id adds its `mentions` (1 when it has none) to the stored one.
 * A stored record without a `mentions` key makes that addition fail with a
 * KeyError, which aborts the whole build; `None` stands for it here.
 */
module Merge {
  import opened Wrappers
  import opened Extraction

  /** One article's entities, under the keys the extractor returns them in. */
  datatype Extracted = Extracted(genes: seq<Entity>, pathways: seq<Entity>, methods: seq<Entity>,
                                 researchers: seq<Entity>, hypotheses: seq<Entity>)

  /** A type name and the records of that type. */
  type Group = (string, seq<Entity>)

  /** The items of an article's entity dictionary, in its key order. */
  function Groups(x: Extracted): (gs: seq<Group>)
    ensures |gs| == 5
  {
    [("genes", x.genes), ("pathways", x.pathways), ("methods", x.methods),
     ("researchers", x.researchers), ("hypotheses", x.hypotheses)]
  }

  /** The records of one entity type, by id. */
  type Bucket = map<string, Entity>

  /** `all_entities`: one bucket per entity type. */
  type Catalog = map<string, Bucket>

  /** A type's bucket, empty before the type is first seen. */
  function Get(all: Catalog, kind: string): Bucket {
    if kind in all then all[kind] else map[]
  }

  /** `entity.get("mentions", 1)`. */
  function MentionsOr1(e: Entity): nat {
    e.Mentions().GetOr(1)
  }

  /** One step of the merge for one record. */
  function Absorb(b: Bucket, e: Entity): Option<Bucket> {
    if e.id !in b then Some(b[e.id := e])
    else if b[e.id].Mention? then Some(b[e.id := b[e.id].(mentions := b[e.id].mentions + MentionsOr1(e))])
    else None
  }

  /** The merge of a list of records into a bucket, stopping at the first KeyError. */
  function AbsorbAll(b: Bucket, es: seq<Entity>): Option<Bucket>
    decreases |es|
  {
    if es == [] then Some(b)
    else match Absorb(b, es[0])
      case None => None
      case Some(b') => AbsorbAll(b', es[1..])
  }

  /** The merge of a list of groups, each into the bucket of its type. */
  function MergeGroups(all: Catalog, gs: seq<Group>): Option<Catalog>
    decreases |gs|
  {
    if gs == [] then Some(all)
    else match AbsorbAll(Get(all, gs[0].0), gs[0].1)
      case None => None
      case Some(b) => MergeGroups(all[gs[0].0 := b], gs[1..])
  }

  /** The collection loop of `build_graph_from_articles`, article by article. */
  function MergeArticles(all: Catalog, arts: seq<Extracted>): Option<Catalog>
    decreases |arts|
  {
    if arts == [] then Some(all)
    else match MergeGroups(all, Groups(arts[0]))
      case None => None
      case Some(c) => MergeArticles(c, arts[1..])
  }

  /** The inner loop: the records of one type merged into that type's bucket, in place. */
  method AbsorbInto(all: Catalog, kind: string, es: seq<Entity>) returns (r: Option<Catalog>)
    requires kind in all
    ensures r == (match AbsorbAll(all[kind], es) case None => None case Some(b) => Some(all[kind := b]))
  {
    var cur := all;
    for k := 0 to |es|
      invariant kind in cur && cur == all[kind := cur[kind]]
      invariant AbsorbAll(all[kind], es) == AbsorbAll(cur[kind], es[k..])
    {
      assert es[k..][0] == es[k] && es[k..][1..] == es[k + 1..];
      var entity := es[k];
      var bucket := cur[kind];
      if entity.id !in bucket {
        cur := cur[kind := bucket[entity.id := entity]];
      } else if bucket[entity.id].Mention? {
        var stored := bucket[entity.id];
        cur := cur[kind := bucket[entity.id := stored.(mentions := stored.mentions + entity.Mentions().GetOr(1))]];
      } else {
        return None;
      }
    }
    return Some(cur);
  }

  /** The loop over one article's entity types. */
  method MergeArticle(all: Catalog, x: Extracted) returns (r: Option<Catalog>)
    ensures r == MergeGroups(all, Groups(x))
  {
    var gs := Groups(x);
    var cur := all;
    for t := 0 to |gs|
      invariant MergeGroups(all, gs) == MergeGroups(cur, gs[t..])
    {
      assert gs[t..][0] == gs[t] && gs[t..][1..] == gs[t + 1..];
      var (kind, list) := gs[t];
      ghost var before := cur;
      if kind !in cur {
        cur := cur[kind := map[]];
      }
      assert cur[kind] == Get(before, kind);
      var next := AbsorbInto(cur, kind, list);
      if next.None? {
        return None;
      }
      ghost var b := AbsorbAll(Get(before, kind), list).value;
      Replace(before, cur, kind, b);
      cur := next.value;
    }
    return Some(cur);
  }

  /** Setting a type's bucket overrides whatever the catalogue held for that type before. */
  lemma Replace(before: Catalog, cur: Catalog, kind: string, b: Bucket)
    requires cur == before || cur == before[kind := map[]]
    ensures cur[kind := b] == before[kind := b]
  {
  }

  /** `build_graph_from_articles` up to the creation of nodes: the merged catalogue, or a KeyError. */
  method CollectEntities(arts: seq<Extracted>) returns (r: Option<Catalog>)
    ensures r == MergeArticles(map[], arts)
  {
    var all: Catalog := map[];
    for i := 0 to |arts|
      invariant MergeArticles(map[], arts) == MergeArticles(all, arts[i..])
    {
      assert arts[i..][0] == arts[i] && arts[i..][1..] == arts[i + 1..];
      var next := MergeArticle(all, arts[i]);
      if next.None? {
        return None;
      }
      all := next.value;
    }
    return Some(all);
  }

  // ----- What one bucket ends up holding -----

  /** The ids of a list of records. */
  function Ids(es: seq<Entity>): set<string> {
    set e | e in es :: e.id
  }

  /** The first record with `id`, if any. */
  function First(es: seq<Entity>, id: string): Option<Entity>
    decreases |es|
  {
    if es == [] then None else if es[0].id == id then Some(es[0]) else First(es[1..], id)
  }

  /** The record that holds `id` once the list is merged in: the stored one, else the first in the list. */
  function Holder(b: Bucket, es: seq<Entity>, id: string): Option<Entity> {
    if id in b then Some(b[id]) else First(es, id)
  }

  /** A record with its mention count cleared: what stays fixed while mentions accumulate. */
  function Erase(e: Entity): Entity {
    if e.Mention? then e.(mentions := 0) else e
  }

  /** How many records of the list carry `id`. */
  function Hits(es: seq<Entity>, id: string): nat
    decreases |es|
  {
    if es == [] then 0 else (if es[0].id == id then 1 else 0) + Hits(es[1..], id)
  }

  /** The sum of `mentions` (1 when absent) over the records of the list that carry `id`. */
  function Tally(es: seq<Entity>, id: string): nat
    decreases |es|
  {
    if es == [] then 0 else (if es[0].id == id then MentionsOr1(es[0]) else 0) + Tally(es[1..], id)
  }

  /** The stored count for `id` before the list is merged in. */
  function Base(b: Bucket, id: string): nat {
    if id in b && b[id].Mention? then b[id].mentions else 0
  }

  /** `id` is held by a record without `mentions` and is met again: a KeyError. */
  predicate Conflict(b: Bucket, es: seq<Entity>, id: string) {
    Holder(b, es, id).Some? && !Holder(b, es, id).value.Mention?
    && (if id in b then 1 else 0) + Hits(es, id) >= 2
  }

  /** One successful step leaves the holder of every id in place, up to its count. */
  lemma HolderStep(b: Bucket, es: seq<Entity>, b': Bucket, id: string)
    requires es != [] && Absorb(b, es[0]) == Some(b')
    ensures Holder(b', es[1..], id).Some? == Holder(b, es, id).Some?
    ensures Holder(b', es[1..], id).Some? ==> Erase(Holder(b', es[1..], id).value) == Erase(Holder(b, es, id).value)
    ensures Conflict(b', es[1..], id) <==> Conflict(b, es, id)
  {
  }

  /** A merged bucket holds exactly the ids stored before and those of the list. */
  lemma {:induction false} AbsorbKeys(b: Bucket, es: seq<Entity>)
    requires AbsorbAll(b, es).Some?
    ensures AbsorbAll(b, es).value.Keys == b.Keys + Ids(es)
    decreases |es|
  {
    if es != [] {
      var b' := Absorb(b, es[0]).value;
      AbsorbKeys(b', es[1..]);
      assert es == [es[0]] + es[1..];
      assert Ids(es) == {es[0].id} + Ids(es[1..]);
    }
  }

  /**
   * Each id in a merged bucket is held by the record stored before, or else
   * by the first record of the list with that id; only its count changes.
   */
  lemma {:induction false} AbsorbKeepsFirst(b: Bucket, es: seq<Entity>, id: string)
    requires AbsorbAll(b, es).Some? && id in AbsorbAll(b, es).value
    ensures Holder(b, es, id).Some?
    ensures Erase(AbsorbAll(b, es).value[id]) == Erase(Holder(b, es, id).value)
    decreases |es|
  {
    if es != [] {
      var b' := Absorb(b, es[0]).value;
      AbsorbKeepsFirst(b', es[1..], id);
      HolderStep(b, es, b', id);
    }
  }

  /** A merged record with a count has the stored count plus every later record's contribution. */
  lemma {:induction false} AbsorbTally(b: Bucket, es: seq<Entity>, id: string)
    requires AbsorbAll(b, es).Some? && id in AbsorbAll(b, es).value && AbsorbAll(b, es).value[id].Mention?
    ensures AbsorbAll(b, es).value[id].mentions == Base(b, id) + Tally(es, id)
    decreases |es|
  {
    if es != [] {
      var b' := Absorb(b, es[0]).value;
      AbsorbTally(b', es[1..], id);
      AbsorbKeepsFirst(b', es[1..], id);
      HolderStep(b, es, b', id);
    }
  }

  /** The merge of a list raises a KeyError exactly when some id is in conflict. */
  lemma {:induction false} AbsorbFails(b: Bucket, es: seq<Entity>)
    ensures AbsorbAll(b, es).None? <==> exists id :: Conflict(b, es, id)
    decreases |es|
  {
    if es == [] {
      forall id ensures !Conflict(b, es, id) {
      }
    } else {
      match Absorb(b, es[0])
      case None =>
        assert Conflict(b, es, es[0].id);
      case Some(b') =>
        AbsorbFails(b', es[1..]);
        forall id ensures Conflict(b', es[1..], id) <==> Conflict(b, es, id) {
          HolderStep(b, es, b', id);
        }
    }
  }

  /** Merging two lists one after the other is merging their concatenation. */
  lemma {:induction false} AbsorbAppend(b: Bucket, xs: seq<Entity>, ys: seq<Entity>)
    ensures AbsorbAll(b, xs + ys) == (match AbsorbAll(b, xs) case None => None case Some(b') => AbsorbAll(b', ys))
    decreases |xs|
  {
    if xs != [] {
      assert (xs + ys)[0] == xs[0] && (xs + ys)[1..] == xs[1..] + ys;
      match Absorb(b, xs[0])
      case None =>
      case Some(b') => AbsorbAppend(b', xs[1..], ys);
    } else {
      assert xs + ys == ys;
    }
  }

  // ----- From groups and articles to one list per type -----

  /** The records of all groups of type `kind`, in order. */
  function Entries(gs: seq<Group>, kind: string): seq<Entity>
    decreases |gs|
  {
    if gs == [] then [] else (if gs[0].0 == kind then gs[0].1 else []) + Entries(gs[1..], kind)
  }

  /** The groups of all articles, in order. */
  function AllGroups(arts: seq<Extracted>): seq<Group>
    decreases |arts|
  {
    if arts == [] then [] else Groups(arts[0]) + AllGroups(arts[1..])
  }

  lemma {:induction false} MergeGroupsAppend(all: Catalog, g1: seq<Group>, g2: seq<Group>)
    ensures MergeGroups(all, g1 + g2) == (match MergeGroups(all, g1) case None => None case Some(c) => MergeGroups(c, g2))
    decreases |g1|
  {
    if g1 != [] {
      assert (g1 + g2)[0] == g1[0] && (g1 + g2)[1..] == g1[1..] + g2;
      match AbsorbAll(Get(all, g1[0].0), g1[0].1)
      case None =>
      case Some(b) => MergeGroupsAppend(all[g1[0].0 := b], g1[1..], g2);
    } else {
      assert g1 + g2 == g2;
    }
  }

  /** The article loop is one merge over all groups of all articles. */
  lemma {:induction false} MergeArticlesFlat(all: Catalog, arts: seq<Extracted>)
    ensures MergeArticles(all, arts) == MergeGroups(all, AllGroups(arts))
    decreases |arts|
  {
    if arts != [] {
      MergeGroupsAppend(all, Groups(arts[0]), AllGroups(arts[1..]));
      match MergeGroups(all, Groups(arts[0]))
      case None =>
      case Some(c) => MergeArticlesFlat(c, arts[1..]);
    }
  }

  /**
   * Types do not interact: merging the groups succeeds exactly when every
   * type's records merge into its own bucket, and each resulting bucket is
   * that type's bucket with all of the type's records merged in order.
   */
  lemma {:induction false} MergeGroupsByKind(all: Catalog, gs: seq<Group>)
    ensures MergeGroups(all, gs).Some? <==> forall k :: AbsorbAll(Get(all, k), Entries(gs, k)).Some?
    ensures MergeGroups(all, gs).Some? ==>
      forall k :: Get(MergeGroups(all, gs).value, k) == AbsorbAll(Get(all, k), Entries(gs, k)).value
    decreases |gs|
  {
    if gs != [] {
      var k0 := gs[0].0;
      match AbsorbAll(Get(all, k0), gs[0].1)
      case None =>
        EntriesSplit(all, gs, k0);
      case Some(b) =>
        MergeGroupsByKind(all[k0 := b], gs[1..]);
        ByKindShift(all, gs, b);
    }
  }

  /** Merging a type's records is merging those of the first group, then those of the rest. */
  lemma EntriesSplit(all: Catalog, gs: seq<Group>, k: string)
    requires gs != []
    ensures AbsorbAll(Get(all, k), Entries(gs, k)) ==
      (match AbsorbAll(Get(all, k), if k == gs[0].0 then gs[0].1 else [])
       case None => None case Some(b) => AbsorbAll(b, Entries(gs[1..], k)))
  {
    AbsorbAppend(Get(all, k), if k == gs[0].0 then gs[0].1 else [], Entries(gs[1..], k));
  }

  lemma ByKindShift(all: Catalog, gs: seq<Group>, b: Bucket)
    requires gs != [] && AbsorbAll(Get(all, gs[0].0), gs[0].1) == Some(b)
    ensures forall k :: AbsorbAll(Get(all[gs[0].0 := b], k), Entries(gs[1..], k)) == AbsorbAll(Get(all, k), Entries(gs, k))
  {
    forall k ensures AbsorbAll(Get(all[gs[0].0 := b], k), Entries(gs[1..], k)) == AbsorbAll(Get(all, k), Entries(gs, k)) {
      EntriesSplit(all, gs, k);
    }
  }

  lemma MergeGroupsSucceeds(all: Catalog, gs: seq<Group>)
    ensures MergeGroups(all, gs).Some? <==> forall k :: AbsorbAll(Get(all, k), Entries(gs, k)).Some?
  {
    MergeGroupsByKind(all, gs);
  }

  /** A type whose records raise makes the whole merge raise. */
  lemma MergeGroupsFailsAt(all: Catalog, gs: seq<Group>, k: string)
    requires AbsorbAll(Get(all, k), Entries(gs, k)).None?
    ensures MergeGroups(all, gs).None?
  {
    MergeGroupsSucceeds(all, gs);
  }

  // ----- The merge over well-formed articles -----

  /** An article as the extractor produces it: counted records under the first three keys, uncounted ones under the last two. */
  predicate WellFormed(x: Extracted) {
    (forall e :: e in x.genes + x.pathways + x.methods ==> e.Mention?)
    && (forall e :: e in x.researchers + x.hypotheses ==> !e.Mention?)
  }

  /**
   * `extract_entities_from_article`: the extractors' results under their keys.
   * Hypothesis records come from `_extract_hypotheses`, which is not part of this model.
   */
  function ArticleEntities(idOf: IdOf, text: string, authors: seq<string>, pmid: Option<string>, hypotheses: seq<Entity>): Extracted {
    Extracted(Genes(idOf, text), Terms(idOf, "pathway", PathwayPatterns, text), Terms(idOf, "method", MethodPatterns, text),
              Researchers(idOf, authors, pmid), hypotheses)
  }

  /** What the extractors return is well formed, so the merge's verdicts apply to it. */
  lemma ExtractedIsWellFormed(idOf: IdOf, text: string, authors: seq<string>, pmid: Option<string>, hypotheses: seq<Entity>)
    requires forall h :: h in hypotheses ==> h.Hypothesis?
    ensures WellFormed(ArticleEntities(idOf, text, authors, pmid, hypotheses))
  {
    var x := ArticleEntities(idOf, text, authors, pmid, hypotheses);
    forall e | e in x.genes + x.pathways + x.methods ensures e.Mention? {
      if e in x.genes {
        GenesSpec(idOf, text, e);
      } else if e in x.pathways {
        TermsSpec(idOf, "pathway", PathwayPatterns, text, e);
      } else {
        TermsSpec(idOf, "method", MethodPatterns, text, e);
      }
    }
    forall e | e in x.researchers + x.hypotheses ensures !e.Mention? {
      if e in x.researchers {
        var i :| 0 <= i < |x.researchers| && x.researchers[i] == e;
      }
    }
  }

  /** Some record of the list shares its id with a later one. */
  predicate Repeats(es: seq<Entity>) {
    exists i, j :: 0 <= i < j < |es| && es[i].id == es[j].id
  }

  lemma {:induction false} EntriesMember(gs: seq<Group>, kind: string, e: Entity)
    ensures e in Entries(gs, kind) <==> exists t :: 0 <= t < |gs| && gs[t].0 == kind && e in gs[t].1
    decreases |gs|
  {
    if gs != [] {
      EntriesMember(gs[1..], kind, e);
      if e in Entries(gs[1..], kind) {
        var t :| 0 <= t < |gs[1..]| && gs[1..][t].0 == kind && e in gs[1..][t].1;
        assert gs[t + 1] == gs[1..][t];
      }
      if exists t :: 0 <= t < |gs| && gs[t].0 == kind && e in gs[t].1 {
        var t :| 0 <= t < |gs| && gs[t].0 == kind && e in gs[t].1;
        if t > 0 {
          assert gs[1..][t - 1] == gs[t];
        }
      }
    }
  }

  lemma {:induction false} AllGroupsMember(arts: seq<Extracted>, g: Group)
    ensures g in AllGroups(arts) <==> exists i :: 0 <= i < |arts| && g in Groups(arts[i])
    decreases |arts|
  {
    if arts != [] {
      AllGroupsMember(arts[1..], g);
      if exists i :: 0 <= i < |arts| && g in Groups(arts[i]) {
        var i :| 0 <= i < |arts| && g in Groups(arts[i]);
        if i > 0 {
          assert arts[1..][i - 1] == arts[i];
        }
      }
    }
  }

  /** In well-formed articles, a type's records are counted exactly when the type is a gene, pathway or method type. */
  lemma KindsOfRecords(arts: seq<Extracted>, kind: string, e: Entity)
    requires forall i :: 0 <= i < |arts| ==> WellFormed(arts[i])
    requires e in Entries(AllGroups(arts), kind)
    ensures kind in {"genes", "pathways", "methods"} ==> e.Mention?
    ensures kind in {"researchers", "hypotheses"} ==> !e.Mention?
  {
    EntriesMember(AllGroups(arts), kind, e);
    var t :| 0 <= t < |AllGroups(arts)| && AllGroups(arts)[t].0 == kind && e in AllGroups(arts)[t].1;
    AllGroupsMember(arts, AllGroups(arts)[t]);
    var i :| 0 <= i < |arts| && AllGroups(arts)[t] in Groups(arts[i]);
    GroupKinds(arts[i], AllGroups(arts)[t], e);
  }

  /** Within one well-formed article, the type a group is listed under decides whether its records are counted. */
  lemma GroupKinds(x: Extracted, grp: Group, e: Entity)
    requires WellFormed(x) && grp in Groups(x) && e in grp.1
    ensures grp.0 in {"genes", "pathways", "methods"} ==> e.Mention?
    ensures grp.0 in {"researchers", "hypotheses"} ==> !e.Mention?
  {
    if grp == ("genes", x.genes) || grp == ("pathways", x.pathways) || grp == ("methods", x.methods) {
      assert e in x.genes + x.pathways + x.methods;
    } else {
      assert e in x.researchers + x.hypotheses;
    }
  }

  /** A bucket of counted records never raises. */
  lemma CountedNeverFails(b: Bucket, es: seq<Entity>)
    requires forall id :: id in b ==> b[id].Mention?
    requires forall e :: e in es ==> e.Mention?
    ensures AbsorbAll(b, es).Some?
  {
    AbsorbFails(b, es);
    forall id ensures !Conflict(b, es, id) {
      FirstIsMember(es, id);
    }
  }

  /** Starting from an empty bucket, uncounted records raise exactly when an id repeats. */
  lemma UncountedFailsOnRepeat(es: seq<Entity>)
    requires forall e :: e in es ==> !e.Mention?
    ensures AbsorbAll(map[], es).None? <==> Repeats(es)
  {
    AbsorbFails(map[], es);
    if Repeats(es) {
      var i, j :| 0 <= i < j < |es| && es[i].id == es[j].id;
      HitsTwice(es, i, j);
      FirstIsMember(es, es[i].id);
      assert Conflict(map[], es, es[i].id);
    }
    if exists id :: Conflict(map[], es, id) {
      var id :| Conflict(map[], es, id);
      HitsRepeat(es, id);
    }
  }

  lemma {:induction false} FirstIsMember(es: seq<Entity>, id: string)
    ensures First(es, id).Some? ==> First(es, id).value in es && First(es, id).value.id == id
    decreases |es|
  {
    if es != [] && es[0].id != id {
      FirstIsMember(es[1..], id);
    }
  }

  lemma {:induction false} HitsTwice(es: seq<Entity>, i: nat, j: nat)
    requires i < j < |es| && es[i].id == es[j].id
    ensures Hits(es, es[i].id) >= 2 && First(es, es[i].id).Some?
    decreases |es|
  {
    if i > 0 {
      HitsTwice(es[1..], i - 1, j - 1);
    } else {
      HitsOne(es[1..], j - 1, es[i].id);
    }
  }

  lemma {:induction false} HitsOne(es: seq<Entity>, j: nat, id: string)
    requires j < |es| && es[j].id == id
    ensures Hits(es, id) >= 1
    decreases |es|
  {
    if j > 0 {
      HitsOne(es[1..], j - 1, id);
    }
  }

  lemma {:induction false} HitsRepeat(es: seq<Entity>, id: string)
    requires Hits(es, id) >= 2
    ensures Repeats(es)
    decreases |es|
  {
    if es[0].id == id {
      var j := HitsWitness(es[1..], id);
      assert es[0].id == es[j + 1].id;
    } else {
      HitsRepeat(es[1..], id);
      var i, j :| 0 <= i < j < |es[1..]| && es[1..][i].id == es[1..][j].id;
      assert es[i + 1].id == es[j + 1].id;
    }
  }

  lemma {:induction false} HitsWitness(es: seq<Entity>, id: string) returns (j: nat)
    requires Hits(es, id) >= 1
    ensures j < |es| && es[j].id == id
    decreases |es|
  {
    if es[0].id == id {
      j := 0;
    } else {
      j := HitsWitness(es[1..], id);
      j := j + 1;
    }
  }

  /**
   * The collection over well-formed articles raises a KeyError exactly when
   * a researcher id, or a hypothesis id, is produced twice; gene, pathway and
   * method duplicates only add to the count of the first record.
   */
  lemma CollectFailsIffRepeat(arts: seq<Extracted>)
    requires forall i :: 0 <= i < |arts| ==> WellFormed(arts[i])
    ensures MergeArticles(map[], arts).None? <==>
      Repeats(Entries(AllGroups(arts), "researchers")) || Repeats(Entries(AllGroups(arts), "hypotheses"))
  {
    MergeArticlesFlat(map[], arts);
    GroupsFailIffRepeat(arts);
  }

  lemma GroupsFailIffRepeat(arts: seq<Extracted>)
    requires forall i :: 0 <= i < |arts| ==> WellFormed(arts[i])
    ensures MergeGroups(map[], AllGroups(arts)).None? <==>
      Repeats(Entries(AllGroups(arts), "researchers")) || Repeats(Entries(AllGroups(arts), "hypotheses"))
  {
    var gs := AllGroups(arts);
    if Repeats(Entries(gs, "researchers")) {
      KindVerdict(arts, "researchers");
      MergeGroupsFailsAt(map[], gs, "researchers");
    } else if Repeats(Entries(gs, "hypotheses")) {
      KindVerdict(arts, "hypotheses");
      MergeGroupsFailsAt(map[], gs, "hypotheses");
    } else {
      forall k ensures AbsorbAll(Get(map[], k), Entries(gs, k)).Some? {
        KindVerdict(arts, k);
      }
      MergeGroupsSucceeds(map[], gs);
    }
  }

  /** Within one type, the merge of all articles' records raises only on a repeated researcher or hypothesis id. */
  lemma KindVerdict(arts: seq<Extracted>, k: string)
    requires forall i :: 0 <= i < |arts| ==> WellFormed(arts[i])
    ensures AbsorbAll(Get(map[], k), Entries(AllGroups(arts), k)).None? <==>
      k in {"researchers", "hypotheses"} && Repeats(Entries(AllGroups(arts), k))
  {
    var gs := AllGroups(arts);
    assert Get(map[], k) == map[];
    if k in {"genes", "pathways", "methods"} {
      forall e | e in Entries(gs, k) ensures e.Mention? {
        KindsOfRecords(arts, k, e);
      }
      CountedNeverFails(map[], Entries(gs, k));
    } else if k in {"researchers", "hypotheses"} {
      forall e | e in Entries(gs, k) ensures !e.Mention? {
        KindsOfRecords(arts, k, e);
      }
      UncountedFailsOnRepeat(Entries(gs, k));
    } else {
      NoOtherKinds(gs, arts, k);
    }
  }

  /** No article has a group of any other type. */
  lemma NoOtherKinds(gs: seq<Group>, arts: seq<Extracted>, k: string)
    requires gs == AllGroups(arts)
    requires k !in {"genes", "pathways", "methods", "researchers", "hypotheses"}
    ensures Entries(gs, k) == []
  {
    if Entries(gs, k) != [] {
      EntriesMember(gs, k, Entries(gs, k)[0]);
      var t :| 0 <= t < |gs| && gs[t].0 == k && Entries(gs, k)[0] in gs[t].1;
      AllGroupsMember(arts, gs[t]);
    }
  }

  /**
   * After a successful collection, each type's catalogue holds exactly the
   * ids of that type's records; each entry is the first record with its id,
   * and a counted one carries the sum of all counts for that id.
   */
  lemma CollectedCatalog(arts: seq<Extracted>, kind: string, id: string)
    requires MergeArticles(map[], arts).Some?
    ensures id in Get(MergeArticles(map[], arts).value, kind) <==> id in Ids(Entries(AllGroups(arts), kind))
    ensures id in Get(MergeArticles(map[], arts).value, kind) ==>
      First(Entries(AllGroups(arts), kind), id).Some?
      && Erase(Get(MergeArticles(map[], arts).value, kind)[id]) == Erase(First(Entries(AllGroups(arts), kind), id).value)
    ensures id in Get(MergeArticles(map[], arts).value, kind) && Get(MergeArticles(map[], arts).value, kind)[id].Mention? ==>
      Get(MergeArticles(map[], arts).value, kind)[id].mentions == Tally(Entries(AllGroups(arts), kind), id)
  {
    MergeArticlesFlat(map[], arts);
    MergeGroupsByKind(map[], AllGroups(arts));
    var es := Entries(AllGroups(arts), kind);
    assert Get(map[], kind) == map[];
    AbsorbKeys(map[], es);
    if id in Get(MergeArticles(map[], arts).value, kind) {
      AbsorbKeepsFirst(map[], es, id);
      if Get(MergeArticles(map[], arts).value, kind)[id].Mention? {
        AbsorbTally(map[], es, id);
      }
    }
  }
}
