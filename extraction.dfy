/**
 * The dictionary-driven entity extractor: each article's text is scanned for
 * fixed gene, pathway and method names, its authors become researcher
 * records, and every record found in the text carries a context window cut
 * around its first mention.
 */
module Extraction {
  import opened Wrappers
  import opened Text
  import opened Sweep

  /** The digest that names an entity from its type and name; opaque, and not assumed injective. */
  type IdOf = (string, string) -> string

  /**
   * An extracted entity record. Genes, pathways and methods carry a
   * `mentions` count; researchers and hypotheses have no such key.
   */
  datatype Entity =
    | Mention(id: string, name: string, kind: string, context: string, mentions: nat)
    | Researcher(id: string, name: string, affiliation: string, articles: seq<string>)
    | Hypothesis(id: string, name: string, confidence: real, evidence: string)
  {
    /** The record's `"mentions"` key, when it has one. */
    function Mentions(): Option<nat> {
      if Mention? then Some(mentions) else None
    }
  }

  /** The characters kept on each side of a mention. */
  const ContextWindow: nat := 100

  /** Gene symbols, matched against the upper-cased text. */
  const GenePatterns: seq<string> := [
    "TP53", "FOXO1", "FOXO3", "SIRT1", "SIRT2", "SIRT3", "SIRT6",
    "mTOR", "AMPK", "ATG5", "ATG7", "BECN1", "TERT", "TERC",
    "CDKN2A", "CDKN1A", "IGF1", "IGF1R", "APOE", "KLOTHO",
    "NRF2", "NFE2L2", "SOD1", "SOD2", "CAT", "GPX1"
  ]

  /** Pathway names, matched case-insensitively. */
  const PathwayPatterns: seq<string> := [
    "mTOR signaling", "autophagy", "DNA repair", "oxidative stress response",
    "insulin signaling", "IGF-1 signaling", "caloric restriction",
    "mitochondrial biogenesis", "telomere maintenance", "senescence",
    "inflammation", "immune response", "circadian rhythm", "proteostasis",
    "unfolded protein response", "apoptosis", "cell cycle regulation"
  ]

  /** Experimental method names, matched case-insensitively. */
  const MethodPatterns: seq<string> := [
    "RNA-seq", "scRNA-seq", "proteomics", "metabolomics", "lipidomics",
    "GWAS", "ChIP-seq", "ATAC-seq", "bisulfite sequencing", "methylation analysis",
    "flow cytometry", "immunofluorescence", "western blot", "qPCR",
    "CRISPR", "siRNA", "overexpression", "knockdown", "knockout",
    "mass spectrometry", "NMR", "microscopy", "cell culture"
  ]

  /** `max(0, pos - window)`. */
  function WindowStart(pos: nat, window: nat): nat {
    if pos < window then 0 else pos - window
  }

  /** `min(len(text), pos + len(entity) + window)`. */
  function WindowEnd(n: nat, pos: nat, len: nat, window: nat): nat {
    if n < pos + len + window then n else pos + len + window
  }

  /**
   * The text around the first case-insensitive occurrence of `entity`:
   * up to `window` characters on each side, clipped to the text and stripped.
   */
  function ExtractContext(text: string, entity: string, window: nat): (r: string)
    ensures Find(Lower(text), Lower(entity)).None? ==> r == []
    ensures |r| <= |entity| + 2 * window
    ensures r == [] || (!IsSpace(r[0]) && !IsSpace(r[|r| - 1]))
  {
    match Find(Lower(text), Lower(entity))
    case None => []
    case Some(pos) =>
      Strip(text[WindowStart(pos, window)..WindowEnd(|text|, pos, |entity|, window)])
  }

  /**
   * Where the entity occurs, the context is the part of the window around its
   * first occurrence left after trimming blank runs from both ends.
   */
  lemma ContextAroundFirstMention(text: string, entity: string, window: nat, pos: nat)
    requires Find(Lower(text), Lower(entity)) == Some(pos)
    ensures pos + |entity| <= |text|
    ensures exists a, b ::
      WindowStart(pos, window) <= a <= b <= WindowEnd(|text|, pos, |entity|, window)
      && ExtractContext(text, entity, window) == text[a..b]
      && (forall i :: WindowStart(pos, window) <= i < a ==> IsSpace(text[i]))
      && (forall i :: b <= i < WindowEnd(|text|, pos, |entity|, window) ==> IsSpace(text[i]))
  {
    var a, b := StripSlice(text, WindowStart(pos, window), WindowEnd(|text|, pos, |entity|, window));
  }

  /** The context of an entity that occurs and is not blank is never empty. */
  lemma ContextNonEmpty(text: string, entity: string, window: nat)
    requires Contains(Lower(text), Lower(entity)) && !IsBlank(entity)
    ensures ExtractContext(text, entity, window) != []
  {
    var pos := Find(Lower(text), Lower(entity)).value;
    var start, end := WindowStart(pos, window), WindowEnd(|text|, pos, |entity|, window);
    var i :| 0 <= i < |entity| && !IsSpace(entity[i]);
    OccurrenceKeepsNonSpace(text, entity, pos, i);
    var a, b := StripSlice(text, start, end);
    assert start <= pos + i < end;
  }

  /** A non-whitespace character of a case-insensitive occurrence is non-whitespace in the text. */
  lemma OccurrenceKeepsNonSpace(text: string, entity: string, pos: nat, i: nat)
    requires OccursAt(Lower(text), Lower(entity), pos) && i < |entity| && !IsSpace(entity[i])
    ensures pos + i < |text| && !IsSpace(text[pos + i])
  {
    LowerKeepsSpaces(entity);
    LowerKeepsSpaces(text);
    assert Lower(text)[pos + i] == Lower(entity)[i];
  }

  /** `_extract_genes` for one symbol: its record when the upper-cased text contains it. */
  function GeneMatch(idOf: IdOf, text: string, gene: string): Option<Entity> {
    var upper := Upper(text);
    if Contains(upper, gene) then
      Some(Mention(idOf("gene", gene), gene, "gene", ExtractContext(text, gene, ContextWindow), Count(upper, gene)))
    else None
  }

  function GeneFinder(idOf: IdOf, text: string): string -> Option<Entity> {
    gene => GeneMatch(idOf, text, gene)
  }

  /** The gene records of one article, in pattern order. */
  function Genes(idOf: IdOf, text: string): seq<Entity> {
    Each(GenePatterns, GeneFinder(idOf, text))
  }

  /** `_extract_genes`. */
  method ExtractGenes(idOf: IdOf, text: string) returns (genes: seq<Entity>)
    ensures genes == Genes(idOf, text)
  {
    genes := [];
    var f := GeneFinder(idOf, text);
    for i := 0 to |GenePatterns|
      invariant genes == Each(GenePatterns[..i], f)
    {
      EachStep(GenePatterns, f, i);
      var gene := GenePatterns[i];
      var upper := Upper(text);
      if Contains(upper, gene) {
        genes := genes + [Mention(idOf("gene", gene), gene, "gene", ExtractContext(text, gene, ContextWindow), Count(upper, gene))];
      }
    }
    assert GenePatterns[..|GenePatterns|] == GenePatterns;
  }

  /** `_extract_pathways` / `_extract_methods` for one term: matched with both sides lower-cased. */
  function TermMatch(idOf: IdOf, kind: string, text: string, term: string): Option<Entity> {
    var lower := Lower(text);
    if Contains(lower, Lower(term)) then
      Some(Mention(idOf(kind, term), term, kind, ExtractContext(text, term, ContextWindow), Count(lower, Lower(term))))
    else None
  }

  function TermFinder(idOf: IdOf, kind: string, text: string): string -> Option<Entity> {
    term => TermMatch(idOf, kind, text, term)
  }

  /** The records of `kind` found in one article for a list of terms, in term order. */
  function Terms(idOf: IdOf, kind: string, terms: seq<string>, text: string): seq<Entity> {
    Each(terms, TermFinder(idOf, kind, text))
  }

  /** The loop shared by `_extract_pathways` and `_extract_methods`. */
  method ExtractTerms(idOf: IdOf, kind: string, terms: seq<string>, text: string) returns (found: seq<Entity>)
    ensures found == Terms(idOf, kind, terms, text)
  {
    found := [];
    var f := TermFinder(idOf, kind, text);
    for i := 0 to |terms|
      invariant found == Each(terms[..i], f)
    {
      EachStep(terms, f, i);
      var term := terms[i];
      var lower := Lower(text);
      if Contains(lower, Lower(term)) {
        found := found + [Mention(idOf(kind, term), term, kind, ExtractContext(text, term, ContextWindow), Count(lower, Lower(term)))];
      }
    }
    assert terms[..|terms|] == terms;
  }

  /** `_extract_pathways`. */
  method ExtractPathways(idOf: IdOf, text: string) returns (pathways: seq<Entity>)
    ensures pathways == Terms(idOf, "pathway", PathwayPatterns, text)
  {
    pathways := ExtractTerms(idOf, "pathway", PathwayPatterns, text);
  }

  /** `_extract_methods`. */
  method ExtractMethods(idOf: IdOf, text: string) returns (methods: seq<Entity>)
    ensures methods == Terms(idOf, "method", MethodPatterns, text)
  {
    methods := ExtractTerms(idOf, "method", MethodPatterns, text);
  }

  /**
   * A gene record is reported exactly for each symbol the upper-cased text
   * contains; it names that symbol and counts its non-overlapping
   * occurrences, at least one.
   */
  lemma GenesSpec(idOf: IdOf, text: string, e: Entity)
    ensures e in Genes(idOf, text) <==>
      e.Mention? && e.name in GenePatterns && Contains(Upper(text), e.name)
      && e == Mention(idOf("gene", e.name), e.name, "gene", ExtractContext(text, e.name, ContextWindow), Count(Upper(text), e.name))
    ensures e in Genes(idOf, text) ==> e.mentions >= 1
  {
    EachMember(GenePatterns, GeneFinder(idOf, text), e);
    if e in Genes(idOf, text) {
      CountPositive(Upper(text), e.name);
    }
    if e.Mention? && e.name in GenePatterns && Contains(Upper(text), e.name) {
      var i :| 0 <= i < |GenePatterns| && GenePatterns[i] == e.name;
      assert GeneFinder(idOf, text)(GenePatterns[i]) == GeneMatch(idOf, text, e.name);
    }
  }

  /** No gene record names a symbol with a lower-case letter in it, "mTOR" among them. */
  lemma GenesAreUpperCase(idOf: IdOf, text: string, e: Entity, i: nat)
    requires e in Genes(idOf, text) && i < |e.name|
    ensures !IsLowerLetter(e.name[i])
  {
    GenesSpec(idOf, text, e);
    if IsLowerLetter(e.name[i]) {
      UpperExcludesLower(text, e.name, i);
    }
  }

  /** "mTOR" is listed among the gene symbols but is never reported as a gene. */
  lemma MtorNeverGene(idOf: IdOf, text: string, e: Entity)
    ensures "mTOR" in GenePatterns
    ensures e in Genes(idOf, text) ==> e.name != "mTOR"
  {
    assert GenePatterns[7] == "mTOR";
    if e in Genes(idOf, text) && e.name == "mTOR" {
      GenesAreUpperCase(idOf, text, e, 0);
    }
  }

  /**
   * A term record is reported exactly for each term the lower-cased text
   * contains lower-cased, with its count of such occurrences, at least one.
   */
  lemma TermsSpec(idOf: IdOf, kind: string, terms: seq<string>, text: string, e: Entity)
    ensures e in Terms(idOf, kind, terms, text) <==>
      e.Mention? && e.name in terms && Contains(Lower(text), Lower(e.name))
      && e == Mention(idOf(kind, e.name), e.name, kind, ExtractContext(text, e.name, ContextWindow), Count(Lower(text), Lower(e.name)))
    ensures e in Terms(idOf, kind, terms, text) ==> e.mentions >= 1
  {
    EachMember(terms, TermFinder(idOf, kind, text), e);
    if e in Terms(idOf, kind, terms, text) {
      CountPositive(Lower(text), Lower(e.name));
    }
    if e.Mention? && e.name in terms && Contains(Lower(text), Lower(e.name)) {
      var i :| 0 <= i < |terms| && terms[i] == e.name;
      assert TermFinder(idOf, kind, text)(terms[i]) == TermMatch(idOf, kind, text, e.name);
    }
  }

  /** Records named after distinct patterns have distinct names. */
  lemma {:induction false} NamedAfterPatterns(patterns: seq<string>, f: string -> Option<Entity>)
    requires forall i, j :: 0 <= i < j < |patterns| ==> patterns[i] != patterns[j]
    requires forall i :: 0 <= i < |patterns| && f(patterns[i]).Some? ==> f(patterns[i]).value.name == patterns[i]
    ensures |Each(patterns, f)| <= |patterns|
    ensures forall a, b :: 0 <= a < b < |Each(patterns, f)| ==> Each(patterns, f)[a].name != Each(patterns, f)[b].name
  {
    var h := (e: Entity) => e.name;
    EachLength(patterns, f);
    EachDistinct(patterns, f, h);
    forall a, b | 0 <= a < b < |Each(patterns, f)|
      ensures Each(patterns, f)[a].name != Each(patterns, f)[b].name
    {
      assert h(Each(patterns, f)[a]) != h(Each(patterns, f)[b]);
    }
  }

  /** The three pattern lists have no repeated entry, as the sets they stand for. */
  lemma PatternsDistinct()
    ensures forall i, j :: 0 <= i < j < |GenePatterns| ==> GenePatterns[i] != GenePatterns[j]
    ensures forall i, j :: 0 <= i < j < |PathwayPatterns| ==> PathwayPatterns[i] != PathwayPatterns[j]
    ensures forall i, j :: 0 <= i < j < |MethodPatterns| ==> MethodPatterns[i] != MethodPatterns[j]
  {
    GenePatternsDistinct();
    PathwayPatternsDistinct();
    MethodPatternsDistinct();
  }

  lemma GenePatternsDistinct()
    ensures forall i, j :: 0 <= i < j < |GenePatterns| ==> GenePatterns[i] != GenePatterns[j]
  {
  }

  lemma PathwayPatternsDistinct()
    ensures forall i, j :: 0 <= i < j < |PathwayPatterns| ==> PathwayPatterns[i] != PathwayPatterns[j]
  {
  }

  lemma MethodPatternsDistinct()
    ensures forall i, j :: 0 <= i < j < |MethodPatterns| ==> MethodPatterns[i] != MethodPatterns[j]
  {
  }

  /** Each extractor reports at most one record per pattern. */
  lemma OneRecordPerPattern(idOf: IdOf, text: string)
    ensures |Genes(idOf, text)| <= |GenePatterns|
    ensures forall a, b :: 0 <= a < b < |Genes(idOf, text)| ==> Genes(idOf, text)[a].name != Genes(idOf, text)[b].name
    ensures forall a, b :: 0 <= a < b < |Terms(idOf, "pathway", PathwayPatterns, text)| ==>
      Terms(idOf, "pathway", PathwayPatterns, text)[a].name != Terms(idOf, "pathway", PathwayPatterns, text)[b].name
    ensures forall a, b :: 0 <= a < b < |Terms(idOf, "method", MethodPatterns, text)| ==>
      Terms(idOf, "method", MethodPatterns, text)[a].name != Terms(idOf, "method", MethodPatterns, text)[b].name
  {
    OneGenePerPattern(idOf, text);
    PathwayPatternsDistinct();
    OneTermPerPattern(idOf, "pathway", PathwayPatterns, text);
    MethodPatternsDistinct();
    OneTermPerPattern(idOf, "method", MethodPatterns, text);
  }

  lemma OneGenePerPattern(idOf: IdOf, text: string)
    ensures |Genes(idOf, text)| <= |GenePatterns|
    ensures forall a, b :: 0 <= a < b < |Genes(idOf, text)| ==> Genes(idOf, text)[a].name != Genes(idOf, text)[b].name
  {
    GenePatternsDistinct();
    NamedAfterPatterns(GenePatterns, GeneFinder(idOf, text));
  }

  /** A term list without repeats yields records with pairwise distinct names. */
  lemma OneTermPerPattern(idOf: IdOf, kind: string, patterns: seq<string>, text: string)
    requires forall i, j :: 0 <= i < j < |patterns| ==> patterns[i] != patterns[j]
    ensures |Terms(idOf, kind, patterns, text)| <= |patterns|
    ensures forall a, b :: 0 <= a < b < |Terms(idOf, kind, patterns, text)| ==>
      Terms(idOf, kind, patterns, text)[a].name != Terms(idOf, kind, patterns, text)[b].name
  {
    NamedAfterPatterns(patterns, TermFinder(idOf, kind, text));
  }

  /** `_extract_researchers` for one author. */
  function ResearcherOf(idOf: IdOf, author: string, pmid: Option<string>): Entity {
    Researcher(idOf("researcher", author), author, "", [pmid.GetOr("")])
  }

  /** One researcher record per author, in author order, duplicates included. */
  function Researchers(idOf: IdOf, authors: seq<string>, pmid: Option<string>): (rs: seq<Entity>)
    ensures |rs| == |authors|
    ensures forall i :: 0 <= i < |rs| ==> rs[i].Researcher? && rs[i].name == authors[i] && rs[i].Mentions().None?
  {
    seq(|authors|, i requires 0 <= i < |authors| => ResearcherOf(idOf, authors[i], pmid))
  }

  /** `_extract_researchers`. */
  method ExtractResearchers(idOf: IdOf, authors: seq<string>, pmid: Option<string>) returns (researchers: seq<Entity>)
    ensures researchers == Researchers(idOf, authors, pmid)
  {
    researchers := [];
    for i := 0 to |authors|
      invariant |researchers| == i
      invariant forall j :: 0 <= j < i ==> researchers[j] == ResearcherOf(idOf, authors[j], pmid)
    {
      researchers := researchers + [Researcher(idOf("researcher", authors[i]), authors[i], "", [pmid.GetOr("")])];
    }
  }

  /** `_entities_are_related`: the two names share a lower-cased whitespace-separated word. */
  predicate EntitiesAreRelated(a: Entity, b: Entity) {
    WordSet(Lower(a.name)) * WordSet(Lower(b.name)) != {}
  }

  /** Relatedness does not depend on the order of its arguments. */
  lemma RelatedSymmetric(a: Entity, b: Entity)
    ensures EntitiesAreRelated(a, b) <==> EntitiesAreRelated(b, a)
  {
    assert WordSet(Lower(a.name)) * WordSet(Lower(b.name)) == WordSet(Lower(b.name)) * WordSet(Lower(a.name));
  }

  /** An entity whose name is empty or whitespace only is related to nothing. */
  lemma BlankNameUnrelated(a: Entity, b: Entity)
    requires IsBlank(a.name) || IsBlank(b.name)
    ensures !EntitiesAreRelated(a, b)
  {
    LowerKeepsSpaces(a.name);
    LowerKeepsSpaces(b.name);
    if IsBlank(a.name) {
      WordsOfBlank(Lower(a.name));
    } else {
      WordsOfBlank(Lower(b.name));
    }
  }

  /** An entity is related to itself exactly when its name has a word in it. */
  lemma RelatedToItself(a: Entity)
    ensures EntitiesAreRelated(a, a) <==> !IsBlank(a.name)
  {
    LowerKeepsSpaces(a.name);
    if IsBlank(a.name) {
      BlankNameUnrelated(a, a);
    } else {
      assert !IsBlank(Lower(a.name));
      WordsOfNonBlank(Lower(a.name));
      SharedWord(Lower(a.name), Lower(a.name), Words(Lower(a.name))[0]);
    }
  }
}
