/**
 * `_get_node_embedding` and the cosine similarity the detectors compute from two
 * embeddings. The sentence-embedding model is outside the model: `cos` stands for
 * "encode both texts, then take the cosine of the two vectors".
 */
module Embedding {
  import opened Wrappers
  import opened Text
  import opened GraphView

  /** Cosine similarity of the embeddings of two texts (an external model). */
  type Cosine = (string, string) -> real

  /** The text that is embedded: `f"{name} {description}"`, an absent description read as "". */
  function EmbeddingText(a: Attrs): string {
    a.name + " " + Description(a)
  }

  /** `_get_node_embedding` returns a vector, not `None`: the text is not blank once stripped. */
  predicate HasEmbedding(a: Attrs) {
    !IsBlank(EmbeddingText(a))
  }

  /** The cosine of two nodes' embeddings, or `None` when either embedding is `None`. */
  function Similarity(cos: Cosine, a: Attrs, b: Attrs): (r: Option<real>)
    ensures r.Some? <==> HasEmbedding(a) && HasEmbedding(b)
  {
    if HasEmbedding(a) && HasEmbedding(b) then Some(cos(EmbeddingText(a), EmbeddingText(b))) else None
  }

  /** A node has an embedding exactly when its name or its description has a non-space character. */
  lemma EmbeddingDefined(a: Attrs)
    ensures HasEmbedding(a) <==> !IsBlank(a.name) || !IsBlank(Description(a))
  {
    var t := EmbeddingText(a);
    var n := |a.name|;
    assert forall i :: 0 <= i < n ==> t[i] == a.name[i];
    assert t[n] == ' ';
    assert forall i :: 0 <= i < |Description(a)| ==> t[n + 1 + i] == Description(a)[i];
    if IsBlank(a.name) && IsBlank(Description(a)) {
      forall i | 0 <= i < |t| ensures IsSpace(t[i]) {
        if i > n {
          assert t[i] == Description(a)[i - n - 1];
        }
      }
    }
  }
}
