/** The flat L2 index the store keeps its embeddings in, seen only through its
    boundary: `add` appends a batch of vectors, `search` answers a query with
    ids of stored vectors. How the ids are ranked (brute-force Euclidean
    distance over floats) is foreign code; it is the `nearest` oracle, of which
    only its size and range promise is assumed. */
module Faiss {

  /** An embedding: one real per dimension. */
  type Vector = seq<real>

  /** `nearest(vectors, query, n)`: the ids the index answers with. */
  type Ranker = (seq<Vector>, Vector, nat) -> seq<nat>

  /** An answer of `n` ids, each naming one of `size` stored vectors. */
  predicate IsAnswer(ids: seq<nat>, size: nat, n: nat) {
    |ids| == n && forall j :: 0 <= j < |ids| ==> ids[j] < size
  }

  /** What a flat index promises for a query of at most `ntotal` neighbours:
      exactly that many ids, all in range (it only pads with -1 beyond that). */
  ghost predicate IsFlatSearch(nearest: Ranker) {
    forall vs: seq<Vector>, q: Vector, n: nat :: n <= |vs| ==> IsAnswer(nearest(vs, q, n), |vs|, n)
  }

  class FlatIndex {
    /** The stored vectors; position is the id. */
    var vectors: seq<Vector>
    const nearest: Ranker

    ghost predicate Valid() {
      IsFlatSearch(nearest)
    }

    constructor (nearest: Ranker)
      requires IsFlatSearch(nearest)
      ensures Valid() && vectors == [] && this.nearest == nearest
    {
      vectors := [];
      this.nearest := nearest;
    }

    /** `index.add(batch)`: append-only, the new vectors get ids
        `old ntotal + offset in the batch`. */
    method Add(batch: seq<Vector>)
      modifies this
      ensures vectors == old(vectors) + batch
    {
      vectors := vectors + batch;
    }

    /** `index.search(query, n)` for `n <= ntotal`. */
    method Search(query: Vector, n: nat) returns (ids: seq<nat>)
      requires Valid() && n <= |vectors|
      ensures IsAnswer(ids, |vectors|, n)
      ensures ids == nearest(vectors, query, n)
    {
      ids := nearest(vectors, query, n);
    }
  }
}
