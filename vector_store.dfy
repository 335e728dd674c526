/** The fragment store of `vector_store.py`: text is cut into 200-character
    fragments, their embeddings go into a flat index and the fragments into the
    parallel `documents` list, and a top-k query maps the index's ids back to
    fragments. */
module VectorStore {
  import opened PyBuiltins
  import opened Faiss

  /** Fragment width, in code points. */
  const ChunkSize := 200

  /** The default `k` of `search`. */
  const DefaultK := 3

  /** `[text[i:i + 200] for i in range(0, len(text), 200)]`. */
  function Chunks(text: string): seq<string> {
    var starts := Range(0, |text|, ChunkSize);
    seq(|starts|, j requires 0 <= j < |starts| => Slice(text, starts[j], starts[j] + ChunkSize))
  }

  /** Fragment j is the window of `text` starting at 200 * j, cut short by the
      end of the text. */
  lemma ChunkAt(text: string, j: nat)
    requires j < |Chunks(text)|
    ensures ChunkSize * j < |text|
    ensures Chunks(text)[j] == text[ChunkSize * j..Min(ChunkSize * j + ChunkSize, |text|)]
  {
    RangeShape(0, |text|, ChunkSize);
  }

  /** There are ceil(len(text) / 200) fragments; none for empty text. */
  lemma ChunkCount(text: string)
    ensures |Chunks(text)| == (|text| + ChunkSize - 1) / ChunkSize
    ensures |Chunks(text)| == 0 <==> text == []
  {
    RangeShape(0, |text|, ChunkSize);
  }

  /** Every fragment but the last is exactly 200 long; the last is 1 to 200
      long, namely len(text) % 200 unless that is 0. */
  lemma ChunkLengths(text: string)
    ensures forall j :: 0 <= j < |Chunks(text)| - 1 ==> |Chunks(text)[j]| == ChunkSize
    ensures text != [] ==>
      var last := Chunks(text)[|Chunks(text)| - 1];
      && 1 <= |last| <= ChunkSize
      && |last| == (if |text| % ChunkSize == 0 then ChunkSize else |text| % ChunkSize)
  {
    ChunkCount(text);
    var n := |Chunks(text)|;
    forall j | 0 <= j < n - 1
      ensures |Chunks(text)[j]| == ChunkSize
    {
      ChunkAt(text, j);
    }
    if text != [] {
      ChunkAt(text, n - 1);
    }
  }

  /** Past the first window, the fragments are those of the rest of the text. */
  lemma ChunksSplit(text: string)
    requires |text| > ChunkSize
    ensures Chunks(text) == [text[..ChunkSize]] + Chunks(text[ChunkSize..])
  {
    var c, d := Chunks(text), Chunks(text[ChunkSize..]);
    ChunkCount(text);
    ChunkCount(text[ChunkSize..]);
    assert |c| == |d| + 1;
    ChunkAt(text, 0);
    forall j | 0 <= j < |d|
      ensures c[j + 1] == d[j]
    {
      ChunkAt(text, j + 1);
      ChunkAt(text[ChunkSize..], j);
    }
    assert c == [c[0]] + d;
  }

  /** Concatenating the fragments gives back the text exactly. */
  lemma {:induction false} ChunksConcat(text: string)
    ensures Concat(Chunks(text)) == text
    decreases |text|
  {
    ChunkCount(text);
    if |text| > ChunkSize {
      ChunksSplit(text);
      ChunksConcat(text[ChunkSize..]);
      assert Chunks(text)[1..] == Chunks(text[ChunkSize..]);
      assert text == text[..ChunkSize] + text[ChunkSize..];
    } else if text != [] {
      ChunkAt(text, 0);
      assert text[0..|text|] == text;
      assert Chunks(text) == [text];
    }
  }

  /** The worked example: 250 copies of 'A' make one full fragment and one of
      length 50. */
  lemma TwoHundredFiftyAs()
    ensures Chunks(seq(250, _ => 'A')) == [seq(200, _ => 'A'), seq(50, _ => 'A')]
  {
    var text := seq(250, _ => 'A');
    ChunkCount(text);
    ChunkAt(text, 0);
    ChunkAt(text, 1);
    assert Chunks(text)[0] == seq(200, _ => 'A');
    assert Chunks(text)[1] == seq(50, _ => 'A');
  }

  /** `model.encode(chunks)`: one embedding per fragment, in order. */
  function Encode(embed: string -> Vector, xs: seq<string>): seq<Vector> {
    seq(|xs|, j requires 0 <= j < |xs| => embed(xs[j]))
  }

  /** Encoding two batches one after the other gives the vectors of the
      concatenated batch: appending fragments and appending their embeddings
      keep position i of each in step. */
  lemma EncodeAppend(embed: string -> Vector, xs: seq<string>, ys: seq<string>)
    ensures Encode(embed, xs + ys) == Encode(embed, xs) + Encode(embed, ys)
  {
  }

  /** The fragments the loop of `search` collects from `ids`, in order:
      `documents[i]` for every id `i` below `len(documents)`. */
  function Lookup(docs: seq<string>, ids: seq<nat>): (r: seq<string>)
    ensures |r| <= |ids|
    ensures forall x :: x in r ==> x in docs
  {
    if ids == [] then []
    else
      var last := ids[|ids| - 1];
      Lookup(docs, ids[..|ids| - 1]) + (if last < |docs| then [docs[last]] else [])
  }

  /** When every id is in range nothing is dropped: result j is the fragment
      of id j. */
  lemma {:induction false} LookupInRange(docs: seq<string>, ids: seq<nat>)
    requires forall j :: 0 <= j < |ids| ==> ids[j] < |docs|
    ensures |Lookup(docs, ids)| == |ids|
    ensures forall j :: 0 <= j < |ids| ==> Lookup(docs, ids)[j] == docs[ids[j]]
  {
    if ids != [] {
      LookupInRange(docs, ids[..|ids| - 1]);
    }
  }

  /** The store: `documents` and the index, kept in step. */
  class Store {
    /** Fragments in insertion order; position is the fragment's id. */
    var documents: seq<string>
    const index: FlatIndex
    /** The embedding model: a fixed, deterministic map from text to vector. */
    const embed: string -> Vector

    /** Vector i of the index is the embedding of fragment i, so there is
        one per fragment; and the index keeps its promise. */
    ghost predicate Valid()
      reads this, index
    {
      index.Valid() && index.vectors == Encode(embed, documents)
    }

    /** Both start empty. */
    constructor (embed: string -> Vector, nearest: Ranker)
      requires IsFlatSearch(nearest)
      ensures Valid() && fresh(index)
      ensures documents == [] && index.vectors == []
      ensures this.embed == embed && index.nearest == nearest
    {
      this.embed := embed;
      index := new FlatIndex(nearest);
      documents := [];
    }

    /** `add_text`: fragments are appended to `documents`, their embeddings to
        the index, in order; empty text touches neither. */
    method AddText(text: string)
      requires Valid()
      modifies this, index
      ensures Valid()
      ensures documents == old(documents) + Chunks(text)
      ensures index.vectors == old(index.vectors) + Encode(embed, Chunks(text))
      ensures text == [] ==> unchanged(this, index)
    {
      var chunks := Chunks(text);
      if |chunks| == 0 {
        ChunkCount(text);
        return;
      }
      var embeddings := Encode(embed, chunks);
      EncodeAppend(embed, documents, chunks);
      index.Add(embeddings);
      documents := documents + chunks;
    }

    /** The ids the index answers a query with: `min(k, len(documents))` of
        them. */
    function Hits(query: string, k: int): seq<nat>
      reads this, index
      requires |documents| > 0 && k > 0
    {
      index.nearest(index.vectors, embed(query), Min(k, |documents|))
    }

    /** What `search(query, k)` returns. */
    function Retrieve(query: string, k: int): seq<string>
      reads this, index
      requires |documents| > 0 ==> k > 0
    {
      if |documents| == 0 then [] else Lookup(documents, Hits(query, k))
    }

    /** `search`: nothing on an empty store; otherwise the fragments of the
        `min(k, len(documents))` ids the index returns, in the index's order. */
    method Search(query: string, k: int) returns (results: seq<string>)
      requires Valid()
      requires |documents| > 0 ==> k > 0
      ensures results == Retrieve(query, k)
      ensures |documents| == 0 ==> results == []
      ensures |documents| > 0 ==>
        && |results| == Min(k, |documents|)
        && forall j :: 0 <= j < |results| ==> results[j] == documents[Hits(query, k)[j]]
      ensures forall x :: x in results ==> x in documents
    {
      if |documents| == 0 {
        return [];
      }
      var ids := index.Search(embed(query), Min(k, |documents|));
      results := [];
      for i := 0 to |ids|
        invariant results == Lookup(documents, ids[..i])
      {
        // Ids are non-negative by their type, so none indexes from the end.
        // The index only returns ids below its size, which is len(documents),
        // so this filter never drops one.
        var id := ids[i];
        if id < |documents| {
          results := results + [documents[id]];
        }
        assert ids[..i + 1][..i] == ids[..i];
      }
      assert ids[..|ids|] == ids;
      LookupInRange(documents, ids);
    }
  }
}
