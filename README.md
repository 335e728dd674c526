# Retrieval core of local-chatpdf, in Dafny

This project models the retrieval core of a small question-answering backend
over uploaded PDFs, and proves what it promises.

- **The fragment store** (`vector_store.py`). Extracted text is cut into
  consecutive 200-code-point fragments. Their embeddings are appended to a flat
  L2 index, and the fragments are appended to the parallel `documents` list.
  A top-k query clamps `k` to the store size, asks the index for that many ids,
  and maps each id back to its fragment.
- **The two handlers in front of it** (`app.py`). `upload` refuses text that
  is empty or whose stripped length is under 50. `ask` gives a fixed answer
  when nothing is found. Otherwise it joins at most the first three fragments
  with newlines into the context for the generator.

Files:

- `pybuiltins.dfy` (module `PyBuiltins`): the Python built-ins the code uses.
  These are `range`, slicing, `str.isspace`, `str.strip()` and `str.join`.
- `faiss.dfy` (module `Faiss`): the flat index, seen only through `add` and
  `search`.
- `vector_store.dfy` (module `VectorStore`): the chunking, the id-to-fragment
  mapping and the `Store` class, which holds `documents` and the index.
- `app.dfy` (module `App`): the admission test, the context, `Upload` and `Ask`.

The `Store` class stands for the module-level globals `index` and `documents`.
Its invariant `Valid()` says two things:

- Vector i of the index is the embedding of fragment i of `documents`, so
  there are as many vectors as fragments.
- The index keeps its search promise.

`AddText` preserves the invariant, and `Upload` and `Ask` rely on it. The
embedding model is the store's constant `embed: string -> Vector`. It is
deterministic because it is a function. The index's ranking is the constant
oracle `nearest`. Only one thing about it is assumed (`Faiss.IsFlatSearch`):
for `n <= ntotal` it returns exactly `n` ids, each below `ntotal`. Ids are
`nat`, so a negative id never occurs. Under that promise, the filter
`i < len(documents)` in `search` is proved never to drop an id: the result
has exactly `min(k, len(documents))` fragments.

Two behaviours of the code are kept as written:

- `upload` replies with a status, plus a message on rejection, not the number
  of fragments added.
- `search` keeps the silent filter on out-of-range ids rather than failing an
  assertion. The model proves that the filter never fires.

## Model

| member | source | states |
|---|---|---|
| `PyBuiltins.Range` | chatpdf-ollama/backend/vector_store.py:9 | every element of `range(start, stop, step)` lies in `[start, stop)` |
| `PyBuiltins.RangeShape` | chatpdf-ollama/backend/vector_store.py:9 | element j of the range is `start + j*step`, and there are ceil((stop-start)/step) of them |
| `PyBuiltins.Slice` | chatpdf-ollama/backend/vector_store.py:9 | Python's index-wise slice: `s[lo:hi]` has length `min(hi, len(s)) - lo` when that is positive and 0 otherwise, and its character i is `s[lo + i]` |
| `PyBuiltins.LeadingSpace` | chatpdf-ollama/backend/app.py:51 | counts exactly the whitespace prefix: all of it is whitespace and the next code point is not |
| `PyBuiltins.TrailingSpace` | chatpdf-ollama/backend/app.py:51 | counts exactly the whitespace suffix: all of it is whitespace and the code point before it is not |
| `PyBuiltins.Strip` | chatpdf-ollama/backend/app.py:51 | `text.strip()` is the infix between leading and trailing whitespace; it is empty iff the text is all whitespace, and otherwise starts and ends with non-whitespace; it is never longer than the text |
| `PyBuiltins.StripIdempotent` | chatpdf-ollama/backend/app.py:51 | stripping twice equals stripping once |
| `PyBuiltins.JoinLength` | chatpdf-ollama/backend/app.py:74 | `sep.join(xs)` ends right after its last item |
| `PyBuiltins.JoinItem` | chatpdf-ollama/backend/app.py:74 | item j of `xs` occurs in `sep.join(xs)` at the offset after the earlier items and their separators |
| `PyBuiltins.JoinSeparator` | chatpdf-ollama/backend/app.py:74 | exactly `sep` stands between consecutive items of `sep.join(xs)` |
| `VectorStore.ChunkAt` | chatpdf-ollama/backend/vector_store.py:9 | fragment j is `text[200*j : 200*j+200]`, clamped to the end of the text |
| `VectorStore.ChunkCount` | chatpdf-ollama/backend/vector_store.py:9-11 | there are ceil(len(text)/200) fragments, and none exactly when the text is empty |
| `VectorStore.ChunkLengths` | chatpdf-ollama/backend/vector_store.py:9 | every fragment but the last has length 200; the last has length 1 to 200, namely `len(text) % 200` unless that is 0 |
| `VectorStore.ChunksSplit` | chatpdf-ollama/backend/vector_store.py:9 | the fragments of a text longer than 200 are its first 200 code points followed by the fragments of the rest |
| `VectorStore.ChunksConcat` | chatpdf-ollama/backend/vector_store.py:9 | concatenating the fragments gives back the text exactly |
| `VectorStore.TwoHundredFiftyAs` | chatpdf-ollama/backend/vector_store.py:9 | 250 copies of 'A' make exactly two fragments, 200 'A's and 50 'A's |
| `VectorStore.EncodeAppend` | chatpdf-ollama/backend/vector_store.py:13-15 | encoding a batch after earlier fragments gives the earlier vectors followed by the batch's, so extending `documents` and adding to the index keeps vector i the embedding of fragment i |
| `VectorStore.Lookup` | chatpdf-ollama/backend/vector_store.py:25-30 | the collected results never outnumber the ids, and each one is an element of `documents` |
| `VectorStore.LookupInRange` | chatpdf-ollama/backend/vector_store.py:25-30 | when every id is below `len(documents)`, nothing is dropped: result j is `documents[ids[j]]` |
| `VectorStore.Store.constructor` | chatpdf-ollama/backend/vector_store.py:3-5 | the store starts with no documents and an empty index, and satisfies the invariant |
| `VectorStore.Store.AddText` | chatpdf-ollama/backend/vector_store.py:8-15 | the fragments are appended to `documents` and their embeddings to the index, in order, with earlier entries unchanged; the invariant that vector i is the embedding of fragment i (so `len(documents) == ntotal`) is preserved; empty text changes nothing |
| `VectorStore.Store.Search` | chatpdf-ollama/backend/vector_store.py:18-30 | an empty store gives `[]`; otherwise the result has exactly `min(k, len(documents))` fragments, and fragment j is `documents[id j]` in the index's order; every result is in `documents`; nothing is modified |
| `Faiss.FlatIndex.constructor` | chatpdf-ollama/backend/vector_store.py:4 | a new index is empty and keeps the search promise |
| `Faiss.FlatIndex.Add` | chatpdf-ollama/backend/vector_store.py:14 | appends the batch; vector j of the batch gets id `old ntotal + j` |
| `Faiss.FlatIndex.Search` | chatpdf-ollama/backend/vector_store.py:23 | for `n <= ntotal`, returns exactly `n` ids, each below `ntotal` |
| `App.BlankRejected` | chatpdf-ollama/backend/app.py:51-55 | text that is all whitespace, including the empty text, is rejected |
| `App.AdmittedMakesFragments` | chatpdf-ollama/backend/app.py:51-58 | admitted text has length at least 50 and so makes at least one fragment |
| `App.ContextLayout` | chatpdf-ollama/backend/app.py:74 | the context holds the first min(3, len(chunks)) fragments in order, separated by `"\n"` and ending with the last of them |
| `App.Upload` | chatpdf-ollama/backend/app.py:49-60 | the reply is the error iff the text is empty or strips to under 50 code points; a rejected upload changes neither `documents` nor the index; an admitted upload adds the fragments of the whole text once, adds at least one fragment, and those fragments concatenate back to the text |
| `App.Ask` | chatpdf-ollama/backend/app.py:67-74 | the fixed "No relevant information found in the document." answer is given exactly when the store is empty; otherwise the context is the newline join of the fragments found with k = 3, which are 1 to 3 fragments, so `[:3]` keeps them all |

## Left out

- FastAPI routing, static file mounting, `home()` and writing the uploaded PDF to disk are I/O. They are not modelled.
- `load_pdf` text extraction comes from `pdf_utils`, which is not part of this model. Its output is the `text` parameter of `App.Upload`.
- The call to the generation server is not modelled: the HTTP request, status-code handling, JSON decoding and the exception branches are a network client. `App.Ask` returns `Generate(context, question)`, which stands for that request.
- The prompt template text is presentation only and is not modelled.
- The sentence-transformer model is foreign code with float outputs. It is the store's constant function `embed`.
- The index's L2 ranking over floats is foreign code. It is the oracle `nearest`, and only its count and id-range promise is assumed.
- Faiss.FlatIndex.Search: requires `n <= ntotal`. Beyond that, the real index pads with -1, but `search` never asks for more than `len(documents)`.
- VectorStore.Store.Search: requires `k > 0` on a non-empty store. The foreign index refuses a non-positive `k`, and the only caller passes 3.
- The index dimension (384) is not modelled. Vectors are `seq<real>` of any length.
- VectorStore.Store.AddText: the code neither catches nor raises its own error when embedding fails or a vector has the wrong dimension; the library's exception propagates out of `add_text` (and out of `upload`) before `documents` changes. `AddText` leaves that path out and always succeeds.
- Floating point is not modelled: vectors hold reals.
- Strings are sequences of Unicode scalar values. Lone surrogates, which a Python `str` can hold, cannot be represented.
- Concurrent access to the shared store from async handlers is not modelled. The store is a single-threaded object.
