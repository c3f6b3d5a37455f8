# Document Q&A retrieval, modelled in Dafny

This project models the retrieval rule of the docmanager service (`pro/main.py`).
Clients ingest text documents. Each document is stored with its embedding, keyed uniquely by id.
A question is then answered by nearest-neighbour retrieval. The service picks the candidates, refuses an empty candidate set, and scores every candidate against the question's embedding.
It then sorts the `(id, content, similarity)` list with Python's stable sort (`reverse=True`) and answers from its head.

Modules:

- `Outcomes` (`outcomes.dfy`): `Option` and `Result`.
- `DocStore` (`store.dfy`): the collection, kept as a sequence of `Record(id, content, embedding)` in insertion order with unique ids. It holds `Ingest` and key lookup.
- `Ranking` (`ranking.dfy`): the similarity list, the stable descending sort (`SortDescending`), and a reference "first maximum wins" selection (`FirstMaxIndex`, `IsFirstMax`). Lemmas connect the two.
- `Retrieval` (`retrieval.dfy`): candidate resolution (`Select`, `Candidates`), the 100-character excerpt, and `Ask`.

The embedding model and cosine similarity are foreign floating-point code. They are parameters and are never computed:
`embed: string -> Vector` and `sim: (Vector, Vector) -> real`.
A similarity is an opaque, totally ordered `real`.

Where the code and the repository's tests disagree, the model follows the code:

- `pro/test_main.py:75-76` expects a duplicate id to be answered with a 400 and "Document with id … already exists". The code imports `DuplicateKeyError` (`pro/main.py:8`) but never catches it, so a duplicate reaches the client as an unhandled server error. The model returns `Failure(DuplicateKey(id))` and keeps the store unchanged, which is what the unique `_id` index guarantees; the HTTP status is not modelled.
- `pro/test_main.py:126-150` exercise `/documents` endpoints and a `created_at` field. `pro/main.py` defines neither, so neither is modelled.
- `pro/test_main.py:113` expects the answer to equal the document's content. The code formats a string around the id, the score and `content[:100]` (`pro/main.py:109`). The model keeps the answer as a structured value: the winning id, its similarity, and `content[:100]`.

## Model

| member | source | states |
|---|---|---|
| DocStore.Ingest | pro/main.py:70-80 | A duplicate id is refused with `DuplicateKey(id)` exactly when the id is already stored. Otherwise the id now looks up `(id, content, embed(content))`, every other id looks up what it did before, the key set grows by that id, the old records stay a prefix, and unique keys stay unique |
| DocStore.LookupAppend | pro/main.py:74-78 | Appending a record never changes the answer for a key already stored; it only adds an answer for its own key |
| DocStore.UniqueCount | pro/main.py:74-78 | Under the unique index, a stored key is held by exactly one record and an absent key by none |
| DocStore.DuplicateIngestRejected | pro/main.py:74-78 | Ingesting the same id twice: the first ingest succeeds, the second is refused with `DuplicateKey`, and exactly one record holds the id |
| DocStore.UniqueCardinality | pro/main.py:74-78 | With unique keys, the collection holds as many records as distinct ids |
| Retrieval.Select | pro/main.py:91-92 | The `$in` query returns exactly the stored records whose id is in the list, and never more records than are stored |
| Retrieval.Candidates | pro/main.py:91-92 | A `None` or empty id list means every stored record. A non-empty list means exactly the stored records whose id it names |
| Retrieval.SelectConcat | pro/main.py:91-92 | In this model the `$in` result follows the order of the modelled collection (insertion order, a modelling choice): selecting from `a + b` is selecting from `a`, then from `b` |
| Retrieval.SelectKeepsUnique | pro/main.py:91-92 | The selection from a collection with unique ids has unique ids |
| Retrieval.SelectCount | pro/main.py:91-92 | Unknown ids are silently dropped: the number of selected records equals the number of distinct listed ids that are stored |
| Retrieval.SelectNone | pro/main.py:91-92 | If no listed id is stored, the selection is empty |
| Retrieval.UnknownIdsNotFound | pro/main.py:94-95 | Asking about ids none of which is stored fails with `NoDocumentsFound` |
| Retrieval.EmptyStoreNotFound | pro/main.py:91-95 | Asking an empty collection fails with `NoDocumentsFound`, with or without ids |
| Retrieval.Ask | pro/main.py:83-115 | Fails with `NoDocumentsFound` exactly when the candidate set is empty. Otherwise it reports some candidate `i`: its id, its similarity, and an answer quoting its excerpt. That similarity is at least every candidate's, and every earlier candidate scores strictly lower, so ties go to the first candidate |
| Retrieval.Excerpt | pro/main.py:109 | The quoted text is a prefix of the content: the whole content when it has at most 100 characters, otherwise exactly 100 characters |
| Retrieval.ScoreAll | pro/main.py:98-102 | The similarity list has one entry per candidate, in candidate order, carrying its id, its content and the similarity of the question embedding with its stored embedding |
| Ranking.Insert | pro/main.py:105 | Insertion adds exactly the new entry to the old entries, as a multiset |
| Ranking.InsertSorted | pro/main.py:105 | Inserting into a descending list keeps it descending |
| Ranking.SortDescending | pro/main.py:105 | The sort is a permutation of its input, of the same length, in descending score order |
| Ranking.InsertWithScore | pro/main.py:105 | An inserted entry lands ahead of every entry it ties with |
| Ranking.SortIsStable | pro/main.py:105 | Stability: for every score, the entries with that score keep their input order after sorting |
| Ranking.WithScoreFrom | pro/main.py:105-106 | The first entry with score `k` is the head of the entries with score `k` |
| Ranking.FirstMaxIndex | pro/main.py:105-106 | A reference selection: returns the index whose score is maximal and strictly above every earlier entry's |
| Ranking.FirstMaxUnique | pro/main.py:105-106 | The first maximum is unique, so the tie-break rule is deterministic |
| Ranking.SortHeadIsFirstMax | pro/main.py:105-106 | Element 0 of the stable descending sort is the first maximum of the unsorted list |
| Ranking.WinnerIndependentOfOrder | pro/main.py:105-106 | When no two candidates tie, any reordering of the candidates gives the same winner |

## Left out

- HTTP routing, the FastAPI status codes, pydantic request validation, the `/` listing and the `/select-documents` echo. These are plumbing with no retrieval logic.
- Retrieval.Select: the result order of `find` (`pro/main.py:92`), including `$in` queries, is modelled as insertion order. MongoDB promises no order for an unsorted `find`, and an `_id $in` query is usually answered from the `_id` index in ascending `_id` order. Because the candidate order decides ties between equal similarities, the model's winner among exact ties may differ from the deployed service's.
- The MongoDB client and its lifecycle (`get_db`, the global handles, startup and shutdown). The store is a pure in-memory sequence in insertion order, standing in for the collection's natural order.
- A storage-unavailable error. The in-memory store cannot fail.
- `SentenceTransformer.encode`, `cosine_similarity` and numpy. They are the parameters `embed` and `sim`. No cosine arithmetic, zero-vector case, dimension mismatch or NaN ordering is modelled; NaN would break the total order the sort relies on.
- The `:.2f` formatting and the literal text of the answer string, including its trailing `...`. The answer is the structured `Answer(basedOn, similarity, excerpt)`.
- The float32/float64 conversions around `float(similarity)`. Scores are exact reals.
- Concurrency: concurrent requests, and the atomicity of two racing inserts of one id. The model is sequential.
- The test file's Postgres fixture and its `/health` and `/documents` endpoints. They do not exist in `pro/main.py`.
