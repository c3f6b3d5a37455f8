/**
 The `/ask` endpoint: resolve the candidate documents, refuse an empty
 candidate set, score every candidate against the question's embedding,
 rank by a stable descending sort and answer from the head of the ranking.
 */
module Retrieval {
  import opened Outcomes
  import opened DocStore
  import opened Ranking

  /** The request body of `/ask`. */
  datatype Question = Question(question: string, documentIds: Option<seq<string>>)

  /** The only error `/ask` raises itself: HTTP 404 "No documents found". */
  datatype AskError = NoDocumentsFound

  /** The mock answer: which document it is based on, its similarity, and the quoted excerpt. */
  datatype Answer = Answer(basedOn: string, similarity: real, excerpt: string)

  /** The response body of `/ask`. */
  datatype Response = Response(answer: Answer, documentId: string, similarityScore: real)

  /** The number of characters of the winning content quoted in the answer. */
  const ExcerptLength: nat := 100

  /** A list of ids filters the collection only when present and non-empty (Python truthiness). */
  predicate Restricts(documentIds: Option<seq<string>>) {
    documentIds.Some? && |documentIds.value| > 0
  }

  /** The stored records whose key is one of `ids`, in collection order (an `$in` query). */
  function Select(store: Store, ids: seq<string>): (r: Store)
    ensures forall rec :: rec in r <==> rec in store && rec.id in ids
    ensures |r| <= |store|
  {
    if |store| == 0 then []
    else
      var rest := Select(store[1..], ids);
      assert forall rec :: rec in store <==> rec == store[0] || rec in store[1..];
      if store[0].id in ids then [store[0]] + rest else rest
  }

  /** The query run by `/ask`: every record, or only those named in a non-empty id list. */
  function Candidates(store: Store, documentIds: Option<seq<string>>): (r: Store)
    ensures !Restricts(documentIds) ==> r == store
    ensures Restricts(documentIds) ==> forall rec :: rec in r <==> rec in store && rec.id in documentIds.value
  {
    if Restricts(documentIds) then Select(store, documentIds.value) else store
  }

  /** The first `ExcerptLength` characters of `content`, as the slice `content[:100]`. */
  function Excerpt(content: string): (r: string)
    ensures r <= content
    ensures |r| <= ExcerptLength
    ensures |content| <= ExcerptLength ==> r == content
    ensures |content| > ExcerptLength ==> |r| == ExcerptLength
  {
    if |content| <= ExcerptLength then content else content[..ExcerptLength]
  }

  /** The similarity list: one `(id, content, similarity)` entry per candidate, in candidate order. */
  function ScoreAll(c: Store, qv: Vector, sim: (Vector, Vector) -> real): (r: seq<Scored>)
    ensures |r| == |c|
    ensures forall i :: 0 <= i < |c| ==> r[i] == Scored(c[i].id, c[i].content, sim(qv, c[i].embedding))
  {
    seq(|c|, i requires 0 <= i < |c| => Scored(c[i].id, c[i].content, sim(qv, c[i].embedding)))
  }

  /**
   Answers `q` from `store`. `embed` stands for the sentence model and `sim`
   for cosine similarity; neither is computed here.
   */
  function Ask(store: Store, q: Question, embed: string -> Vector, sim: (Vector, Vector) -> real): (r: Result<Response, AskError>)
    ensures r.Failure? <==> |Candidates(store, q.documentIds)| == 0
    ensures r.Failure? ==> r.error == NoDocumentsFound
    ensures r.Success? ==>
      var c := Candidates(store, q.documentIds);
      var qv := embed(q.question);
      exists i :: 0 <= i < |c|
        && r.value.documentId == c[i].id
        && r.value.similarityScore == sim(qv, c[i].embedding)
        && r.value.answer == Answer(c[i].id, sim(qv, c[i].embedding), Excerpt(c[i].content))
        && (forall j :: 0 <= j < |c| ==> sim(qv, c[j].embedding) <= sim(qv, c[i].embedding))
        && (forall j :: 0 <= j < i ==> sim(qv, c[j].embedding) < sim(qv, c[i].embedding))
  {
    var c := Candidates(store, q.documentIds);
    if |c| == 0 then Failure(NoDocumentsFound)
    else
      var qv := embed(q.question);
      var scored := ScoreAll(c, qv, sim);
      var ranked := SortDescending(scored);
      var top := ranked[0];
      var i := FirstMaxIndex(scored);
      SortHeadIsFirstMax(scored, i);
      assert top == scored[i];
      Success(Response(Answer(top.id, top.score, Excerpt(top.content)), top.id, top.score))
  }

  /** Prepending a record whose key is fresh keeps keys unique. */
  lemma UniqueCons(h: Record, t: Store)
    requires UniqueIds(t)
    requires h.id !in Ids(t)
    ensures UniqueIds([h] + t)
  {
    var r := [h] + t;
    forall i, j | 0 <= i < j < |r|
      ensures r[i].id != r[j].id
    {
      assert r[j] == t[j - 1];
      assert r[j] in t;
    }
  }

  /** `$in` keeps the collection order: selecting from a concatenation selects from each part. */
  lemma {:induction false} SelectConcat(a: Store, b: Store, ids: seq<string>)
    ensures Select(a + b, ids) == Select(a, ids) + Select(b, ids)
  {
    if |a| == 0 {
      assert a + b == b;
    } else {
      var head := if a[0].id in ids then [a[0]] else [];
      calc {
        Select(a + b, ids);
        { assert a + b == [a[0]] + (a[1..] + b); }
        Select([a[0]] + (a[1..] + b), ids);
        { SelectCons(a[0], a[1..] + b, ids); }
        head + Select(a[1..] + b, ids);
        { SelectConcat(a[1..], b, ids); }
        head + (Select(a[1..], ids) + Select(b, ids));
        (head + Select(a[1..], ids)) + Select(b, ids);
        { SelectCons(a[0], a[1..], ids); assert [a[0]] + a[1..] == a; }
        Select(a, ids) + Select(b, ids);
      }
    }
  }

  /** One step of the `$in` query: the first record is kept exactly when its id is listed. */
  lemma SelectCons(x: Record, s: Store, ids: seq<string>)
    ensures Select([x] + s, ids) == (if x.id in ids then [x] else []) + Select(s, ids)
  {
    assert ([x] + s)[0] == x;
    assert ([x] + s)[1..] == s;
  }

  /** Selecting from a collection with unique keys yields unique keys. */
  lemma {:induction false} SelectKeepsUnique(store: Store, ids: seq<string>)
    requires UniqueIds(store)
    ensures UniqueIds(Select(store, ids))
  {
    if |store| > 0 {
      assert UniqueIds(store[1..]);
      SelectKeepsUnique(store[1..], ids);
      if store[0].id in ids {
        HeadKeyFresh(store);
        var rest := Select(store[1..], ids);
        assert forall rec :: rec in rest ==> rec in store[1..];
        UniqueCons(store[0], rest);
      }
    }
  }

  /** A selection none of whose ids is stored is empty. */
  lemma {:induction false} SelectNone(store: Store, ids: seq<string>)
    requires forall id :: id in ids ==> id !in Ids(store)
    ensures Select(store, ids) == []
  {
    if |store| > 0 {
      assert store[0] in store;
      assert forall rec :: rec in store[1..] ==> rec in store;
      SelectNone(store[1..], ids);
    }
  }

  /**
   Unknown ids are dropped silently: with unique keys, the selection holds
   exactly one record per listed id that is stored.
   */
  lemma SelectCount(store: Store, ids: seq<string>)
    requires UniqueIds(store)
    ensures |Select(store, ids)| == |set id | id in ids && id in Ids(store)|
  {
    var r := Select(store, ids);
    SelectKeepsUnique(store, ids);
    UniqueCardinality(r);
    assert Ids(r) == set id | id in ids && id in Ids(store);
  }

  /** Asking about ids none of which is stored fails with "No documents found". */
  lemma UnknownIdsNotFound(store: Store, q: Question, embed: string -> Vector, sim: (Vector, Vector) -> real)
    requires Restricts(q.documentIds)
    requires forall id :: id in q.documentIds.value ==> id !in Ids(store)
    ensures Ask(store, q, embed, sim) == Failure(NoDocumentsFound)
  {
    SelectNone(store, q.documentIds.value);
  }

  /** Asking an empty collection fails, whatever ids are given. */
  lemma EmptyStoreNotFound(q: Question, embed: string -> Vector, sim: (Vector, Vector) -> real)
    ensures Ask([], q, embed, sim) == Failure(NoDocumentsFound)
  {
  }

  /**
   The whole ranking agrees with the selection rule: the winner reported by
   `Ask` is the head of the stable descending ranking of the candidates,
   which is a permutation of the similarity list.
   */
  lemma AskIsHeadOfRanking(store: Store, q: Question, embed: string -> Vector, sim: (Vector, Vector) -> real)
    requires |Candidates(store, q.documentIds)| > 0
    ensures
      var ranked := SortDescending(ScoreAll(Candidates(store, q.documentIds), embed(q.question), sim));
      var r := Ask(store, q, embed, sim);
      && r.Success?
      && |ranked| > 0
      && r.value.documentId == ranked[0].id
      && r.value.similarityScore == ranked[0].score
      && SortedDescending(ranked)
      && multiset(ranked) == multiset(ScoreAll(Candidates(store, q.documentIds), embed(q.question), sim))
  {
  }
}
