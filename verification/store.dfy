/**
 The document collection behind the `/ingest` endpoint: records keyed
 uniquely by `_id`, each holding the content and its embedding, kept in
 insertion order (the collection's natural order).
 */
module DocStore {
  import opened Outcomes

  /** An embedding produced by the external sentence model; only passed around. */
  type Vector = seq<real>

  /** A stored record: the `_id`, `content` and `embedding` fields. */
  datatype Record = Record(id: string, content: string, embedding: Vector)

  /** The collection, in insertion order. */
  type Store = seq<Record>

  /** The request body of `/ingest`. */
  datatype Document = Document(id: string, content: string)

  /** The unique index on `_id` refuses a second record with the same key. */
  datatype IngestError = DuplicateKey(id: string)

  /** The unique-key invariant of the collection. */
  predicate UniqueIds(s: Store) {
    forall i, j :: 0 <= i < j < |s| ==> s[i].id != s[j].id
  }

  /** The keys present in the collection. */
  function Ids(s: Store): set<string> {
    set r | r in s :: r.id
  }

  /** The first record stored under `id`, if any. */
  function Lookup(s: Store, id: string): (r: Option<Record>)
    ensures r.Some? <==> id in Ids(s)
    ensures r.Some? ==> r.value in s && r.value.id == id
  {
    if |s| == 0 then None
    else if s[0].id == id then Some(s[0])
    else
      assert forall x :: x in s[1..] ==> x in s;
      assert id in Ids(s) ==> id in Ids(s[1..]);
      Lookup(s[1..], id)
  }

  /** How many records carry the key `id`. */
  function Count(s: Store, id: string): nat {
    if |s| == 0 then 0
    else (if s[0].id == id then 1 else 0) + Count(s[1..], id)
  }

  /**
   Inserts `(doc.id, doc.content, embed(doc.content))` unless the key is
   taken. The embedding is computed from the content before the insert is
   attempted, as the endpoint does.
   */
  function Ingest(store: Store, doc: Document, embed: string -> Vector): (r: Result<Store, IngestError>)
    ensures r.Failure? <==> doc.id in Ids(store)
    ensures r.Failure? ==> r.error == DuplicateKey(doc.id)
    ensures r.Success? ==> Lookup(r.value, doc.id) == Some(Record(doc.id, doc.content, embed(doc.content)))
    ensures r.Success? ==> forall id :: id != doc.id ==> Lookup(r.value, id) == Lookup(store, id)
    ensures r.Success? ==> Ids(r.value) == Ids(store) + {doc.id}
    ensures r.Success? ==> |r.value| == |store| + 1 && store <= r.value
    ensures r.Success? && UniqueIds(store) ==> UniqueIds(r.value)
  {
    var rec := Record(doc.id, doc.content, embed(doc.content));
    if doc.id in Ids(store) then Failure(DuplicateKey(doc.id))
    else
      LookupAppend(store, rec);
      assert Ids(store + [rec]) == Ids(store) + {doc.id} by {
        assert forall x :: x in store + [rec] <==> x in store || x == rec;
      }
      Success(store + [rec])
  }

  /** Appending a record never hides an earlier one; it only answers for a new key. */
  lemma {:induction false} LookupAppend(s: Store, x: Record)
    ensures forall id :: (Lookup(s + [x], id) ==
      if id in Ids(s) then Lookup(s, id) else if x.id == id then Some(x) else None)
  {
    if |s| == 0 {
      assert s + [x] == [x];
    } else {
      LookupAppend(s[1..], x);
      assert (s + [x])[1..] == s[1..] + [x];
      assert forall y :: y in s <==> y == s[0] || y in s[1..];
      assert Ids(s) == {s[0].id} + Ids(s[1..]);
    }
  }

  /** With unique keys, the first record's key occurs nowhere in the rest. */
  lemma HeadKeyFresh(s: Store)
    requires UniqueIds(s) && |s| > 0
    ensures s[0].id !in Ids(s[1..])
  {
    forall y | y in s[1..]
      ensures y.id != s[0].id
    {
      var k :| 0 <= k < |s| - 1 && s[1..][k] == y;
      assert s[k + 1] == y;
    }
  }

  /** In a collection with unique keys, every present key is held by exactly one record. */
  lemma {:induction false} UniqueCount(s: Store, id: string)
    requires UniqueIds(s)
    ensures Count(s, id) == (if id in Ids(s) then 1 else 0)
  {
    if |s| > 0 {
      assert UniqueIds(s[1..]);
      UniqueCount(s[1..], id);
      assert forall y :: y in s <==> y == s[0] || y in s[1..];
      HeadKeyFresh(s);
    }
  }

  /** With unique keys, there are as many records as distinct keys. */
  lemma {:induction false} UniqueCardinality(s: Store)
    requires UniqueIds(s)
    ensures |Ids(s)| == |s|
  {
    if |s| > 0 {
      assert UniqueIds(s[1..]);
      UniqueCardinality(s[1..]);
      assert forall y :: y in s <==> y == s[0] || y in s[1..];
      assert Ids(s) == {s[0].id} + Ids(s[1..]);
      HeadKeyFresh(s);
    }
  }

  /**
   Ingesting the same key twice: the first insert succeeds, the second is
   refused by the unique key, and exactly one record holds that key.
   */
  lemma DuplicateIngestRejected(store: Store, doc: Document, again: Document, embed: string -> Vector)
    requires UniqueIds(store)
    requires doc.id !in Ids(store)
    requires again.id == doc.id
    ensures Ingest(store, doc, embed).Success?
    ensures Ingest(Ingest(store, doc, embed).value, again, embed) == Failure(DuplicateKey(doc.id))
    ensures Count(Ingest(store, doc, embed).value, doc.id) == 1
  {
    var s' := Ingest(store, doc, embed).value;
    UniqueCount(s', doc.id);
  }
}
