/** Indexing a document: chunk it, embed the chunks batch by batch, write all records at once.
    The embedding provider is an oracle whose replies are given batch by batch. */
module Indexing {
  import opened Evidence
  import InsertionOrder
  import Text
  import Chunking
  import VectorStore

  type Vector = seq<VectorStore.Value>

  /** One reply of the provider: an exception or a list of vectors. */
  type Reply = Option<seq<Vector>>

  datatype Outcome = Refused | Indexed(chunkCount: nat)

  function BatchLength(n: nat, size: nat, start: nat): nat
    requires start <= n
  {
    if start + size < n then size else n - start
  }

  /** The reply for a batch has one vector of the right length per text. */
  predicate GoodReply(replies: seq<Reply>, batch: nat, length: nat, dimensions: nat) {
    && batch < |replies| && replies[batch].Some?
    && |replies[batch].value| == length
    && forall j :: 0 <= j < length ==> |replies[batch].value[j]| == dimensions
  }

  /** Batch `b`, which starts at text `b * size`, was answered well. */
  predicate GoodBatch(replies: seq<Reply>, n: nat, size: nat, dimensions: nat, b: nat) {
    Product(b, size) < n && GoodReply(replies, b, BatchLength(n, size, Product(b, size)), dimensions)
  }

  function Product(a: nat, b: nat): nat {
    Monotone(0, a, b);
    a * b
  }

  ghost predicate AllGood(replies: seq<Reply>, n: nat, size: nat, dimensions: nat) {
    forall b: nat :: Product(b, size) < n ==> GoodBatch(replies, n, size, dimensions, b)
  }

  /** All replies are good exactly if every batch, starting at a multiple of the batch size, was answered by
      as many vectors as it has texts, each of the right dimensions. */
  lemma GoodExactly(replies: seq<Reply>, n: nat, size: nat, dimensions: nat)
    requires size > 0
    ensures AllGood(replies, n, size, dimensions) <==>
            forall b: nat :: Product(b, size) < n ==>
                               && b < |replies| && replies[b].Some?
                               && |replies[b].value| == Min(size, n - b * size)
                               && forall j :: 0 <= j < |replies[b].value| ==> |replies[b].value[j]| == dimensions
  {
    forall b: nat | Product(b, size) < n
      ensures GoodBatch(replies, n, size, dimensions, b) <==>
                && b < |replies| && replies[b].Some?
                && |replies[b].value| == Min(size, n - b * size)
                && forall j :: 0 <= j < |replies[b].value| ==> |replies[b].value[j]| == dimensions
    {
    }
  }

  function Min(a: int, b: int): int {
    if a <= b then a else b
  }

  lemma Monotone(a: nat, b: nat, size: nat)
    requires a <= b
    ensures a * size <= b * size
  {
  }

  /** The vectors of all batches from the one that starts at `start`, or nothing as soon as a
      reply is bad. */
  function Collect(replies: seq<Reply>, n: nat, size: nat, dimensions: nat, batch: nat, start: nat): Option<seq<Vector>>
    requires size > 0
    decreases n - start
  {
    if start >= n then Some([])
    else if !GoodReply(replies, batch, BatchLength(n, size, start), dimensions) then None
    else
      match Collect(replies, n, size, dimensions, batch + 1, start + size)
      case None => None
      case Some(rest) => Some(replies[batch].value + rest)
  }

  lemma {:induction false} CollectsWhenAllGood(
    replies: seq<Reply>, n: nat, size: nat, dimensions: nat, batch: nat, start: nat)
    requires size > 0 && start == Product(batch, size)
    ensures Collect(replies, n, size, dimensions, batch, start).Some? <==>
            forall b: nat :: batch <= b && Product(b, size) < n ==> GoodBatch(replies, n, size, dimensions, b)
    decreases n - start
  {
    if start < n {
      assert Product(batch + 1, size) == start + size;
      CollectsWhenAllGood(replies, n, size, dimensions, batch + 1, start + size);
      if !GoodReply(replies, batch, BatchLength(n, size, start), dimensions) {
        assert !GoodBatch(replies, n, size, dimensions, batch);
      }
    } else {
      forall b: nat | batch <= b
        ensures Product(b, size) >= n
      {
        Monotone(batch, b, size);
      }
    }
  }

  /** In every batch, every vector lands at the place of its text. */
  lemma {:induction false} CollectedInPlace(
    replies: seq<Reply>, n: nat, size: nat, dimensions: nat, batch: nat, start: nat, b: nat, j: nat)
    requires size > 0 && start == Product(batch, size) && start <= n
    requires Collect(replies, n, size, dimensions, batch, start).Some?
    requires batch <= b && j < size && Product(b, size) + j < n
    ensures b < |replies| && replies[b].Some? && j < |replies[b].value|
    ensures start <= Product(b, size)
    ensures Product(b, size) + j - start < |Collect(replies, n, size, dimensions, batch, start).value|
    ensures Collect(replies, n, size, dimensions, batch, start).value[Product(b, size) + j - start]
            == replies[b].value[j]
    decreases n - start
  {
    Monotone(batch, b, size);
    if b > batch {
      Monotone(batch + 1, b, size);
      assert Product(batch + 1, size) == start + size;
      CollectedInPlace(replies, n, size, dimensions, batch + 1, start + size, b, j);
    }
  }

  lemma {:induction false} CollectedLength(
    replies: seq<Reply>, n: nat, size: nat, dimensions: nat, batch: nat, start: nat)
    requires size > 0 && start <= n
    ensures Collect(replies, n, size, dimensions, batch, start).Some? ==>
              |Collect(replies, n, size, dimensions, batch, start).value| == n - start
    decreases n - start
  {
    if start + size < n {
      CollectedLength(replies, n, size, dimensions, batch + 1, start + size);
    }
  }

  /** Text `i` was answered in batch `i / size`, in place `i % size`. */
  predicate Answers(replies: seq<Reply>, size: nat, i: nat, vector: Vector)
    requires size > 0
  {
    && i / size < |replies| && replies[i / size].Some?
    && i % size < |replies[i / size].value|
    && vector == replies[i / size].value[i % size]
  }

  lemma QuotientAndRest(i: nat, size: nat)
    requires size > 0
    ensures i % size < size && Product(i / size, size) + i % size == i
  {
  }

  lemma CollectedInOrder(replies: seq<Reply>, n: nat, size: nat, dimensions: nat, i: nat)
    requires size > 0 && i < n && Collect(replies, n, size, dimensions, 0, 0).Some?
    ensures |Collect(replies, n, size, dimensions, 0, 0).value| == n
    ensures Answers(replies, size, i, Collect(replies, n, size, dimensions, 0, 0).value[i])
  {
    QuotientAndRest(i, size);
    CollectedLength(replies, n, size, dimensions, 0, 0);
    CollectedInPlace(replies, n, size, dimensions, 0, 0, i / size, i % size);
  }

  /** Collects the vectors of all batches, or gives up on the first bad reply. */
  method EmbedAll(n: nat, size: nat, dimensions: nat, replies: seq<Reply>) returns (vectors: Option<seq<Vector>>)
    requires size >= 1
    ensures vectors == Collect(replies, n, size, dimensions, 0, 0)
  {
    var embeddings: seq<Vector> := [];
    var start, batch := 0, 0;
    PrependNothing(Collect(replies, n, size, dimensions, 0, 0));
    while start < n
      invariant Collect(replies, n, size, dimensions, 0, 0) ==
                Prepend(embeddings, Collect(replies, n, size, dimensions, batch, start))
      decreases n - start
    {
      var length := BatchLength(n, size, start);
      if batch >= |replies| || replies[batch].None? || |replies[batch].value| != length {
        return None;
      }
      var reply := replies[batch].value;
      for j := 0 to |reply|
        invariant forall k :: 0 <= k < j ==> |reply[k]| == dimensions
      {
        if |reply[j]| != dimensions {
          return None;
        }
      }
      PrependTwice(embeddings, reply, Collect(replies, n, size, dimensions, batch + 1, start + size));
      embeddings := embeddings + reply;
      start, batch := start + size, batch + 1;
    }
    assert embeddings + [] == embeddings;
    return Some(embeddings);
  }

  function Prepend(vectors: seq<Vector>, rest: Option<seq<Vector>>): Option<seq<Vector>> {
    match rest
    case None => None
    case Some(more) => Some(vectors + more)
  }

  lemma PrependNothing(rest: Option<seq<Vector>>)
    ensures Prepend([], rest) == rest
  {
    if rest.Some? {
      assert [] + rest.value == rest.value;
    }
  }

  lemma PrependTwice(a: seq<Vector>, b: seq<Vector>, rest: Option<seq<Vector>>)
    ensures Prepend(a, Prepend(b, rest)) == Prepend(a + b, rest)
  {
    if rest.Some? {
      assert a + (b + rest.value) == a + b + rest.value;
    }
  }

  function ChunksOf(digest: string -> string, d: Chunking.Document, s: Chunking.Settings): (r: seq<Chunking.Chunk>)
    requires Chunking.ValidSettings(s)
  {
    var words := Text.Words(d.content);
    seq(Chunking.Count(|words|, s), k requires 0 <= k < Chunking.Count(|words|, s) =>
      Chunking.ChunkAt(digest, d, words, k, s))
  }

  function RecordsOf(chunks: seq<Chunking.Chunk>, vectors: seq<Vector>): (r: seq<VectorStore.Record>)
    requires |vectors| == |chunks|
    ensures |r| == |chunks|
    ensures forall i :: 0 <= i < |chunks| ==> r[i] == VectorStore.Record(chunks[i], vectors[i])
  {
    seq(|chunks|, i requires 0 <= i < |chunks| => VectorStore.Record(chunks[i], vectors[i]))
  }

  /** The records to write: every chunk fits, every batch was answered well, and every vector is
      valid; nothing otherwise. */
  function ToWrite(
    chunks: seq<Chunking.Chunk>, replies: seq<Reply>, size: nat, dimensions: nat): Option<seq<VectorStore.Record>>
    requires size > 0
  {
    match Collect(replies, |chunks|, size, dimensions, 0, 0)
    case None => None
    case Some(vectors) =>
      CollectedLength(replies, |chunks|, size, dimensions, 0, 0);
      if VectorStore.AllValid(RecordsOf(chunks, vectors), dimensions) then Some(RecordsOf(chunks, vectors)) else None
  }

  /** All or nothing, and in pairs: there is something to write exactly when every batch was
      answered well and every vector is valid, and then it is one record per chunk, the i-th chunk
      with the vector the provider gave for the i-th text. */
  lemma WritesAllInPairs(chunks: seq<Chunking.Chunk>, replies: seq<Reply>, size: nat, dimensions: nat)
    requires size > 0
    ensures ToWrite(chunks, replies, size, dimensions).Some? ==>
              && AllGood(replies, |chunks|, size, dimensions)
              && var records := ToWrite(chunks, replies, size, dimensions).value;
                 |records| == |chunks|
                 && VectorStore.AllValid(records, dimensions)
                 && forall i :: 0 <= i < |chunks| ==>
                      records[i].chunk == chunks[i] && Answers(replies, size, i, records[i].embedding)
    ensures ToWrite(chunks, replies, size, dimensions).None? && AllGood(replies, |chunks|, size, dimensions) ==>
              exists i: nat, vector ::
                i < |chunks| && Answers(replies, size, i, vector) && VectorStore.Validate(vector, dimensions).None?
  {
    var n := |chunks|;
    CollectsWhenAllGood(replies, n, size, dimensions, 0, 0);
    var collected := Collect(replies, n, size, dimensions, 0, 0);
    if collected.Some? {
      CollectedLength(replies, n, size, dimensions, 0, 0);
      forall i | 0 <= i < n
        ensures Answers(replies, size, i, collected.value[i])
      {
        CollectedInOrder(replies, n, size, dimensions, i);
      }
      if !VectorStore.AllValid(RecordsOf(chunks, collected.value), dimensions) {
        var i :| 0 <= i < n && VectorStore.Validate(RecordsOf(chunks, collected.value)[i].embedding, dimensions).None?;
        assert Answers(replies, size, i, collected.value[i]);
      }
    }
  }

  /** The provider embeds text by text. */
  ghost predicate TextByText(
    replies: seq<Reply>, texts: seq<string>, size: nat, dimensions: nat, embed: string -> Vector)
    requires size > 0
  {
    && AllGood(replies, |texts|, size, dimensions)
    && forall i: nat, vector :: i < |texts| && Answers(replies, size, i, vector) ==> vector == embed(texts[i])
  }

  /** For a provider that embeds text by text, how the texts are cut into batches makes no
      difference to what is collected. */
  lemma BatchSizeDoesNotMatter(
    p: seq<Reply>, psize: nat, q: seq<Reply>, qsize: nat, texts: seq<string>, dimensions: nat, embed: string -> Vector)
    requires psize > 0 && qsize > 0
    requires TextByText(p, texts, psize, dimensions, embed) && TextByText(q, texts, qsize, dimensions, embed)
    ensures Collect(p, |texts|, psize, dimensions, 0, 0) == Collect(q, |texts|, qsize, dimensions, 0, 0)
  {
    CollectsByText(p, psize, texts, dimensions, embed);
    CollectsByText(q, qsize, texts, dimensions, embed);
  }

  function EmbedEach(texts: seq<string>, embed: string -> Vector): (r: seq<Vector>)
    ensures |r| == |texts|
    ensures forall i :: 0 <= i < |texts| ==> r[i] == embed(texts[i])
  {
    seq(|texts|, i requires 0 <= i < |texts| => embed(texts[i]))
  }

  lemma CollectsByText(p: seq<Reply>, size: nat, texts: seq<string>, dimensions: nat, embed: string -> Vector)
    requires size > 0 && TextByText(p, texts, size, dimensions, embed)
    ensures Collect(p, |texts|, size, dimensions, 0, 0) == Some(EmbedEach(texts, embed))
  {
    CollectsWhenAllGood(p, |texts|, size, dimensions, 0, 0);
    CollectedLength(p, |texts|, size, dimensions, 0, 0);
    assert forall b: nat :: Product(b, size) < |texts| ==> GoodBatch(p, |texts|, size, dimensions, b);
    var collected := Collect(p, |texts|, size, dimensions, 0, 0).value;
    forall i | 0 <= i < |texts|
      ensures collected[i] == embed(texts[i])
    {
      CollectedInOrder(p, |texts|, size, dimensions, i);
    }
    assert collected == EmbedEach(texts, embed);
  }

  lemma ChunkKeysDiffer(digest: string -> string, d: Chunking.Document, s: Chunking.Settings, j: nat, k: nat)
    requires Chunking.ValidSettings(s) && '\0' !in d.id
    requires forall a, b :: digest(a) == digest(b) ==> a == b
    requires j < |ChunksOf(digest, d, s)| && k < |ChunksOf(digest, d, s)| && j != k
    ensures ChunksOf(digest, d, s)[j].id != ChunksOf(digest, d, s)[k].id
  {
    var x, y := ChunksOf(digest, d, s)[j].content, ChunksOf(digest, d, s)[k].content;
    Text.AfterPrefix("CHK-", digest(Chunking.Identity(d, j, x)), digest(Chunking.Identity(d, k, y)));
    Chunking.ChunkIdsIdentify(digest, d, j, x, d, k, y);
  }

  lemma LastRecordIsStored(
    records: seq<VectorStore.Record>, dimensions: nat, before: map<VectorStore.Key, VectorStore.Stored>, i: nat)
    requires VectorStore.AllValid(records, dimensions) && i < |records|
    requires forall j :: i < j < |records| ==> KeyFor(records[j]) != KeyFor(records[i])
    ensures var after := InsertionOrder.MapAll(before, VectorStore.Entries(records, dimensions));
            KeyFor(records[i]) in after && after[KeyFor(records[i])] ==
              VectorStore.Stored(records[i].chunk, VectorStore.Validate(records[i].embedding, dimensions).value)
  {
    InsertionOrder.MapAllLast(before, VectorStore.Entries(records, dimensions), i);
  }

  /** After the records of a document were written, and with a collision-free digest, every chunk
      is stored under its own key with its own vector. */
  lemma EveryChunkIsStored(
    digest: string -> string, d: Chunking.Document, s: Chunking.Settings,
    records: seq<VectorStore.Record>, dimensions: nat, before: map<VectorStore.Key, VectorStore.Stored>, i: nat)
    requires Chunking.ValidSettings(s) && '\0' !in d.id
    requires forall a, b :: digest(a) == digest(b) ==> a == b
    requires |records| == |ChunksOf(digest, d, s)| && VectorStore.AllValid(records, dimensions)
    requires forall j :: 0 <= j < |records| ==> records[j].chunk == ChunksOf(digest, d, s)[j]
    requires i < |records|
    ensures var after := InsertionOrder.MapAll(before, VectorStore.Entries(records, dimensions));
            KeyFor(records[i]) in after && after[KeyFor(records[i])] ==
              VectorStore.Stored(records[i].chunk, VectorStore.Validate(records[i].embedding, dimensions).value)
  {
    forall j | i < j < |records|
      ensures KeyFor(records[j]) != KeyFor(records[i])
    {
      ChunkKeysDiffer(digest, d, s, j, i);
    }
    LastRecordIsStored(records, dimensions, before, i);
  }

  /** Writing records leaves every other key as it was. */
  lemma OtherKeysAreUntouched(
    records: seq<VectorStore.Record>, dimensions: nat, before: map<VectorStore.Key, VectorStore.Stored>,
    key: VectorStore.Key)
    requires VectorStore.AllValid(records, dimensions)
    requires forall j :: 0 <= j < |records| ==> KeyFor(records[j]) != key
    ensures var after := InsertionOrder.MapAll(before, VectorStore.Entries(records, dimensions));
            (key in after <==> key in before) && (key in before ==> after[key] == before[key])
  {
    InsertionOrder.MapAllOthers(before, VectorStore.Entries(records, dimensions), key);
  }

  function KeyFor(r: VectorStore.Record): VectorStore.Key {
    VectorStore.Key(r.chunk.tenant, r.chunk.id)
  }

  class KnowledgeIndexer {
    const store: VectorStore.InMemoryVectorStore
    const settings: Chunking.Settings
    const size: nat

    ghost predicate Valid()
      reads this, store
    {
      store.Valid() && Chunking.ValidSettings(settings) && size >= 1
    }

    constructor (store: VectorStore.InMemoryVectorStore, settings: Chunking.Settings, size: nat)
      requires store.Valid() && Chunking.ValidSettings(settings) && size >= 1
      ensures Valid() && this.store == store && this.settings == settings && this.size == size
    {
      this.store := store;
      this.settings := settings;
      this.size := size;
    }

    /** Writes nothing unless every chunk fits, every batch is answered well and every vector is
        valid, and then writes all the records at once. */
    method IndexDocument(digest: string -> string, d: Chunking.Document, replies: seq<Reply>) returns (outcome: Outcome)
      requires Valid()
      modifies store`records
      ensures Valid()
      ensures var chunks := ChunksOf(digest, d, settings);
              var records := ToWrite(chunks, replies, size, store.dimensions);
              if Chunking.AllFit(Text.Words(d.content), settings) && records.Some? then
                && outcome == Indexed(|chunks|)
                && store.Contents() == InsertionOrder.MapAll(old(store.Contents()),
                                                             VectorStore.Entries(records.value, store.dimensions))
              else
                outcome == Refused && store.records == old(store.records)
    {
      var split := Chunking.ChunkDocument(digest, d, settings);
      if split.ChunkTooLong? {
        return Refused;
      }
      assert split.chunks == ChunksOf(digest, d, settings);
      var embedded := EmbedAll(|split.chunks|, size, store.dimensions, replies);
      if embedded.None? {
        return Refused;
      }
      CollectedLength(replies, |split.chunks|, size, store.dimensions, 0, 0);
      var accepted := store.Upsert(RecordsOf(split.chunks, embedded.value));
      return if accepted then Indexed(|split.chunks|) else Refused;
    }
  }
}
