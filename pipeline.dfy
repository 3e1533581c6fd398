/** `processPDF` (index.js:103-125) from the extracted text on: chunk the
    text, embed the chunks wave by wave, and upsert the vectors 100 at a time.
    Reading the file and extracting its text are not part of this model; the
    text is the input. */
module Pipeline {
  import opened Wrappers
  import opened Records
  import opened Chunker
  import opened Embedding
  import opened VectorStore

  /** The window size `processPDF` passes to `upsertToPinecone` (index.js:124). */
  const UpsertBatchSize: nat := 100

  /** One ingestion run. It fails, before any upsert, exactly when some chunk
      fails to embed. Otherwise every window is sent, the failed windows are
      returned, and the index gains the record of every chunk whose window was
      accepted: its id, its own vector and its own text. */
  method ProcessText(text: string, embed: Embedder, index: VectorIndex, accepts: nat -> bool)
    returns (r: Result<seq<nat>, string>)
    modifies index
    ensures var chunks := Chunks(Sentences(text), DefaultMaxTokens);
      r.Success? <==> forall k :: 0 <= k < |chunks| ==> embed(chunks[k]).Success?
    ensures r.Failure? ==> index.records == old(index.records) && index.requests == old(index.requests)
    ensures r.Failure? ==> exists k :: FirstFailure(Chunks(Sentences(text), DefaultMaxTokens), embed, k, r.error)
    ensures r.Success? ==>
      var chunks := Chunks(Sentences(text), DefaultMaxTokens);
      var embeddings := EmbedAll(chunks, embed);
      index.requests == old(index.requests) + Batches(embeddings, chunks, UpsertBatchSize) &&
      index.records == old(index.records) + Accepted(embeddings, chunks, UpsertBatchSize, accepts) &&
      r.value == FailedWindows(WindowCount(|chunks|, UpsertBatchSize), accepts)
    ensures r.Success? ==>
      var chunks := Chunks(Sentences(text), DefaultMaxTokens);
      forall k :: 0 <= k < |chunks| && accepts(WindowOf(k, UpsertBatchSize)) ==>
        ChunkId(k) in index.records &&
        index.records[ChunkId(k)] == Record(ChunkId(k), embed(chunks[k]).value, Some(chunks[k]))
  {
    var chunks := ChunkText(text, DefaultMaxTokens);
    var embedded := EmbedChunks(chunks, embed);
    if embedded.Failure? {
      return Failure(embedded.error);
    }
    var embeddings := embedded.value;
    assert embeddings == EmbedAll(chunks, embed);
    var failed := UpsertToIndex(index, embeddings, chunks, UpsertBatchSize, accepts);
    AcceptedContents(embeddings, chunks, UpsertBatchSize, accepts);
    return Success(failed);
  }
}
