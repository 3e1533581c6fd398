/** The embedding loop of `processPDF` (index.js:112-121): chunks are embedded
    in waves of ten, each wave's results appended in order. The embedding
    model itself is a parameter: a function from a chunk to a vector or an
    error message. */
module Embedding {
  import opened Wrappers
  import opened Records

  /** How many chunks one wave embeds (index.js:112). */
  const EmbeddingBatchSize: nat := 10

  /** One embedding call per chunk; fails with that chunk's error. */
  type Embedder = string -> Result<Vector, string>

  /** `Promise.all(batchChunks.map(getEmbeddings))` (index.js:117): the results
      of the wave in input order when every call succeeds, and otherwise the
      error of a call that failed. */
  function EmbedWave(batch: seq<string>, embed: Embedder): (r: Result<seq<Vector>, string>)
    ensures r.Success? <==> forall k :: 0 <= k < |batch| ==> embed(batch[k]).Success?
    ensures r.Success? ==> (|r.value| == |batch| &&
      forall k :: 0 <= k < |batch| ==> r.value[k] == embed(batch[k]).value)
    ensures r.Failure? ==>
      exists k :: 0 <= k < |batch| && embed(batch[k]).Failure? && r.error == embed(batch[k]).error
  {
    if batch == [] then Success([])
    else
      var head := embed(batch[0]);
      if head.Failure? then Failure(head.error)
      else
        var rest := EmbedWave(batch[1..], embed);
        if rest.Failure? then
          assert forall k :: 0 <= k < |batch| - 1 ==> batch[1..][k] == batch[k + 1];
          rest
        else
          Success([head.value] + rest.value)
  }

  /** The vectors of all chunks, when every chunk embeds. */
  function EmbedAll(chunks: seq<string>, embed: Embedder): (vs: seq<Vector>)
    requires forall k :: 0 <= k < |chunks| ==> embed(chunks[k]).Success?
  {
    seq(|chunks|, k requires 0 <= k < |chunks| => embed(chunks[k]).value)
  }

  /** Chunk k failed with `error`, and every chunk of the waves before its own
      was embedded. */
  predicate FirstFailure(chunks: seq<string>, embed: Embedder, k: int, error: string)
  {
    0 <= k < |chunks| && embed(chunks[k]).Failure? && embed(chunks[k]).error == error &&
    forall j :: 0 <= j < k / EmbeddingBatchSize * EmbeddingBatchSize ==> embed(chunks[j]).Success?
  }

  lemma WaveFailure(chunks: seq<string>, embed: Embedder, i: nat, hi: nat, error: string)
    requires i % EmbeddingBatchSize == 0 && i < hi <= |chunks| && hi <= i + EmbeddingBatchSize
    requires forall k :: 0 <= k < i ==> embed(chunks[k]).Success?
    requires exists j :: 0 <= j < hi - i && embed(chunks[i..hi][j]).Failure? && error == embed(chunks[i..hi][j]).error
    ensures exists k :: FirstFailure(chunks, embed, k, error)
  {
    var j :| 0 <= j < hi - i && embed(chunks[i..hi][j]).Failure? && error == embed(chunks[i..hi][j]).error;
    assert (i + j) / EmbeddingBatchSize * EmbeddingBatchSize == i;
    assert FirstFailure(chunks, embed, i + j, error);
  }

  /** The wave loop. On success the vectors line up with the chunks; on
      failure the error is that of a failing chunk whose wave is the first
      wave with a failure: every chunk of the earlier waves was embedded. */
  method EmbedChunks(chunks: seq<string>, embed: Embedder) returns (r: Result<seq<Vector>, string>)
    ensures r.Success? <==> forall k :: 0 <= k < |chunks| ==> embed(chunks[k]).Success?
    ensures r.Success? ==> (|r.value| == |chunks| &&
      forall k :: 0 <= k < |chunks| ==> r.value[k] == embed(chunks[k]).value)
    ensures r.Failure? ==> exists k :: FirstFailure(chunks, embed, k, r.error)
  {
    var n := |chunks|;
    var embeddings: seq<Vector> := [];
    var i := 0;
    while i < n
      invariant i % EmbeddingBatchSize == 0
      invariant |embeddings| == Min(i, n)
      invariant forall k :: 0 <= k < |embeddings| ==>
        embed(chunks[k]).Success? && embeddings[k] == embed(chunks[k]).value
      decreases n - i
    {
      var hi := Min(i + EmbeddingBatchSize, n);
      var batch := chunks[i..hi];
      var wave := EmbedWave(batch, embed);
      if wave.Failure? {
        WaveFailure(chunks, embed, i, hi, wave.error);
        return Failure(wave.error);
      }
      embeddings := embeddings + wave.value;
      i := i + EmbeddingBatchSize;
    }
    return Success(embeddings);
  }
}
