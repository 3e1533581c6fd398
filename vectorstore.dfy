/** The id-keyed vector index and the batched upsert loop of
    `upsertToPinecone` (index.js:77-100). The index itself is remote; here it
    is a map from id to record, and whether one upsert call succeeds is an
    outcome chosen by the caller of the model. */
module VectorStore {
  import opened Seqs
  import opened Records

  type Contents = map<string, Record>

  /** What one successful upsert does to an id-keyed index: every record is
      written under its id, a later record replacing an earlier one. */
  function Put(m: Contents, batch: seq<Record>): Contents
    decreases |batch|
  {
    if batch == [] then m
    else Put(m, batch[..|batch| - 1])[batch[|batch| - 1].id := batch[|batch| - 1]]
  }

  /** The ids of the first hi positions. */
  function IdsBelow(hi: nat): set<string>
  {
    set k: nat | k < hi :: ChunkId(k)
  }

  /** The records of positions lo .. hi - 1, keyed by their ids. */
  function RangeMap(embeddings: seq<Vector>, chunks: seq<string>, lo: nat, hi: nat): Contents
    requires lo <= hi <= |embeddings|
  {
    map id | id in IdsBelow(hi) && ParseChunkId(id).Some? && lo <= ParseChunkId(id).value < hi ::
      RecordAt(embeddings, chunks, ParseChunkId(id).value)
  }

  /** The records among the first `hi` positions whose window was accepted. */
  function AcceptedUpTo(embeddings: seq<Vector>, chunks: seq<string>, size: nat,
                        accepts: nat -> bool, hi: nat): Contents
    requires 0 < size && hi <= |embeddings|
  {
    map id | id in IdsBelow(hi) && ParseChunkId(id).Some? && ParseChunkId(id).value < hi &&
      accepts(WindowOf(ParseChunkId(id).value, size)) ::
      RecordAt(embeddings, chunks, ParseChunkId(id).value)
  }

  /** The ids of the first hi positions are the ids naming a position below hi. */
  lemma IdsBelowLookup(hi: nat, id: string)
    ensures id in IdsBelow(hi) <==> ParseChunkId(id).Some? && ParseChunkId(id).value < hi
  {
    if id in IdsBelow(hi) {
      var k: nat :| k < hi && ChunkId(k) == id;
      ChunkIdRoundTrip(k);
    }
    if ParseChunkId(id).Some? && ParseChunkId(id).value < hi {
      ParseChunkIdRoundTrip(id);
      assert ChunkId(ParseChunkId(id).value) in IdsBelow(hi);
    }
  }

  /** The records of a whole run whose window was accepted. */
  function Accepted(embeddings: seq<Vector>, chunks: seq<string>, size: nat, accepts: nat -> bool): Contents
    requires 0 < size
  {
    AcceptedUpTo(embeddings, chunks, size, accepts, |embeddings|)
  }

  /** An id is in the range map of lo .. hi - 1 exactly when it names a
      position in that range, and then it maps to that position's record. */
  lemma RangeMapLookup(embeddings: seq<Vector>, chunks: seq<string>, lo: nat, hi: nat, id: string)
    requires lo <= hi <= |embeddings|
    ensures id in RangeMap(embeddings, chunks, lo, hi) <==>
      ParseChunkId(id).Some? && lo <= ParseChunkId(id).value < hi
    ensures id in RangeMap(embeddings, chunks, lo, hi) ==>
      RangeMap(embeddings, chunks, lo, hi)[id] == RecordAt(embeddings, chunks, ParseChunkId(id).value)
  {
    IdsBelowLookup(hi, id);
  }

  /** An id is among the accepted records of the first hi positions exactly
      when it names such a position whose window was accepted. */
  lemma AcceptedLookup(embeddings: seq<Vector>, chunks: seq<string>, size: nat,
                       accepts: nat -> bool, hi: nat, id: string)
    requires 0 < size && hi <= |embeddings|
    ensures id in AcceptedUpTo(embeddings, chunks, size, accepts, hi) <==>
      ParseChunkId(id).Some? && ParseChunkId(id).value < hi && accepts(WindowOf(ParseChunkId(id).value, size))
    ensures id in AcceptedUpTo(embeddings, chunks, size, accepts, hi) ==>
      AcceptedUpTo(embeddings, chunks, size, accepts, hi)[id] ==
      RecordAt(embeddings, chunks, ParseChunkId(id).value)
  {
    IdsBelowLookup(hi, id);
  }

  lemma RangeMapSnoc(embeddings: seq<Vector>, chunks: seq<string>, lo: nat, hi: nat)
    requires lo < hi <= |embeddings|
    ensures RangeMap(embeddings, chunks, lo, hi) ==
      RangeMap(embeddings, chunks, lo, hi - 1)[ChunkId(hi - 1) := RecordAt(embeddings, chunks, hi - 1)]
  {
    var big := RangeMap(embeddings, chunks, lo, hi);
    var small := RangeMap(embeddings, chunks, lo, hi - 1)[ChunkId(hi - 1) := RecordAt(embeddings, chunks, hi - 1)];
    ChunkIdRoundTrip(hi - 1);
    forall id
      ensures (id in big <==> id in small) && (id in big ==> big[id] == small[id])
    {
      RangeMapLookup(embeddings, chunks, lo, hi, id);
      RangeMapLookup(embeddings, chunks, lo, hi - 1, id);
      if ParseChunkId(id).Some? {
        ParseChunkIdRoundTrip(id);
      }
    }
  }

  /** Upserting the batch of a window adds exactly the records of that window. */
  lemma {:induction false} PutWindow(m: Contents, embeddings: seq<Vector>, chunks: seq<string>, lo: nat, hi: nat)
    requires lo <= hi <= |embeddings|
    ensures Put(m, WindowRecords(embeddings, chunks, lo, hi)) == m + RangeMap(embeddings, chunks, lo, hi)
    decreases hi - lo
  {
    var batch := WindowRecords(embeddings, chunks, lo, hi);
    if lo == hi {
      assert batch == [];
      assert RangeMap(embeddings, chunks, lo, hi) == map[];
    } else {
      var prev := WindowRecords(embeddings, chunks, lo, hi - 1);
      var r := RecordAt(embeddings, chunks, hi - 1);
      assert batch == prev + [r];
      PutSnoc(m, prev, r);
      PutWindow(m, embeddings, chunks, lo, hi - 1);
      UnionUpdate(m, RangeMap(embeddings, chunks, lo, hi - 1), r.id, r);
      RangeMapSnoc(embeddings, chunks, lo, hi);
    }
  }

  lemma PutSnoc(m: Contents, batch: seq<Record>, r: Record)
    ensures Put(m, batch + [r]) == Put(m, batch)[r.id := r]
  {
    assert (batch + [r])[..|batch|] == batch;
  }

  lemma UnionUpdate<K, V>(m: map<K, V>, a: map<K, V>, k: K, v: V)
    ensures (m + a)[k := v] == m + a[k := v]
  {
  }

  lemma UnionAssoc<K, V>(m: map<K, V>, a: map<K, V>, b: map<K, V>)
    ensures (m + a) + b == m + (a + b)
  {
  }

  /** Accepting or refusing window w extends the accepted records by that
      window's records or by nothing. */
  lemma AcceptedStep(embeddings: seq<Vector>, chunks: seq<string>, size: nat, accepts: nat -> bool, w: nat)
    requires 0 < size && w < WindowCount(|embeddings|, size)
    ensures w * size < |embeddings|
    ensures AcceptedUpTo(embeddings, chunks, size, accepts, Min(w * size + size, |embeddings|)) ==
      AcceptedUpTo(embeddings, chunks, size, accepts, w * size) +
      (if accepts(w) then RangeMap(embeddings, chunks, w * size, Min(w * size + size, |embeddings|)) else map[])
  {
    WindowCountBound(|embeddings|, size, w);
    var lo, hi := w * size, Min(w * size + size, |embeddings|);
    var big := AcceptedUpTo(embeddings, chunks, size, accepts, hi);
    var small := AcceptedUpTo(embeddings, chunks, size, accepts, lo);
    var win: Contents := if accepts(w) then RangeMap(embeddings, chunks, lo, hi) else map[];
    forall id
      ensures (id in big <==> id in small + win) && (id in big ==> big[id] == (small + win)[id])
    {
      AcceptedLookup(embeddings, chunks, size, accepts, hi, id);
      AcceptedLookup(embeddings, chunks, size, accepts, lo, id);
      RangeMapLookup(embeddings, chunks, lo, hi, id);
      if ParseChunkId(id).Some? && lo <= ParseChunkId(id).value < hi {
        DivWindow(ParseChunkId(id).value, w, size);
      }
    }
  }

  /** What the index holds after a run: the record of position k exactly when
      the window of k was accepted, and nothing under any other id. */
  lemma AcceptedContents(embeddings: seq<Vector>, chunks: seq<string>, size: nat, accepts: nat -> bool)
    requires 0 < size
    ensures forall k :: 0 <= k < |embeddings| ==>
      (ChunkId(k) in Accepted(embeddings, chunks, size, accepts) <==> accepts(WindowOf(k, size)))
    ensures forall k :: 0 <= k < |embeddings| && accepts(WindowOf(k, size)) ==>
      Accepted(embeddings, chunks, size, accepts)[ChunkId(k)] == RecordAt(embeddings, chunks, k)
    ensures forall id :: id in Accepted(embeddings, chunks, size, accepts) ==>
      ParseChunkId(id).Some? && ParseChunkId(id).value < |embeddings|
  {
    var n := |embeddings|;
    forall k | 0 <= k < n
      ensures ChunkId(k) in Accepted(embeddings, chunks, size, accepts) <==> accepts(WindowOf(k, size))
      ensures accepts(WindowOf(k, size)) ==>
        Accepted(embeddings, chunks, size, accepts)[ChunkId(k)] == RecordAt(embeddings, chunks, k)
    {
      ChunkIdRoundTrip(k);
      AcceptedLookup(embeddings, chunks, size, accepts, n, ChunkId(k));
    }
    forall id | id in Accepted(embeddings, chunks, size, accepts)
      ensures ParseChunkId(id).Some? && ParseChunkId(id).value < n
    {
      AcceptedLookup(embeddings, chunks, size, accepts, n, id);
    }
  }

  /** Every record of a run reaches the index when no upsert fails. */
  lemma AcceptedAll(embeddings: seq<Vector>, chunks: seq<string>, size: nat, accepts: nat -> bool)
    requires 0 < size
    requires forall w :: accepts(w)
    ensures forall k :: 0 <= k < |embeddings| ==>
      ChunkId(k) in Accepted(embeddings, chunks, size, accepts) &&
      Accepted(embeddings, chunks, size, accepts)[ChunkId(k)] == AllRecords(embeddings, chunks)[k]
  {
    AcceptedContents(embeddings, chunks, size, accepts);
  }

  /** Running again after some windows failed: the index ends up as if every
      window accepted in either run had been accepted in one run. */
  lemma RetryUnion(m: Contents, embeddings: seq<Vector>, chunks: seq<string>, size: nat,
                   first: nat -> bool, second: nat -> bool, either: nat -> bool)
    requires 0 < size
    requires forall w :: either(w) == (first(w) || second(w))
    ensures (m + Accepted(embeddings, chunks, size, first)) + Accepted(embeddings, chunks, size, second) ==
      m + Accepted(embeddings, chunks, size, either)
  {
    var n := |embeddings|;
    AcceptedUnion(embeddings, chunks, size, first, second, either);
    UnionAssoc(m, Accepted(embeddings, chunks, size, first), Accepted(embeddings, chunks, size, second));
  }

  lemma AcceptedUnion(embeddings: seq<Vector>, chunks: seq<string>, size: nat,
                      first: nat -> bool, second: nat -> bool, either: nat -> bool)
    requires 0 < size
    requires forall w :: either(w) == (first(w) || second(w))
    ensures Accepted(embeddings, chunks, size, first) + Accepted(embeddings, chunks, size, second) ==
      Accepted(embeddings, chunks, size, either)
  {
    var n := |embeddings|;
    var a, b := Accepted(embeddings, chunks, size, first), Accepted(embeddings, chunks, size, second);
    var e := Accepted(embeddings, chunks, size, either);
    forall id
      ensures (id in a + b <==> id in e) && (id in e ==> (a + b)[id] == e[id])
    {
      AcceptedLookup(embeddings, chunks, size, first, n, id);
      AcceptedLookup(embeddings, chunks, size, second, n, id);
      AcceptedLookup(embeddings, chunks, size, either, n, id);
    }
    MapEqual(a + b, e);
  }

  lemma MapEqual<K, V>(x: map<K, V>, y: map<K, V>)
    requires forall k :: (k in x <==> k in y) && (k in y ==> x[k] == y[k])
    ensures x == y
  {
  }

  /** A run ends with the index at its old contents plus `Accepted`
      (`UpsertToIndex`), so upserting the same run twice, with the same
      outcomes, leaves the index as upserting it once. */
  lemma RunTwice(m: Contents, embeddings: seq<Vector>, chunks: seq<string>, size: nat, accepts: nat -> bool)
    requires 0 < size
    ensures (m + Accepted(embeddings, chunks, size, accepts)) + Accepted(embeddings, chunks, size, accepts) ==
      m + Accepted(embeddings, chunks, size, accepts)
  {
    RetryUnion(m, embeddings, chunks, size, accepts, accepts, accepts);
  }

  /** The numbers, counted from one as the log counts them, of the windows
      among the first `count` that were refused. */
  function FailedWindows(count: nat, accepts: nat -> bool): seq<nat>
  {
    if count == 0 then []
    else FailedWindows(count - 1, accepts) + (if accepts(count - 1) then [] else [count])
  }

  /** The failed windows are listed once each, in increasing order, and are
      exactly the refused ones. */
  lemma {:induction false} FailedWindowsSpec(count: nat, accepts: nat -> bool)
    ensures forall x :: x in FailedWindows(count, accepts) <==> 1 <= x <= count && !accepts(x - 1)
    ensures forall i, j :: 0 <= i < j < |FailedWindows(count, accepts)| ==>
      FailedWindows(count, accepts)[i] < FailedWindows(count, accepts)[j]
  {
    if count > 0 {
      FailedWindowsSpec(count - 1, accepts);
      var prev := FailedWindows(count - 1, accepts);
      assert forall i :: 0 <= i < |prev| ==> prev[i] in prev;
    }
  }

  /** The remote index: its contents, and the batches sent to it so far. */
  class VectorIndex {
    var records: Contents
    ghost var requests: seq<seq<Record>>

    /** Opening an existing index: it holds whatever it already held, and no
        call has been made through this handle yet. */
    constructor (initial: Contents)
      ensures records == initial && requests == []
    {
      records := initial;
      requests := [];
    }

    /** One upsert call. On success the batch is written; on failure the index
        is left as it was. Either way the call is recorded. */
    method Upsert(batch: seq<Record>, accept: bool) returns (ok: bool)
      modifies this
      ensures ok == accept
      ensures records == if accept then Put(old(records), batch) else old(records)
      ensures requests == old(requests) + [batch]
    {
      requests := requests + [batch];
      if accept {
        records := Put(records, batch);
      }
      ok := accept;
    }
  }

  /** One turn of the upsert loop keeps the index equal to its initial
      contents plus the accepted records of the windows sent so far. */
  lemma RecordsStep(base: Contents, before: Contents, after: Contents, embeddings: seq<Vector>,
                    chunks: seq<string>, size: nat, accepts: nat -> bool, w: nat)
    requires 0 < size && w < WindowCount(|embeddings|, size)
    requires w * size <= |embeddings|
    requires before == base + AcceptedUpTo(embeddings, chunks, size, accepts, w * size)
    requires after == if accepts(w)
      then Put(before, WindowRecords(embeddings, chunks, w * size, Min(w * size + size, |embeddings|)))
      else before
    ensures after == base + AcceptedUpTo(embeddings, chunks, size, accepts, Min(w * size + size, |embeddings|))
  {
    var lo, hi := w * size, Min(w * size + size, |embeddings|);
    AcceptedStep(embeddings, chunks, size, accepts, w);
    if accepts(w) {
      PutWindow(before, embeddings, chunks, lo, hi);
      UnionAssoc(base, AcceptedUpTo(embeddings, chunks, size, accepts, lo), RangeMap(embeddings, chunks, lo, hi));
    } else {
      assert AcceptedUpTo(embeddings, chunks, size, accepts, lo) + map[] ==
        AcceptedUpTo(embeddings, chunks, size, accepts, lo);
    }
  }

  /** The loop of `upsertToPinecone`: one upsert per window of `batchSize`
      records, in order, each failure logged (here: returned) and skipped.
      `accepts(w)` is the outcome of the call for window w. */
  method UpsertToIndex(index: VectorIndex, embeddings: seq<Vector>, chunks: seq<string>,
                       batchSize: nat, accepts: nat -> bool) returns (failed: seq<nat>)
    requires 0 < batchSize
    modifies index
    ensures index.requests == old(index.requests) + Batches(embeddings, chunks, batchSize)
    ensures index.records == old(index.records) + Accepted(embeddings, chunks, batchSize, accepts)
    ensures failed == FailedWindows(WindowCount(|embeddings|, batchSize), accepts)
  {
    var n := |embeddings|;
    var i := 0;
    ghost var w := 0;
    failed := [];
    while i < n
      invariant i == w * batchSize
      invariant w <= WindowCount(n, batchSize)
      invariant index.requests == old(index.requests) + Batches(embeddings, chunks, batchSize)[..w]
      invariant index.records == old(index.records) +
        AcceptedUpTo(embeddings, chunks, batchSize, accepts, Min(i, n))
      invariant failed == FailedWindows(w, accepts)
      decreases n - i
    {
      WindowCountBound(n, batchSize, w);
      DivWindow(i, w, batchSize);
      var hi := Min(i + batchSize, n);
      var batch := WindowRecords(embeddings, chunks, i, hi);
      ghost var before := index.records;
      var ok := index.Upsert(batch, accepts(i / batchSize));
      if !ok {
        failed := failed + [i / batchSize + 1];
      }
      RecordsStep(old(index.records), before, index.records, embeddings, chunks, batchSize, accepts, w);
      assert Batches(embeddings, chunks, batchSize)[..w + 1] ==
        Batches(embeddings, chunks, batchSize)[..w] + [batch];
      MulSucc(w, batchSize);
      i := i + batchSize;
      w := w + 1;
      WindowCountBound(n, batchSize, w);
      assert Min(i, n) == hi;
    }
    WindowCountBound(n, batchSize, w);
    assert Batches(embeddings, chunks, batchSize)[..w] == Batches(embeddings, chunks, batchSize);
  }
}
