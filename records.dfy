/** The records `upsertToPinecone` (index.js:77-100) builds and the windows it
    sends them in. */
module Records {
  import opened Wrappers
  import opened Seqs

  /** An embedding vector. Its floating-point components are opaque here. */
  type Vector = seq<real>

  /** One record of the index: its id, its vector and its metadata text. The
      text is `None` where JavaScript reads past the end of `chunks` and finds
      `undefined`. */
  datatype Record = Record(id: string, values: Vector, text: Option<string>)

  predicate IsDigit(c: char)
  {
    '0' <= c <= '9'
  }

  function DigitChar(d: nat): (c: char)
    requires d < 10
    ensures IsDigit(c)
  {
    ('0' as int + d) as char
  }

  function DigitValue(c: char): (d: nat)
    requires IsDigit(c)
    ensures d < 10
  {
    c as int - '0' as int
  }

  /** How a template literal writes a non-negative integer: its decimal digits. */
  function Decimal(n: nat): (s: string)
    ensures |s| >= 1
    decreases n
  {
    if n < 10 then [DigitChar(n)] else Decimal(n / 10) + [DigitChar(n % 10)]
  }

  /** A decimal numeral as `Decimal` writes one: digits only, no leading zero. */
  predicate IsCanonical(s: string)
  {
    |s| >= 1 && (forall i :: 0 <= i < |s| ==> IsDigit(s[i])) && (s[0] == '0' ==> |s| == 1)
  }

  /** Reading decimal digits back. */
  function ParseDecimal(s: string): nat
    requires forall i :: 0 <= i < |s| ==> IsDigit(s[i])
  {
    if s == [] then 0 else 10 * ParseDecimal(s[..|s| - 1]) + DigitValue(s[|s| - 1])
  }

  lemma {:induction false} DecimalRoundTrip(n: nat)
    ensures IsCanonical(Decimal(n))
    ensures ParseDecimal(Decimal(n)) == n
    decreases n
  {
    if n < 10 {
      assert [DigitChar(n)][..0] == [];
    } else {
      var s := Decimal(n / 10);
      DecimalRoundTrip(n / 10);
      assert (s + [DigitChar(n % 10)])[..|s|] == s;
    }
  }

  /** A numeral with a non-zero leading digit denotes a positive number. */
  lemma {:induction false} ParsePositive(s: string)
    requires |s| >= 1 && (forall i :: 0 <= i < |s| ==> IsDigit(s[i])) && s[0] != '0'
    ensures ParseDecimal(s) >= 1
  {
    if |s| > 1 {
      ParsePositive(s[..|s| - 1]);
    }
  }

  /** Every canonical numeral is the rendering of the number it denotes. */
  lemma {:induction false} ParseRoundTrip(s: string)
    requires IsCanonical(s)
    ensures Decimal(ParseDecimal(s)) == s
  {
    if |s| > 1 {
      var init, d := s[..|s| - 1], DigitValue(s[|s| - 1]);
      ParseRoundTrip(init);
      ParsePositive(init);
      var n := ParseDecimal(s);
      assert n == 10 * ParseDecimal(init) + d;
      assert n / 10 == ParseDecimal(init) && n % 10 == d;
      assert DigitChar(d) == s[|s| - 1];
      assert s == init + [s[|s| - 1]];
    } else {
      assert DigitChar(DigitValue(s[0])) == s[0];
      assert s == [s[0]];
    }
  }

  /** The id of the record at absolute position `k`: `chunk-${k}`. */
  function ChunkId(k: nat): string
  {
    "chunk-" + Decimal(k)
  }

  /** The position an id names, if it is exactly of the form `chunk-<k>`. */
  function ParseChunkId(id: string): Option<nat>
  {
    if |id| > 6 && id[..6] == "chunk-" && IsCanonical(id[6..])
    then Some(ParseDecimal(id[6..])) else None
  }

  lemma ChunkIdRoundTrip(k: nat)
    ensures ParseChunkId(ChunkId(k)) == Some(k)
  {
    var s := Decimal(k);
    assert ChunkId(k)[..6] == "chunk-" && ChunkId(k)[6..] == s;
    DecimalRoundTrip(k);
  }

  /** An id that parses to k is the id of k. */
  lemma ParseChunkIdRoundTrip(id: string)
    requires ParseChunkId(id).Some?
    ensures ChunkId(ParseChunkId(id).value) == id
  {
    ParseRoundTrip(id[6..]);
    assert id == id[..6] + id[6..];
  }

  /** Distinct positions get distinct ids. */
  lemma ChunkIdInjective(a: nat, b: nat)
    ensures ChunkId(a) == ChunkId(b) <==> a == b
  {
    if ChunkId(a) == ChunkId(b) {
      ChunkIdRoundTrip(a);
      ChunkIdRoundTrip(b);
    }
  }

  lemma ChunkIdsDistinct()
    ensures forall a: nat, b: nat :: ChunkId(a) == ChunkId(b) ==> a == b
  {
    forall a: nat, b: nat
      ensures ChunkId(a) == ChunkId(b) ==> a == b
    {
      ChunkIdInjective(a, b);
    }
  }

  /** The record for absolute position `k`: id, vector and text from the same
      position. */
  function RecordAt(embeddings: seq<Vector>, chunks: seq<string>, k: nat): Record
    requires k < |embeddings|
  {
    Record(ChunkId(k), embeddings[k], if k < |chunks| then Some(chunks[k]) else None)
  }

  /** The `vectorsArray` of the window starting at `lo` and ending, clamped as
      `slice` clamps, at `hi`: the j-th record is that of position lo + j. */
  function WindowRecords(embeddings: seq<Vector>, chunks: seq<string>, lo: nat, hi: nat): seq<Record>
    requires lo <= hi <= |embeddings|
  {
    seq(hi - lo, j requires 0 <= j < hi - lo => RecordAt(embeddings, chunks, lo + j))
  }

  function Min(a: int, b: int): int
  {
    if a < b then a else b
  }

  /** How many times the loop `for (i = 0; i < n; i += size)` runs. */
  function WindowCount(n: nat, size: nat): nat
    requires 0 < size
  {
    (n + size - 1) / size
  }

  /** The windows [i, min(i + size, n)) of that loop, for i = 0, size, 2 size, ... */
  function Windows(n: nat, size: nat): (ws: seq<(nat, nat)>)
    requires 0 < size
  {
    seq(WindowCount(n, size), w requires 0 <= w < WindowCount(n, size) =>
      (w * size, Min(w * size + size, n)))
  }

  /** The positions of window w are exactly those whose quotient by `size` is w. */
  lemma DivWindow(k: nat, w: nat, size: nat)
    requires 0 < size
    ensures w * size <= k < w * size + size <==> k / size == w
  {
    var q := k / size;
    assert q * size <= k < (q + 1) * size;
    if w * size <= k < w * size + size {
      MulStrict(w, q + 1, size);
      MulStrict(q, w + 1, size);
    }
  }

  lemma MulStrict(a: nat, b: nat, size: nat)
    requires a * size < b * size
    ensures a < b
  {
    if a >= b {
      MulMono(b, a, size);
    }
  }

  lemma MulSucc(v: nat, size: nat)
    ensures (v + 1) * size == v * size + size
  {
  }

  lemma MulMono(a: nat, b: nat, size: nat)
    requires a <= b
    ensures a * size <= b * size
  {
    assert b * size == a * size + (b - a) * size;
  }

  /** The loop runs exactly while its index is below n. */
  lemma WindowCountBound(n: nat, size: nat, w: nat)
    requires 0 < size
    ensures w < WindowCount(n, size) <==> w * size < n
  {
    var c := WindowCount(n, size);
    var r := (n + size - 1) % size;
    assert n + size - 1 == c * size + r;
    if w < c {
      assert w * size <= (c - 1) * size;
    } else {
      assert c * size <= w * size;
    }
  }

  /** Every window is non-empty; there is none exactly when there is no position. */
  lemma WindowsNonEmpty(n: nat, size: nat)
    requires 0 < size
    ensures Windows(n, size) == [] <==> n == 0
    ensures forall w :: 0 <= w < |Windows(n, size)| ==> Windows(n, size)[w].0 < Windows(n, size)[w].1
  {
    WindowCountBound(n, size, 0);
    forall w | 0 <= w < |Windows(n, size)|
      ensures Windows(n, size)[w].0 < Windows(n, size)[w].1
    {
      WindowCountBound(n, size, w);
    }
  }

  /** The windows are contiguous and in order: the first starts at 0, each
      starts where the one before it ends, the last ends at n, and every window
      but the last holds exactly `size` positions. */
  lemma WindowsContiguous(n: nat, size: nat)
    requires 0 < size
    ensures Windows(n, size) != [] ==>
      Windows(n, size)[0].0 == 0 && Windows(n, size)[|Windows(n, size)| - 1].1 == n
    ensures forall v, w :: 0 <= v < |Windows(n, size)| && 0 <= w < |Windows(n, size)| && v + 1 == w ==>
      Windows(n, size)[v].1 == Windows(n, size)[w].0 &&
      Windows(n, size)[v].1 - Windows(n, size)[v].0 == size
  {
    var ws := Windows(n, size);
    var c := |ws|;
    forall v, w | 0 <= v < c && 0 <= w < c && v + 1 == w
      ensures ws[v].1 == ws[w].0 && ws[v].1 - ws[v].0 == size
    {
      WindowCountBound(n, size, w);
      assert v * size + size == w * size;
    }
    if c > 0 {
      WindowCountBound(n, size, c);
      WindowCountBound(n, size, c - 1);
      assert (c - 1) * size + size == c * size;
    }
  }

  /** The window that position p falls in. */
  function WindowOf(p: nat, size: nat): nat
    requires 0 < size
  {
    p / size
  }

  /** Every position lies in exactly one window, window p / size. */
  lemma WindowsCover(n: nat, size: nat)
    requires 0 < size
    ensures forall p :: 0 <= p < n ==> WindowOf(p, size) < |Windows(n, size)|
    ensures forall p, w :: 0 <= p < n && 0 <= w < |Windows(n, size)| ==>
      (Windows(n, size)[w].0 <= p < Windows(n, size)[w].1 <==> w == WindowOf(p, size))
  {
    var ws := Windows(n, size);
    forall p | 0 <= p < n
      ensures WindowOf(p, size) < |ws|
    {
      var q := p / size;
      DivWindow(p, q, size);
      WindowCountBound(n, size, q);
    }
    forall p, w | 0 <= p < n && 0 <= w < |ws|
      ensures ws[w].0 <= p < ws[w].1 <==> w == WindowOf(p, size)
    {
      DivWindow(p, w, size);
    }
  }

  /** 250 records in windows of 100: three windows, of 100, 100 and 50. */
  lemma WindowsExample()
    ensures Windows(250, 100) == [(0, 100), (100, 200), (200, 250)]
  {
    assert WindowCount(250, 100) == 3;
  }

  /** The batch of window w, as `upsertToPinecone` builds it. */
  function BatchAt(embeddings: seq<Vector>, chunks: seq<string>, size: nat, w: nat): seq<Record>
    requires 0 < size && w < WindowCount(|embeddings|, size)
  {
    WindowCountBound(|embeddings|, size, w);
    WindowRecords(embeddings, chunks, w * size, Min(w * size + size, |embeddings|))
  }

  /** The batches of one run, in the order they are sent. */
  function Batches(embeddings: seq<Vector>, chunks: seq<string>, size: nat): seq<seq<Record>>
    requires 0 < size
  {
    seq(WindowCount(|embeddings|, size), w requires 0 <= w < WindowCount(|embeddings|, size) =>
      BatchAt(embeddings, chunks, size, w))
  }

  /** Batch w is the records of window w: one batch per window, in order. */
  lemma BatchesWindows(embeddings: seq<Vector>, chunks: seq<string>, size: nat)
    requires 0 < size
    ensures var bs, ws := Batches(embeddings, chunks, size), Windows(|embeddings|, size);
      |bs| == |ws| &&
      forall w :: 0 <= w < |ws| ==>
        ws[w].0 <= ws[w].1 <= |embeddings| && bs[w] == WindowRecords(embeddings, chunks, ws[w].0, ws[w].1)
  {
    var n := |embeddings|;
    forall w | 0 <= w < WindowCount(n, size)
      ensures Windows(n, size)[w].0 <= Windows(n, size)[w].1 <= n
    {
      WindowCountBound(n, size, w);
    }
  }

  /** Every record of one run, by absolute position. */
  function AllRecords(embeddings: seq<Vector>, chunks: seq<string>): (rs: seq<Record>)
  {
    seq(|embeddings|, k requires 0 <= k < |embeddings| => RecordAt(embeddings, chunks, k))
  }

  /** Each record carries the vector of its position, the id naming that
      position, and the chunk of that position when there is one. */
  lemma AllRecordsAligned(embeddings: seq<Vector>, chunks: seq<string>)
    ensures |AllRecords(embeddings, chunks)| == |embeddings|
    ensures forall k :: 0 <= k < |embeddings| ==>
      AllRecords(embeddings, chunks)[k].values == embeddings[k] &&
      ParseChunkId(AllRecords(embeddings, chunks)[k].id) == Some(k) &&
      (k < |chunks| ==> AllRecords(embeddings, chunks)[k].text == Some(chunks[k])) &&
      (k >= |chunks| ==> AllRecords(embeddings, chunks)[k].text == None)
  {
    forall k | 0 <= k < |embeddings|
      ensures ParseChunkId(AllRecords(embeddings, chunks)[k].id) == Some(k)
    {
      ChunkIdRoundTrip(k);
    }
  }

  /** Within one run no two records share an id. */
  lemma AllRecordsDistinct(embeddings: seq<Vector>, chunks: seq<string>)
    ensures forall j, k :: 0 <= j < k < |AllRecords(embeddings, chunks)| ==>
      AllRecords(embeddings, chunks)[j].id != AllRecords(embeddings, chunks)[k].id
  {
    forall j, k | 0 <= j < k < |AllRecords(embeddings, chunks)|
      ensures AllRecords(embeddings, chunks)[j].id != AllRecords(embeddings, chunks)[k].id
    {
      ChunkIdInjective(j, k);
    }
  }

  lemma BatchesPrefix(embeddings: seq<Vector>, chunks: seq<string>, size: nat, w: nat)
    requires 0 < size && w <= WindowCount(|embeddings|, size)
    ensures Flatten(Batches(embeddings, chunks, size)[..w]) ==
      AllRecords(embeddings, chunks)[..Min(w * size, |embeddings|)]
    decreases w
  {
    var n := |embeddings|;
    var bs := Batches(embeddings, chunks, size);
    var all := AllRecords(embeddings, chunks);
    if w == 0 {
      assert bs[..0] == [];
    } else {
      var v := w - 1;
      BatchesPrefix(embeddings, chunks, size, v);
      WindowCountBound(n, size, v);
      var lo, hi := v * size, Min(v * size + size, n);
      MulSucc(v, size);
      assert bs[..w] == bs[..v] + [bs[v]];
      FlattenSnoc(bs[..v], bs[v]);
      assert bs[v] == WindowRecords(embeddings, chunks, lo, hi);
      AllRecordsSplit(embeddings, chunks, lo, hi);
    }
  }

  /** A prefix of the run's records extended by one window. */
  lemma AllRecordsSplit(embeddings: seq<Vector>, chunks: seq<string>, lo: nat, hi: nat)
    requires lo <= hi <= |embeddings|
    ensures AllRecords(embeddings, chunks)[..hi] ==
      AllRecords(embeddings, chunks)[..lo] + WindowRecords(embeddings, chunks, lo, hi)
  {
    var all := AllRecords(embeddings, chunks);
    var win := WindowRecords(embeddings, chunks, lo, hi);
    forall k | 0 <= k < hi
      ensures all[..hi][k] == (all[..lo] + win)[k]
    {
      if k >= lo {
        assert win[k - lo] == RecordAt(embeddings, chunks, k);
      }
    }
  }

  /** The batches of a run, concatenated in order, are the run's records: every
      position is sent exactly once, in order. */
  lemma BatchesCover(embeddings: seq<Vector>, chunks: seq<string>, size: nat)
    requires 0 < size
    ensures Flatten(Batches(embeddings, chunks, size)) == AllRecords(embeddings, chunks)
  {
    var n := |embeddings|;
    var c := WindowCount(n, size);
    BatchesPrefix(embeddings, chunks, size, c);
    assert Batches(embeddings, chunks, size)[..c] == Batches(embeddings, chunks, size);
    if c > 0 {
      WindowCountBound(n, size, c - 1);
      WindowCountBound(n, size, c);
    } else {
      WindowCountBound(n, size, 0);
    }
  }

  /** 250 records sent 100 at a time go out as batches of 100, 100 and 50. */
  lemma BatchesExample(embeddings: seq<Vector>, chunks: seq<string>)
    requires |embeddings| == 250
    ensures |Batches(embeddings, chunks, 100)| == 3
    ensures |Batches(embeddings, chunks, 100)[0]| == 100
    ensures |Batches(embeddings, chunks, 100)[1]| == 100
    ensures |Batches(embeddings, chunks, 100)[2]| == 50
    ensures Batches(embeddings, chunks, 100)[2][0].id == ChunkId(200)
  {
    assert WindowCount(250, 100) == 3;
  }
}
