# PDF ingestion pipeline: a verified Dafny model

This project models the ingestion half of `index.js`, the script that turns
a PDF into records of a vector index. Once the text has been extracted, the
script does three things:

1. **Chunking (`chunkText`).** It cuts the text into "sentences" with the
   regular expression `/[^\.!\?]+[\.!\?]+/g`. It then packs the sentences
   greedily, in order, into chunks of at most 300 characters. The bound is
   soft: a sentence longer than the limit becomes a chunk of its own.
2. **Embedding waves (`processPDF`).** It embeds the chunks ten at a time.
   Each wave's vectors are appended in order. If any embedding fails, the run
   stops before anything is written to the index.
3. **Batched upsert (`upsertToPinecone`).** It cuts the records into windows
   of 100 and upserts one window per call. Record `k` has id `chunk-k`, the
   vector of chunk `k` and metadata text chunk `k`. A failed call is logged
   and the loop moves on to the next window.

The model is written in the form of the source. The three loops are methods
with `while`/`for` loops and invariants. Each method is proved against a
function that specifies it:

- `Chunker.ChunkText` is proved against `Chunks(Sentences(text), maxTokens)`.
- `Embedding.EmbedChunks` is proved against the embedder itself: its result is
  stated chunk by chunk in terms of `embed`, and its failures through
  `FirstFailure`. One wave is the function `EmbedWave`.
- `VectorStore.UpsertToIndex` is proved against `Batches` and `Accepted`.

The remote index is the class `VectorStore.VectorIndex`. It holds a map from
id to record, plus a ghost log of the batches sent to it. The properties the
script relies on are proved as lemmas about those functions.

Modules:

- `Wrappers`: `Option` and `Result`.
- `Seqs`: concatenation of a sequence of sequences (`Flatten`) and its algebra.
- `Chunker`: the splitter `Sentences`/`Matches`, the packing specification
  `Groups`/`Chunks`, and the method `ChunkText`.
- `Records`: decimal ids, records, windows and batches.
- `VectorStore`: id-keyed contents, the class `VectorIndex`, and the upsert loop.
- `Embedding`: one wave (`EmbedWave`) and the wave loop (`EmbedChunks`).
- `Pipeline`: `ProcessText`, the whole run from the extracted text on.

Some behaviours of the code are easy to misread; the model follows the code:

- **Leading whitespace is kept.** Sentences keep the whitespace in front of
  them, so `"A. B. C."` with a limit of 3 gives `"A."`, `" B."` and `" C."`
  (`Chunker.ChunkExample`). One might expect `"A."`, `"B."`, `"C."`, but the
  regular expression keeps the space before each sentence.
- **The first chunk can be empty.** Contrary to what one might expect, a
  chunk can be `""`: when the first sentence is longer than the limit, the
  loop pushes the empty initial buffer. So the first chunk is `""` exactly in that case
  (`Chunker.ChunksNonEmpty`, `Chunker.EmptyFirstChunkExample`). Every later
  chunk is non-empty.
- **Text after the last terminal run is dropped** (`Chunker.SentencesDropTail`).
  So are terminal characters that no non-terminal run precedes
  (`Chunker.SentencesSkipLead`).
- **Upsert failures are swallowed.** A failed window is skipped and the later
  windows are still sent: the loop catches the error, logs it and goes on. The failed
  window numbers, which the script only logs, are returned by the model.

## Model

| member | source | states |
|---|---|---|
| Chunker.IsTerminal | index.js:29 | the character class `[\.!\?]`: `.`, `!` and `?`, and nothing else; used by `RunLength` and `IsSentence` |
| Chunker.RunLength | index.js:29 | the length of the maximal prefix of one character class, never beyond the text; specified by `RunLengthMaximal` and `RunLengthUnique` |
| Chunker.Sentences | index.js:29 | `text.match(/[^\.!\?]+[\.!\?]+/g) \|\| []`: the matches in order, after skipping leading terminals; specified by `SentencesWellFormed`, `SentencesEmpty`, `SentencesCover`, `SentencesDropTail`, `SentencesSkipLead` |
| Chunker.Matches | index.js:29 | the matches from a non-terminal start: maximal non-terminal run plus maximal terminal run, then the search resumes; specified by `MatchesWellFormed`, `MatchesDropTail`, `MatchesAt` |
| Chunker.Groups | index.js:30-46 | the sentences each pushed chunk and the final buffer hold; there is always at least the buffer; specified by `GroupsPartition`, `GroupsFit`, `GroupsGreedy`, `GroupsNonEmpty`, `GroupsFirstEmpty` |
| Chunker.Chunks | index.js:30-46 | the chunks `chunkText` returns, each group's sentences concatenated; specified by `ChunksConcat`, `ChunksBound`, `ChunksGreedy`, `ChunksNonEmpty`, `ChunksNone`, and computed by `ChunkText` |
| Chunker.RunLengthMaximal | index.js:29 | the run length is that of the maximal run: every character before it is of the class, the one at it is not |
| Chunker.SentencesWellFormed | index.js:29 | every match is a non-empty non-terminal run followed by a non-empty terminal run |
| Chunker.MatchesWellFormed | index.js:29 | the same, for the matches found from a non-terminal start |
| Chunker.MatchIsSentence | index.js:29 | one maximal non-terminal run plus the terminal run after it form a sentence |
| Chunker.RunLengthUnique | index.js:29 | a maximal run of the class pins down the run length |
| Chunker.RunLengthAppend | index.js:29 | the run length of a concatenation, from the run lengths of its parts |
| Chunker.SentencesEmpty | index.js:29 | no match (the `\|\| []` case) exactly when no terminal character follows a non-terminal one |
| Chunker.SentencesCover | index.js:29 | the matches concatenate to the whole text exactly when the text is empty or starts with a non-terminal and ends with a terminal |
| Chunker.SentencesCoverFramed | index.js:29 | if the matches cover a non-empty text, it starts with a non-terminal and ends with a terminal |
| Chunker.SentencesCoverWellFramed | index.js:29 | a text that starts with a non-terminal and ends with a terminal is covered by its matches |
| Chunker.SentencesDropTail | index.js:29 | an unterminated trailing fragment changes no match |
| Chunker.MatchesDropTail | index.js:29 | the same, for the matches found from a non-terminal start |
| Chunker.SentencesSkipLead | index.js:29 | leading terminal characters change no match |
| Chunker.MatchesAt | index.js:29 | a match with given extent is the first match, and the search resumes after it |
| Chunker.SentencesFromNonTerminal | index.js:29 | a text starting with a non-terminal is searched from its first character |
| Chunker.FirstMatchExtent | index.js:29 | m non-terminals then one terminal, followed by the end or a non-terminal: the match spans m + 1 characters |
| Chunker.SentenceThen | index.js:29 | m non-terminals then one terminal, followed by the end or a non-terminal, form the first match |
| Chunker.SentencesNone | index.js:29 | the empty text has no match |
| Chunker.SentencesExampleABC | index.js:29 | `"A. B. C."` splits into `"A."`, `" B."`, `" C."`, leading spaces kept |
| Chunker.SentencesOfThree | index.js:29 | the same text, given character by character |
| Chunker.SentencesOfTwo | index.js:29 | `" B. C."` splits into its two sentences |
| Chunker.SentencesOfOne | index.js:29 | `" C."` is one sentence |
| Chunker.SentencesExampleHello | index.js:29 | `"Hello."` is one sentence |
| Chunker.GroupsPartition | index.js:33-40 | the groups of sentences concatenate to the sentences, in order: none lost, duplicated or moved |
| Chunker.GroupsNonEmpty | index.js:31-44 | only the first group can be empty; with a sentence, the final buffer is non-empty |
| Chunker.GroupsFit | index.js:34-39 | a group of two or more sentences fits within `maxTokens` |
| Chunker.GroupsGreedy | index.js:34-36 | each later group is non-empty, and its first sentence did not fit after the group before it |
| Chunker.GroupsFirstEmpty | index.js:31-36 | the first group is empty exactly when the first sentence alone exceeds `maxTokens` |
| Chunker.ChunksConcat | index.js:29-46 | the chunks concatenate to the sentences concatenated in order |
| Chunker.ChunksBound | index.js:33-39 | every chunk is within `maxTokens`, or is exactly one sentence of the text, or is the empty first chunk |
| Chunker.ChunksNonEmpty | index.js:31-44 | later chunks are non-empty; the first is `""` exactly when the first sentence exceeds `maxTokens` |
| Chunker.ChunksGreedy | index.js:34-36 | each later chunk starts with a sentence of the text that did not fit after the chunk before it |
| Chunker.ChunksNone | index.js:29-46 | no chunk exactly when the text has no sentence (empty, or no terminal after a non-terminal) |
| Chunker.PackStep | index.js:33-40 | one loop iteration takes the chunks and buffer of the first i sentences to those of the first i + 1 |
| Chunker.ChunkText | index.js:28-47 | the loop returns `Chunks(Sentences(text), maxTokens)`, whose properties are the lemmas above; the default limit 300 of index.js:28 is `Chunker.DefaultMaxTokens`, which `ProcessText` passes |
| Chunker.ChunksSingletons | index.js:34-39 | when the first sentence fits and no two consecutive sentences fit together, each sentence is its own chunk |
| Chunker.ChunksOfThree | index.js:34-39 | sentences of 2, 3 and 3 characters under a limit of 3 stay apart |
| Chunker.ChunksOfLongOne | index.js:31-44 | one sentence over the limit gives the chunks `""` and that sentence |
| Chunker.ChunkExample | index.js:28-47 | `"A. B. C."` with limit 3 gives three chunks, one per sentence, leading spaces kept |
| Chunker.EmptyFirstChunkExample | index.js:31-44 | `"Hello."` with limit 3 gives the chunks `""` and `"Hello."` |
| Records.Decimal | index.js:87 | the decimal rendering of k in the template literal, all digits; specified by `DecimalRoundTrip` and `ParseRoundTrip` |
| Records.ChunkId | index.js:87 | the id `chunk-${k}`; specified by `ChunkIdRoundTrip`, `ParseChunkIdRoundTrip`, `ChunkIdInjective` |
| Records.RecordAt | index.js:86-90 | the record of position k: id `chunk-k`, vector k, text chunk k or none; specified by `AllRecordsAligned` |
| Records.WindowRecords | index.js:83-90 | the `vectorsArray` of positions lo .. hi - 1; specified by `AllRecordsSplit` and `PutWindow` |
| Records.AllRecords | index.js:86-90 | every record of a run by position; specified by `AllRecordsAligned`, `AllRecordsDistinct`, `BatchesCover` |
| Records.WindowCount | index.js:82 | how often the loop body runs; specified by `WindowCountBound` |
| Records.Windows | index.js:82-84 | the windows [i, min(i + size, n)); specified by `WindowsNonEmpty`, `WindowsContiguous`, `WindowsCover` and tied to the batches by `BatchesWindows` |
| Records.BatchAt | index.js:83-90 | the batch of window w; specified by `BatchesWindows` |
| Records.Batches | index.js:82-90 | the batches of one run in the order sent; specified by `BatchesWindows`, `BatchesPrefix`, `BatchesCover` |
| Records.DecimalRoundTrip | index.js:87 | the decimal rendering of k is canonical and reads back as k |
| Records.ParsePositive | index.js:87 | a numeral with a non-zero leading digit denotes a positive number |
| Records.ParseRoundTrip | index.js:87 | every canonical numeral is the rendering of the number it denotes |
| Records.ChunkIdRoundTrip | index.js:87 | `chunk-k` parses back to k |
| Records.ParseChunkIdRoundTrip | index.js:87 | an id that parses to k is `chunk-k` |
| Records.ChunkIdInjective | index.js:87 | two positions get the same id exactly when they are equal |
| Records.ChunkIdsDistinct | index.js:87 | ids of distinct positions differ |
| Records.AllRecordsAligned | index.js:86-90 | record k has the vector of position k, an id naming k, and chunk k as text (or none past the end of the chunks) |
| Records.AllRecordsDistinct | index.js:86-90 | no two records of a run share an id |
| Records.DivWindow | index.js:82-84 | position k lies in window [w·size, w·size + size) exactly when k / size == w |
| Records.WindowCountBound | index.js:82 | the loop body runs for window w exactly when w·size < n: ceil(n / size) windows |
| Records.WindowsNonEmpty | index.js:82-84 | there is no window exactly when n == 0; every window is non-empty |
| Records.WindowsContiguous | index.js:82-84 | windows start at 0, each starts where the last ended, all but the last hold `size` positions, the last ends at n |
| Records.WindowOf | index.js:92-97 | the window number `i / batchSize` of a position, as the log lines compute it; specified by `DivWindow` and `WindowsCover` |
| Records.WindowsCover | index.js:82-84 | every position lies in exactly one window, window p / size (`Records.WindowOf`) |
| Records.WindowsExample | index.js:82-84 | 250 positions in windows of 100: [0,100), [100,200), [200,250) |
| Records.BatchesWindows | index.js:82-90 | there is one batch per window, and batch w holds the records of window w, in order |
| Records.BatchesPrefix | index.js:82-90 | the first w batches concatenate to the records of the positions they cover |
| Records.AllRecordsSplit | index.js:83-90 | the records up to hi are those up to lo followed by the window [lo, hi) |
| Records.BatchesCover | index.js:82-90 | the batches concatenate, in order, to all records of the run: every position sent exactly once |
| Records.BatchesExample | index.js:82-90 | 250 records at 100 per batch go out as batches of 100, 100 and 50, the third starting at `chunk-200` |
| VectorStore.Put | index.js:94 | one successful upsert: every record written under its id, later ones replacing earlier; specified by `PutSnoc` and `PutWindow` |
| VectorStore.RangeMap | index.js:86-94 | the records of positions lo .. hi - 1 keyed by id; specified by `RangeMapLookup` |
| VectorStore.AcceptedUpTo | index.js:92-98 | the records among the first hi positions whose window succeeded; specified by `AcceptedLookup` and `AcceptedStep` |
| VectorStore.Accepted | index.js:92-98 | what one run writes; specified by `AcceptedContents`, `AcceptedAll`, `RetryUnion` |
| VectorStore.FailedWindows | index.js:96-97 | the window numbers the loop logs as failed; specified by `FailedWindowsSpec` |
| VectorStore.IdsBelowLookup | index.js:87 | the ids of the first hi positions are exactly the ids that name a position below hi |
| VectorStore.RangeMapLookup | index.js:86-94 | a window's records, keyed by id, hold exactly the ids of the window's positions, each with its own record |
| VectorStore.AcceptedLookup | index.js:93-98 | the accepted records hold exactly the ids of positions whose window succeeded, each with its own record |
| VectorStore.RangeMapSnoc | index.js:86-90 | extending a window by one position adds that position's record |
| VectorStore.PutWindow | index.js:94 | upserting a window's batch adds exactly that window's records to the index |
| VectorStore.PutSnoc | index.js:94 | upserting one more record writes it under its id |
| VectorStore.AcceptedStep | index.js:93-98 | window w adds its records when its upsert succeeds, and nothing when it fails |
| VectorStore.AcceptedContents | index.js:82-98 | after a run the index holds record k exactly when k's window succeeded, and no other id of the run |
| VectorStore.AcceptedAll | index.js:93-95 | with no failure, every record of the run is in the index |
| VectorStore.AcceptedUnion | index.js:93-98 | the records accepted by two runs are those of the windows accepted by either |
| VectorStore.RetryUnion | index.js:93-98 | a second run after partial failure leaves the index as one run accepting every window accepted in either |
| VectorStore.RunTwice | index.js:86-94 | upserting the same run twice leaves the index as upserting it once |
| VectorStore.FailedWindowsSpec | index.js:92-97 | the failed window numbers (counted from one) are exactly the failed windows, in increasing order |
| VectorStore.VectorIndex.constructor | index.js:78 | opening the index: it holds what it already held, and no call has been made through it yet |
| VectorStore.VectorIndex.Upsert | index.js:94-97 | a successful call writes the batch by id; a failed call leaves the contents as they were; the call is logged either way |
| VectorStore.RecordsStep | index.js:93-98 | one turn of the loop keeps the index equal to its initial contents plus the accepted records of the windows sent |
| VectorStore.UpsertToIndex | index.js:77-100 | one call per window, in order, all windows attempted; the index gains exactly the records of the accepted windows; returns the failed window numbers |
| Embedding.EmbedAll | index.js:113-118 | the vectors of all chunks in order, when every chunk embeds; `EmbedChunks` returns it |
| Embedding.FirstFailure | index.js:113-118 | chunk k failed with that error and every chunk of the waves before its own was embedded; established by `WaveFailure` |
| Embedding.EmbedWave | index.js:117 | the wave succeeds exactly when every call does, with the vectors in input order; otherwise its error is that of a failed call |
| Embedding.WaveFailure | index.js:113-117 | a failure in the wave starting at i is a failing chunk whose earlier waves all succeeded |
| Embedding.EmbedChunks | index.js:112-121 | success exactly when every chunk embeds, with vector k the embedding of chunk k; on failure, the error of a failing chunk, all earlier waves embedded; waves are `Embedding.EmbeddingBatchSize` (10, index.js:112) chunks long |
| Pipeline.ProcessText | index.js:103-125 | a run fails before any upsert exactly when a chunk fails to embed; otherwise all windows are sent, failures returned, and each accepted chunk's record carries its own id, vector and text; chunks use `Chunker.DefaultMaxTokens` (300) and windows `Pipeline.UpsertBatchSize` (100, index.js:124) |

## Left out

- PDF extraction and file reading (`extractTextFromPDF`, `fs.readFileSync`, index.js:22-25 and :104) are foreign library and file I/O. `ProcessText` takes the extracted text as input.
- `getEmbeddings` (index.js:50-74) spawns a Python process, parses its output as JSON and settles on the first of three racing events. It is replaced by an arbitrary total function from chunk to vector or error message. Such a function cannot express a call that never settles: when the process exits with code 0 and writes nothing to stdout or stderr, neither `resolve` nor `reject` runs (index.js:55-72); `processPDF` never resumes, and the script ends without an upsert or an error. When the process's stdout arrives in several `data` events, a first partial event makes `JSON.parse` throw and the call rejects (index.js:56-61). A total embedder can return that rejection as a `Failure`, but the model cannot express that the outcome then depends on how the pipe splits the output rather than on the chunk text. get_embeddings.py is not part of this model.
- `Promise.all` runs the calls of a wave concurrently (index.js:117). The model evaluates them in order. Only the order-preserving result is kept.
- EmbedWave: `Promise.all` rejects with whichever rejection comes first in time. The model returns the first failure in input order, so its contract says only that the error is that of some failed call.
- EmbedChunks: for the same reason, its contract names some failing chunk of the first failing wave, not a particular one.
- The Pinecone client (index.js:17-19, :78) and the network side of `index.upsert` are not modelled. The index is a map from id to record. Whether each call succeeds is the parameter `accepts`, one outcome per window.
- VectorStore.VectorIndex.Upsert: a failed call is assumed to write nothing. The remote service's behaviour on partial failure is unknown.
- Upsert of a record whose text is `undefined`: the model keeps it as `None`. This happens only when there are more vectors than chunks, which `ProcessText` never produces.
- UpsertToIndex: `batchSize` must be positive. With `batchSize == 0` and at least one vector, the JavaScript loop never ends.
- `queryPinecone` (index.js:128-138), the query side, chat.js and the top-level script (index.js:148-154) are not part of this model. They are network glue.
- Console logging is left out. The exception is the failed window numbers, which `UpsertToIndex` returns instead of printing. The error messages themselves are also left out.
- Vectors are sequences of reals and are treated as opaque. Their floating-point values play no role.
- Chunker.ChunkText: a JavaScript string's `length` counts UTF-16 code units. The model counts Dafny characters, so the two counts differ for characters outside the Basic Multilingual Plane.
- The constant 300 is `chunkText`'s default `maxTokens` (`Chunker.DefaultMaxTokens`). `ChunkText` itself takes the limit as a parameter.
