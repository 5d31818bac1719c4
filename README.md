# Naive RAG ingestion: chunking, batching and file naming

This project models the original logic of two small retrieval-augmented
generation scripts. The scripts themselves mostly call hosted services. What
they compute on their own is modelled here:

- `fixed_size_chunking` in `naive-rag/main.py`. It splits the parsed document
  into windows of `chunk_size` characters whose starts lie `chunk_size - overlap`
  apart (module `Chunking`, file `chunking.dfy`).
- The rest of that script's ingestion path: joining the parsed pages into one
  markdown text, collecting one embedding per successful request, and building
  the records sent to the vector store (module `Ingest`, file `ingest.dfy`). Ids
  `chunk_<i>` need Python's decimal rendering of `i`, which is in module `Decimal`
  (file `decimal.dfy`).
- How `fetch_and_save_webpage` in `Assignment-1/Website/main.py` names the
  markdown file for a URL (module `Website`, file `website.dfy`).

The chunker is an imperative method, `Chunking.FixedSizeChunking`, with the
source's `while` loop. It is proved equal to a reference definition,
`Chunking.Chunks`: one chunk for every start position `0, d, 2d, …` below the
text length, where `d` is the stride. Lemmas about `Chunks` give the facts a
caller relies on: where chunks start, how long they are, how consecutive chunks
overlap, that every character is covered, and how many chunks there are.

Slicing follows Python exactly: a negative bound counts from the end, and both
bounds are clamped to the text (`Chunking.Slice`). So the loop is modelled for
every configuration on which it terminates, including a non-positive
`chunk_size`. The only precondition is the one termination needs:
`overlap < chunk_size`, or empty text. On empty text the source returns `[]`
for any configuration. Lemmas about chunk shape also assume `chunk_size > 0`,
and the overlap and coverage lemmas also assume `overlap >= 0`.

Characters are Dafny `char`s, which are Unicode scalar values. Python strings
are sequences of code points, so for text without lone surrogates
(U+D800 to U+DFFF) lengths and slices agree with Python's.

Some facts about the code that are easy to misread:

- The code emits one chunk per start below `N`. That makes `ceil(N / stride)`
  chunks. A trailing chunk may lie entirely inside the previous one. The 26-letter alphabet with
  size 10 and overlap 2 gives four chunks, the last being `"yz"`
  (`Chunking.AlphabetExample`).
- A `chunk_size` of at least `N` gives exactly one chunk only when the stride
  also covers the text. When `chunk_size - overlap < N`, shorter chunks follow
  the whole-text chunk (`Chunking.FirstChunkWholeText`,
  `Chunking.ShortTextExamples`: `"abcde"` with size 10 and overlap 8 gives
  `"abcde"`, `"cde"`, `"e"`).
- The overlap property holds when the later chunk has at least `overlap`
  characters. Then the earlier chunk is full and its last `overlap` characters
  are the later chunk's first (`Chunking.ConsecutiveOverlap`).
- A bad configuration is not a reported error. The loop never ends, so the model
  makes it a precondition.

## Model

| member | source | states |
|---|---|---|
| `Chunking.FixedSizeChunking` | naive-rag/main.py:37-45 | the loop result equals the reference chunk list `Chunking.Chunks`, defined independently as a sequence comprehension: one slice `text[i*stride : i*stride + chunk_size]` for each `i` with `i*stride < N`; empty text gives no chunks; it terminates whenever `overlap < chunk_size` or the text is empty |
| `Chunking.Slice` | naive-rag/main.py:42 | Python's `text[lo:hi]` is never longer than the text; its bound rules are `SliceRules` |
| `Chunking.SliceRules` | naive-rag/main.py:42 | a negative bound counts from the end and stops at the start, a bound past the end is the end, in-range bounds give `text[lo..hi]`, and bounds that meet or cross give the empty slice |
| `Chunking.SliceWindow` | naive-rag/main.py:42 | for bounds `0 <= lo < N` and `lo < hi`, Python's `text[lo:hi]` is the window from `lo` to `min(hi, N)` |
| `Chunking.NumChunks` | naive-rag/main.py:40-44 | the chunk count is `ceil(N / stride)`: zero for empty text, otherwise the `r` with `(r-1)*stride < N <= r*stride` |
| `Chunking.NumChunksCounts` | naive-rag/main.py:40-44 | start `i*stride` is below `N` exactly when `i` is below the chunk count, so there is one chunk per start below `N` |
| `Chunking.ChunkWindow` | naive-rag/main.py:39-44 | chunk `i` starts at offset `i*(chunk_size - overlap)`, inside the text, and is `text[s..min(s + chunk_size, N)]` |
| `Chunking.ChunkLength` | naive-rag/main.py:40-42 | every chunk is non-empty and holds at most `chunk_size` characters |
| `Chunking.ConsecutiveOverlap` | naive-rag/main.py:41-44 | chunk `i+1` agrees with chunk `i` from position `stride` on; if chunk `i` is full, the first `min(overlap, len(c[i+1]))` characters of chunk `i+1` are those of chunk `i` from `chunk_size - overlap`; if chunk `i+1` has at least `overlap` characters, chunk `i` is full and its last `overlap` characters are the first of chunk `i+1` |
| `Chunking.Coverage` | naive-rag/main.py:40-44 | for `0 <= overlap < chunk_size`, every index `j < N` lies inside some chunk, and that chunk holds `text[j]` at offset `j - start` |
| `Chunking.SingleChunk` | naive-rag/main.py:40-45 | if `0 <= overlap` and `0 < N <= chunk_size - overlap`, the result is exactly `[text]` |
| `Chunking.FirstChunkWholeText` | naive-rag/main.py:40-45 | if `0 < N <= chunk_size`, the first chunk is the whole text |
| `Chunking.AlphabetExample` | naive-rag/main.py:37-45 | the alphabet with size 10 and overlap 2 gives `"abcdefghij"`, `"ijklmnopqr"`, `"qrstuvwxyz"`, `"yz"` |
| `Chunking.ShortTextExamples` | naive-rag/main.py:37-45 | `"abcde"` with size 10 gives `["abcde"]` without overlap and `["abcde", "cde", "e"]` with overlap 8 |
| `Decimal.NatToDecimal` | naive-rag/main.py:132 | `f'{i}'` for `i >= 0` is a non-empty string of decimal digits that starts with `'0'` only for zero, and zero renders as exactly `"0"` |
| `Decimal.ParseRendered` | naive-rag/main.py:132 | parsing the rendered digits gives the number back |
| `Decimal.RenderInjective` | naive-rag/main.py:132 | two numbers render the same exactly when they are equal |
| `Ingest.Concat` | naive-rag/main.py:23-25 | the joined page texts have the combined length of all pages |
| `Ingest.PageAtOffset` | naive-rag/main.py:23-25 | page `i` sits in the joined text at the offset equal to the combined length of the pages before it, so the pages appear in order |
| `Ingest.BuildMarkdown` | naive-rag/main.py:23-25 | the accumulator loop yields the in-order concatenation of the page texts, whose length is the sum of the page lengths |
| `Ingest.Successes` | naive-rag/main.py:58-68 | the collected embeddings number at most the replies, and exactly as many when every request succeeded |
| `Ingest.SuccessesAllEmbedded` | naive-rag/main.py:58-68 | when every request succeeds, embedding `i` is the one returned for chunk `i` |
| `Ingest.CollectEmbeddings` | naive-rag/main.py:58-68 | the loop keeps the embedding of each status-200 reply in chunk order and skips the others |
| `Ingest.ChunkIdInjective` | naive-rag/main.py:132 | ids `chunk_i` and `chunk_j` are equal exactly when `i == j` |
| `Ingest.Zip` | naive-rag/main.py:136 | `zip` has the shorter length, and pair `k` holds the two elements at `k` |
| `Ingest.Enumerate` | naive-rag/main.py:136 | `enumerate` keeps the length and pairs element `k` with index `start + k` |
| `Ingest.VectorsToUpsert` | naive-rag/main.py:130-137 | there are `min(len(chunks), len(embeddings))` records; record `i` has id `chunk_i`, values `embeddings[i]` and metadata text `chunks[i]` |
| `Ingest.UpsertIdsDistinct` | naive-rag/main.py:130-137 | the records of one batch carry pairwise distinct ids |
| `Ingest.UploadedAsWritten` | naive-rag/main.py:130-137 | the comprehension applied to the embeddings the loop at lines 87-97 kept (which repeats 58-68): the script's batch has `min(len(chunks), number of successful replies)` records |
| `Ingest.FailedReplyMisaligns` | naive-rag/main.py:130-137 | when the first of two requests fails, chunk `"a"` is uploaded with the embedding returned for chunk `"b"` |
| `Ingest.SuccessfulIndices` | naive-rag/main.py:65-68 | the indices of successful requests are increasing, are all below `n`, have successful replies, the `k`-th of them is at least `k`, include every successful index below `n`, and number at most `n` |
| `Ingest.SuccessfulIndicesPrefix` | naive-rag/main.py:65-68 | the successful indices below `n` depend only on the first `n` replies |
| `Ingest.SuccessesAt` | naive-rag/main.py:58-68 | for every input, the filter keeps one embedding per successful reply, in reply order: embedding `k` is that of the `k`-th successful reply |
| `Ingest.UploadedAsWrittenAt` | naive-rag/main.py:130-137 | for every input, record `k` of the script's batch has id `chunk_k` and chunk `k`'s text but the embedding of the `k`-th successful reply, whose index is at least `k`, and larger than `k` when any request up to `k` failed |
| `Ingest.FailureShifts` | naive-rag/main.py:65-68 | the `k`-th successful reply lies beyond index `k` whenever any request up to `k` failed |
| `Ingest.AlignedRecords` | naive-rag/main.py:130-137 | the intended batch has at most one record per chunk that has a reply |
| `Ingest.AlignedRecordOrigin` | naive-rag/main.py:130-137 | each record of the intended batch has the id, the text and the successful embedding of one and the same chunk |
| `Ingest.AlignedKeepsEmbedded` | naive-rag/main.py:130-137 | every chunk whose request succeeded is in the intended batch with its own embedding |
| `Ingest.AlignedIdsDistinct` | naive-rag/main.py:130-137 | the intended batch carries pairwise distinct ids |
| `Ingest.AllIndicesSucceed` | naive-rag/main.py:65-68 | when every request succeeds, the successful indices are `0 .. n-1` |
| `Ingest.AlignedAgreesWhenAllEmbedded` | naive-rag/main.py:130-137 | when every request succeeds, the script's batch is the intended one |
| `Ingest.IngestionBatch` | naive-rag/main.py:23-47 | the corrected batch for the concatenated pages, chunked with size 1000 and overlap 200, has at most one record per chunk of the document |
| `Ingest.IngestedTextIsChunk` | naive-rag/main.py:34-47 | every text in the corrected batch is one of the document's chunks, of 1 to 1000 characters; by `ChunkWindow` it is the window starting at a multiple of 800 |
| `Ingest.UploadedTextIsChunk` | naive-rag/main.py:34-47 | in the script's own batch for the document, record `k` carries the text of chunk `k` |
| `Website.ReplaceChar` | Assignment-1/Website/main.py:77 | `replace` of one character keeps the length, turns each occurrence of the target into the replacement and keeps every other character |
| `Website.SanitizeUrlAt` | Assignment-1/Website/main.py:77 | `SanitizeUrl`, the chain `url.replace("/", "_").replace(":", "_")`: after both replacements the length is unchanged, `/` and `:` have become `_`, everything else is kept, and no `/` or `:` is left |
| `Website.FileName` | Assignment-1/Website/main.py:77 | the file name has length `len(url) + 3`, ends in `.md`, holds the sanitised URL before that, and contains no `/` and no `:` |
| `Website.SanitizeIdempotent` | Assignment-1/Website/main.py:77 | sanitising twice is the same as sanitising once |
| `Website.ReplaceOrderIrrelevant` | Assignment-1/Website/main.py:77 | replacing `:` first and `/` second gives the same string |
| `Website.FileNameCollision` | Assignment-1/Website/main.py:77 | two URLs get the same file name exactly when they have the same length and agree once `/` and `:` are read as `_` |
| `Website.FileNameNotInjective` | Assignment-1/Website/main.py:77 | `"a/b"`, `"a:b"` and `"a_b"` all become `"a_b.md"` |
| `Website.FetchAndSave` | Assignment-1/Website/main.py:72-77 | a status other than 200, and only such a status, is a failure that carries it; after status 200 the saved name has length `len(url) + 3`, ends in `.md`, has `_` where the URL has `/` or `:` and the URL's character elsewhere, and contains no `/` and no `:` |

## Findings

| source | as written | input that shows it | evidently intended | confidence | as-written member | corrected member |
|---|---|---|---|---|---|---|
| naive-rag/main.py:94-97, 130-137 | A failed embedding request is skipped, so `embedded_chunks` becomes shorter than `chunks`. `zip` then pairs each later chunk with the embedding of a later chunk, one place further on per earlier failure, and the last chunks are dropped. | chunks `["a", "b"]`, first request answers 500, second succeeds with `e`: the batch is `chunk_0` with text `"a"` and values `e`, the embedding of `"b"` | the failed chunk is left out and every other chunk keeps its own embedding | not executed | `Ingest.FailedReplyMisaligns` | `Ingest.AlignedRecords` |

`Ingest.IngestionBatch` builds the batch from the concatenated pages with the
script's configuration. It uses the corrected pairing. `Ingest.UploadedAsWrittenAt`
states the script's pairing for every input. `Ingest.AlignedAgreesWhenAllEmbedded`
shows that the corrected batch equals the script's batch whenever every
request succeeds.

## Left out

- Parsing the PDF through LlamaParse and SimpleDirectoryReader (naive-rag/main.py:12-21): foreign library calls. The model starts from the list of page texts.
- Writing `output.md` and `embedded_chunks.json` (naive-rag/main.py:27-28, 70-77, 102-113): file I/O.
- The HTTP requests to the embedding service (naive-rag/main.py:51-68, 80-99): network. Each request's outcome is a parameter, a `Reply` holding either the embedding or the status code. The second embedding loop (87-97) behaves like the first, so one model covers both.
- Creating the Pinecone index and the upsert call (naive-rag/main.py:116-140): remote vector store. The model stops at the list of records.
- The web page fetch (Assignment-1/Website/main.py:72): network. Its status code is a parameter of `Website.FetchAndSave`.
- Creating the output directory, `os.path.join` and the file write (Assignment-1/Website/main.py:69, 78-84): filesystem and platform path rules. `Website.FetchAndSave` returns the file name, not the joined path.
- The embedding and LLM configuration with its fallback provider (Assignment-1/Website/main.py:16-34): SDK initialisation.
- `create_rag_system` and `query_rag` (Assignment-1/Website/main.py:36-64): thin wrappers over llama_index and Qdrant.
- The interactive `input()` loop with its `quit` sentinel (Assignment-1/Website/main.py:86-104): user interface and Unicode `lower()`.
- Console output (the prints at naive-rag/main.py:30, 48, 68, 77, 97, 99, 113, 142 and Assignment-1/Website/main.py:23, 92, 104): logging only.
- Embedding vectors: floating-point data. They are opaque values of a type parameter and are never inspected.
- Determinism of the chunker: not stated as a lemma. Every Dafny function is deterministic, and the method is proved equal to one.
- `Chunking.FixedSizeChunking`: does not model a run with `overlap >= chunk_size` on non-empty text. The source loops forever there, so this case is a precondition.
