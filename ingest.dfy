/** The ingestion script around the chunker (naive-rag/main.py): concatenating
    the parsed pages, collecting one embedding per successful request, and
    building the records handed to the vector store. */
module Ingest {
  import Chunking
  import Decimal

  /** Configuration of the script. */
  const ChunkSize: int := 1000
  const Overlap: int := 200

  /** A parsed page; the script reads only its text. */
  datatype Page = Page(text: string)

  /** The outcome of one embedding request: the first embedding of a response
      with status 200, or, for any other response, its status code, which is
      then never 200. */
  datatype Reply<E> = Embedded(embedding: E) | Failed(statusCode: int)

  datatype Metadata = Metadata(text: string)

  /** One vector-store record: id, vector and the chunk text as metadata. */
  datatype UpsertRecord<E> = UpsertRecord(id: string, values: E, metadata: Metadata)

  // ---------------------------------------------------------------- pages

  function TotalLength(pages: seq<Page>): nat
  {
    if |pages| == 0 then 0 else TotalLength(pages[..|pages| - 1]) + |pages[|pages| - 1].text|
  }

  /** The page texts one after another, in page order. */
  function Concat(pages: seq<Page>): (r: string)
    ensures |r| == TotalLength(pages)
  {
    if |pages| == 0 then "" else Concat(pages[..|pages| - 1]) + pages[|pages| - 1].text
  }

  /** Page i occupies the positions from the combined length of the pages before
      it up to the combined length of the pages up to and including it. */
  lemma {:induction false} PageAtOffset(pages: seq<Page>, i: nat)
    requires i < |pages|
    ensures TotalLength(pages[..i]) + |pages[i].text| == TotalLength(pages[..i + 1]) <= |Concat(pages)|
    ensures Concat(pages)[TotalLength(pages[..i])..TotalLength(pages[..i + 1])] == pages[i].text
  {
    var last := |pages| - 1;
    var init := pages[..last];
    assert pages[..i + 1][..i] == pages[..i];
    if i == last {
      assert pages[..i + 1] == pages;
      assert init == pages[..i];
    } else {
      PageAtOffset(init, i);
      assert init[..i] == pages[..i];
      assert init[..i + 1] == pages[..i + 1];
    }
  }

  /** The md_text loop: append each page's text to an accumulator. */
  method BuildMarkdown(pages: seq<Page>) returns (mdText: string)
    ensures mdText == Concat(pages)
    ensures |mdText| == TotalLength(pages)
  {
    mdText := "";
    for i := 0 to |pages|
      invariant mdText == Concat(pages[..i])
    {
      assert pages[..i + 1][..i] == pages[..i];
      mdText := mdText + pages[i].text;
    }
    assert pages[..|pages|] == pages;
  }

  // ----------------------------------------------------------- embeddings

  predicate AllEmbedded<E>(replies: seq<Reply<E>>)
  {
    forall k :: 0 <= k < |replies| ==> replies[k].Embedded?
  }

  /** The embeddings of the successful replies, in order; failed replies are
      skipped. */
  function Successes<E>(replies: seq<Reply<E>>): (r: seq<E>)
    ensures |r| <= |replies|
    ensures |r| == |replies| <==> AllEmbedded(replies)
  {
    if |replies| == 0 then []
    else
      var init := Successes(replies[..|replies| - 1]);
      assert AllEmbedded(replies) ==> AllEmbedded(replies[..|replies| - 1]);
      match replies[|replies| - 1]
      case Embedded(e) => init + [e]
      case Failed(_) => init
  }

  /** When every request succeeds, the i-th embedding is the i-th chunk's. */
  lemma {:induction false} SuccessesAllEmbedded<E>(replies: seq<Reply<E>>, i: nat)
    requires AllEmbedded(replies) && i < |replies|
    ensures |Successes(replies)| == |replies| && Successes(replies)[i] == replies[i].embedding
  {
    var last := |replies| - 1;
    assert AllEmbedded(replies[..last]);
    if i < last {
      SuccessesAllEmbedded(replies[..last], i);
    }
  }

  /** The embedding loop: post each chunk, keep the embedding of a status-200
      response and skip the chunk otherwise. The requests themselves are not
      modelled; replies[i] is the outcome for chunks[i]. */
  method CollectEmbeddings<E>(replies: seq<Reply<E>>) returns (embedded: seq<E>)
    ensures embedded == Successes(replies)
  {
    embedded := [];
    for i := 0 to |replies|
      invariant embedded == Successes(replies[..i])
    {
      assert replies[..i + 1][..i] == replies[..i];
      if replies[i].Embedded? {
        embedded := embedded + [replies[i].embedding];
      }
    }
    assert replies[..|replies|] == replies;
  }

  // -------------------------------------------------------------- records

  /** The record id f'chunk_{i}'. */
  function ChunkId(i: nat): string
  {
    "chunk_" + Decimal.NatToDecimal(i)
  }

  /** Distinct indices give distinct ids, so no record overwrites another. */
  lemma ChunkIdInjective(i: nat, j: nat)
    ensures ChunkId(i) == ChunkId(j) <==> i == j
  {
    if ChunkId(i) == ChunkId(j) {
      assert ChunkId(i)[6..] == Decimal.NatToDecimal(i);
      assert ChunkId(j)[6..] == Decimal.NatToDecimal(j);
      Decimal.RenderInjective(i, j);
    }
  }

  /** Python's zip: pairs up to the shorter length. */
  function Zip<A, B>(a: seq<A>, b: seq<B>): (r: seq<(A, B)>)
    ensures |r| == Chunking.Min(|a|, |b|)
    ensures forall k :: 0 <= k < |r| ==> r[k] == (a[k], b[k])
  {
    if |a| == 0 || |b| == 0 then [] else [(a[0], b[0])] + Zip(a[1..], b[1..])
  }

  /** Python's enumerate: each element with its index. */
  function Enumerate<T>(s: seq<T>, start: nat): (r: seq<(nat, T)>)
    ensures |r| == |s|
    ensures forall k :: 0 <= k < |r| ==> r[k] == (start + k, s[k])
  {
    if |s| == 0 then [] else [(start, s[0])] + Enumerate(s[1..], start + 1)
  }

  function MakeRecord<E>(entry: (nat, (string, E))): UpsertRecord<E>
  {
    UpsertRecord(ChunkId(entry.0), entry.1.1, Metadata(entry.1.0))
  }

  /** vectors_to_upsert: one record per pair of zip(chunks, embeddings). Record i
      is chunk_i with the i-th embedding and the i-th chunk text. */
  function VectorsToUpsert<E>(chunks: seq<string>, embeddings: seq<E>): (r: seq<UpsertRecord<E>>)
    ensures |r| == Chunking.Min(|chunks|, |embeddings|)
    ensures forall i :: 0 <= i < |r| ==>
      r[i] == UpsertRecord(ChunkId(i), embeddings[i], Metadata(chunks[i]))
  {
    var entries := Enumerate(Zip(chunks, embeddings), 0);
    seq(|entries|, k requires 0 <= k < |entries| => MakeRecord(entries[k]))
  }

  /** Records of one upsert batch carry pairwise distinct ids. */
  lemma UpsertIdsDistinct<E>(chunks: seq<string>, embeddings: seq<E>, i: nat, j: nat)
    requires i < j < |VectorsToUpsert(chunks, embeddings)|
    ensures VectorsToUpsert(chunks, embeddings)[i].id != VectorsToUpsert(chunks, embeddings)[j].id
  {
    ChunkIdInjective(i, j);
  }

  // ------------------------------------- pairing chunks with their replies

  /** What the script uploads: the filtered embeddings zipped with all chunks. */
  function UploadedAsWritten<E>(chunks: seq<string>, replies: seq<Reply<E>>): (r: seq<UpsertRecord<E>>)
    ensures |r| == Chunking.Min(|chunks|, |Successes(replies)|)
  {
    VectorsToUpsert(chunks, Successes(replies))
  }

  /** One failed request shifts every later embedding onto an earlier chunk:
      with the first request failing, chunk "a" is uploaded with the embedding
      of chunk "b". */
  lemma FailedReplyMisaligns<E>(e: E)
    ensures UploadedAsWritten(["a", "b"], [Failed(500), Embedded(e)])
         == [UpsertRecord(ChunkId(0), e, Metadata("a"))]
  {
    var replies: seq<Reply<E>> := [Failed(500), Embedded(e)];
    assert replies[..1] == [Failed(500)];
    assert replies[..1][..0] == [];
    assert Successes(replies) == [e];
  }

  /** The indices below n whose request succeeded, in increasing order. */
  function SuccessfulIndices<E>(replies: seq<Reply<E>>, n: nat): (r: seq<nat>)
    requires n <= |replies|
    ensures |r| <= n
    ensures forall k :: 0 <= k < |r| ==> k <= r[k] < n && replies[r[k]].Embedded?
    ensures forall k, l :: 0 <= k < l < |r| ==> r[k] < r[l]
    ensures forall i :: 0 <= i < n && replies[i].Embedded? ==> i in r
  {
    if n == 0 then []
    else SuccessfulIndices(replies, n - 1) + (if replies[n - 1].Embedded? then [n - 1] else [])
  }

  /** The successful indices below n depend only on the first n replies. */
  lemma {:induction false} SuccessfulIndicesPrefix<E>(replies: seq<Reply<E>>, n: nat, m: nat)
    requires n <= m <= |replies|
    ensures SuccessfulIndices(replies[..m], n) == SuccessfulIndices(replies, n)
  {
    if n > 0 {
      SuccessfulIndicesPrefix(replies, n - 1, m);
    }
  }

  /** The filter keeps exactly the embeddings of the successful replies, in
      reply order: its k-th embedding is that of the k-th successful reply. */
  lemma {:induction false} SuccessesAt<E>(replies: seq<Reply<E>>)
    ensures var idx := SuccessfulIndices(replies, |replies|);
      |Successes(replies)| == |idx| &&
      forall k :: 0 <= k < |idx| ==> Successes(replies)[k] == replies[idx[k]].embedding
  {
    var n := |replies|;
    if n > 0 {
      var init := replies[..n - 1];
      var last := replies[n - 1];
      SuccessesAt(init);
      SuccessfulIndicesPrefix(replies, n - 1, n - 1);
      var prev := SuccessfulIndices(replies, n - 1);
      assert SuccessfulIndices(init, |init|) == prev;
      var succ, idx := Successes(replies), SuccessfulIndices(replies, n);
      assert succ == Successes(init) + (if last.Embedded? then [last.embedding] else []);
      assert idx == prev + (if last.Embedded? then [n - 1] else []);
      forall k | 0 <= k < |idx| ensures succ[k] == replies[idx[k]].embedding {
        if k < |prev| {
          assert succ[k] == Successes(init)[k];
          assert idx[k] == prev[k] < n - 1;
          assert init[prev[k]] == replies[prev[k]];
        }
      }
    }
  }

  /** In a strictly increasing sequence, entries k - j places apart differ by
      at least k - j. */
  lemma {:induction false} IndexGap(idx: seq<nat>, j: nat, k: nat)
    requires forall a, b :: 0 <= a < b < |idx| ==> idx[a] < idx[b]
    requires j <= k < |idx|
    ensures idx[k] - idx[j] >= k - j
    decreases k - j
  {
    if j < k {
      IndexGap(idx, j + 1, k);
    }
  }

  /** The k-th successful reply is reply k itself only if no request up to it
      failed. */
  lemma FailureShifts<E>(replies: seq<Reply<E>>, k: nat)
    requires k < |SuccessfulIndices(replies, |replies|)|
    ensures var idx := SuccessfulIndices(replies, |replies|);
      forall j :: 0 <= j <= k && j < |replies| && replies[j].Failed? ==> k < idx[k]
  {
    var idx := SuccessfulIndices(replies, |replies|);
    if idx[k] == k {
      forall j | 0 <= j <= k ensures replies[j].Embedded? {
        IndexGap(idx, j, k);
        assert idx[j] == j;
      }
    }
  }

  /** For every input, record k of the script's batch carries chunk k's id and
      text but the embedding of the k-th successful reply, whose index is at
      least k and exceeds k once an earlier request failed. */
  lemma UploadedAsWrittenAt<E>(chunks: seq<string>, replies: seq<Reply<E>>, k: nat)
    requires k < |UploadedAsWritten(chunks, replies)|
    ensures var idx := SuccessfulIndices(replies, |replies|);
      k < |idx| && k <= idx[k] &&
      UploadedAsWritten(chunks, replies)[k] == UpsertRecord(ChunkId(k), replies[idx[k]].embedding, Metadata(chunks[k]))
    ensures var idx := SuccessfulIndices(replies, |replies|);
      forall j :: 0 <= j <= k && j < |replies| && replies[j].Failed? ==> k < idx[k]
  {
    SuccessesAt(replies);
    FailureShifts(replies, k);
  }

  /** The intended batch: chunk i is uploaded as chunk_i with its own embedding
      when its request succeeded, and is left out when it failed. */
  function AlignedRecords<E>(chunks: seq<string>, replies: seq<Reply<E>>): (r: seq<UpsertRecord<E>>)
    ensures |r| <= Chunking.Min(|chunks|, |replies|)
  {
    var idx := SuccessfulIndices(replies, Chunking.Min(|chunks|, |replies|));
    seq(|idx|, k requires 0 <= k < |idx| =>
      UpsertRecord(ChunkId(idx[k]), replies[idx[k]].embedding, Metadata(chunks[idx[k]])))
  }

  /** Every record of the intended batch carries the text, the index and the
      embedding of one and the same chunk, and that chunk's request succeeded. */
  lemma AlignedRecordOrigin<E>(chunks: seq<string>, replies: seq<Reply<E>>, k: nat)
    requires k < |AlignedRecords(chunks, replies)|
    ensures var r := AlignedRecords(chunks, replies)[k];
      exists i :: 0 <= i < |chunks| && i < |replies| && replies[i] == Embedded(r.values) &&
        r.id == ChunkId(i) && r.metadata.text == chunks[i]
  {
    var idx := SuccessfulIndices(replies, Chunking.Min(|chunks|, |replies|));
    assert idx[k] < |chunks| && idx[k] < |replies|;
  }

  /** Every chunk whose request succeeded reaches the intended batch. */
  lemma AlignedKeepsEmbedded<E>(chunks: seq<string>, replies: seq<Reply<E>>, i: nat)
    requires i < |chunks| && i < |replies| && replies[i].Embedded?
    ensures UpsertRecord(ChunkId(i), replies[i].embedding, Metadata(chunks[i])) in AlignedRecords(chunks, replies)
  {
    var idx := SuccessfulIndices(replies, Chunking.Min(|chunks|, |replies|));
    var k :| 0 <= k < |idx| && idx[k] == i;
    assert AlignedRecords(chunks, replies)[k] == UpsertRecord(ChunkId(i), replies[i].embedding, Metadata(chunks[i]));
  }

  /** The records of the intended batch carry pairwise distinct ids. */
  lemma AlignedIdsDistinct<E>(chunks: seq<string>, replies: seq<Reply<E>>, k: nat, l: nat)
    requires k < l < |AlignedRecords(chunks, replies)|
    ensures AlignedRecords(chunks, replies)[k].id != AlignedRecords(chunks, replies)[l].id
  {
    var idx := SuccessfulIndices(replies, Chunking.Min(|chunks|, |replies|));
    ChunkIdInjective(idx[k], idx[l]);
  }

  /** When every request succeeds, no index is skipped. */
  lemma {:induction false} AllIndicesSucceed<E>(replies: seq<Reply<E>>, n: nat)
    requires n <= |replies| && AllEmbedded(replies)
    ensures SuccessfulIndices(replies, n) == seq(n, i requires 0 <= i < n => i as nat)
  {
    if n > 0 {
      AllIndicesSucceed(replies, n - 1);
      var prev := SuccessfulIndices(replies, n - 1);
      assert replies[n - 1].Embedded?;
      assert SuccessfulIndices(replies, n) == prev + [n - 1];
    }
  }

  /** When every request succeeds, the script's batch is the intended one. */
  lemma AlignedAgreesWhenAllEmbedded<E>(chunks: seq<string>, replies: seq<Reply<E>>)
    requires AllEmbedded(replies)
    ensures AlignedRecords(chunks, replies) == UploadedAsWritten(chunks, replies)
  {
    AllIndicesSucceed(replies, Chunking.Min(|chunks|, |replies|));
    var a, w := AlignedRecords(chunks, replies), UploadedAsWritten(chunks, replies);
    if |replies| > 0 {
      SuccessesAllEmbedded(replies, 0);
    }
    assert |a| == |w|;
    forall k | 0 <= k < |a| ensures a[k] == w[k] {
      SuccessesAllEmbedded(replies, k);
    }
  }

  // -------------------------------------------------------------- pipeline

  /** The ingestion batch for the parsed pages with the script's configuration,
      pairing each chunk with its own reply (the corrected pairing, not the
      script's zip of the filtered embeddings). */
  function IngestionBatch<E>(pages: seq<Page>, replies: seq<Reply<E>>): (r: seq<UpsertRecord<E>>)
    ensures |r| <= Chunking.NumChunks(TotalLength(pages), ChunkSize - Overlap)
  {
    AlignedRecords(Chunking.Chunks(Concat(pages), ChunkSize, Overlap), replies)
  }

  /** Every text of the corrected batch is one of the document's chunks, so by
      Chunking.ChunkWindow a window of the document starting at a multiple of
      the stride, and it holds between 1 and ChunkSize characters. */
  lemma IngestedTextIsChunk<E>(pages: seq<Page>, replies: seq<Reply<E>>, k: nat)
    requires k < |IngestionBatch(pages, replies)|
    ensures 0 < |IngestionBatch(pages, replies)[k].metadata.text| <= ChunkSize
    ensures exists i ::
      0 <= i < |Chunking.Chunks(Concat(pages), ChunkSize, Overlap)| &&
      IngestionBatch(pages, replies)[k].metadata.text == Chunking.Chunks(Concat(pages), ChunkSize, Overlap)[i]
  {
    var doc := Concat(pages);
    var chunks := Chunking.Chunks(doc, ChunkSize, Overlap);
    var r := IngestionBatch(pages, replies)[k];
    AlignedRecordOrigin(chunks, replies, k);
    var i :| 0 <= i < |chunks| && i < |replies| && r.metadata.text == chunks[i];
    Chunking.ChunkLength(doc, ChunkSize, Overlap, i);
  }

  /** What the script uploads for the parsed pages: record k carries the text of
      chunk k of the document, which by Chunking.ChunkWindow is the window
      starting at k * stride. */
  lemma UploadedTextIsChunk<E>(pages: seq<Page>, replies: seq<Reply<E>>, k: nat)
    requires k < |UploadedAsWritten(Chunking.Chunks(Concat(pages), ChunkSize, Overlap), replies)|
    ensures var chunks := Chunking.Chunks(Concat(pages), ChunkSize, Overlap);
      k < |chunks| && UploadedAsWritten(chunks, replies)[k].metadata.text == chunks[k]
  {
  }
}
