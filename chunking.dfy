/** Fixed-size overlapping chunking of a document (naive-rag/main.py, fixed_size_chunking). */
module Chunking {

  function Min(a: int, b: int): int { if a <= b then a else b }

  /** Python's normalisation of one slice bound against a sequence of length n:
      a negative bound counts from the end, and every bound is clamped to [0, n]. */
  function SliceBound(n: nat, i: int): (r: nat)
    ensures r <= n
  {
    if i < 0 then (if i + n < 0 then 0 else i + n) else if i > n then n else i
  }

  /** Python's s[lo:hi] with the default step: empty unless the normalised
      lower bound lies below the normalised upper bound. */
  function Slice<T>(s: seq<T>, lo: int, hi: int): (r: seq<T>)
    ensures |r| <= |s|
  {
    var a, b := SliceBound(|s|, lo), SliceBound(|s|, hi);
    if a < b then s[a..b] else []
  }

  /** Python's slicing rules: a negative bound counts from the end (and stops at
      the start), a bound past the end is the end, and bounds that meet or cross
      give the empty slice. */
  lemma SliceRules<T>(s: seq<T>, lo: int, hi: int)
    ensures hi < 0 ==> Slice(s, lo, hi) == Slice(s, lo, if hi + |s| < 0 then 0 else hi + |s|)
    ensures lo < 0 ==> Slice(s, lo, hi) == Slice(s, if lo + |s| < 0 then 0 else lo + |s|, hi)
    ensures hi > |s| ==> Slice(s, lo, hi) == Slice(s, lo, |s|)
    ensures lo > |s| ==> Slice(s, lo, hi) == []
    ensures 0 <= lo <= hi <= |s| ==> Slice(s, lo, hi) == s[lo..hi]
    ensures 0 <= hi <= lo ==> Slice(s, lo, hi) == []
  {
  }

  /** With non-negative bounds and a lower bound inside the sequence, a slice is
      the window from lo up to hi, clipped to the end of the sequence. */
  lemma SliceWindow<T>(s: seq<T>, lo: int, hi: int)
    requires 0 <= lo < |s| && lo < hi
    ensures Slice(s, lo, hi) == s[lo..Min(hi, |s|)]
  {
  }

  /** Distance between the starts of consecutive chunks. */
  function Stride(chunkSize: int, overlap: int): int { chunkSize - overlap }

  /** How many of the start positions 0, d, 2d, ... lie below n, i.e. ceil(n / d). */
  function NumChunks(n: nat, d: int): (r: nat)
    requires n == 0 || d > 0
    ensures n == 0 ==> r == 0
    ensures n > 0 ==> (r - 1) * d < n <= r * d
  {
    if n == 0 then 0
    else
      var q := (n + d - 1) / d;
      assert n + d - 1 == q * d + (n + d - 1) % d;
      q
  }

  lemma MulMono(a: int, b: int, d: int)
    requires a <= b && 0 <= d
    ensures a * d <= b * d
  {
    assert b * d - a * d == (b - a) * d;
  }

  /** The i-th start position i * d lies below n exactly when i < NumChunks(n, d). */
  lemma NumChunksCounts(n: nat, d: int, i: nat)
    requires d > 0
    ensures i < NumChunks(n, d) <==> i * d < n
  {
    var r := NumChunks(n, d);
    if i < r {
      MulMono(i, r - 1, d);
    } else {
      MulMono(r, i, d);
    }
  }

  /** The loop of fixed_size_chunking stops: it never runs on empty text, and on
      other text it needs a positive stride. */
  predicate Terminates(text: string, chunkSize: int, overlap: int)
  {
    |text| == 0 || overlap < chunkSize
  }

  /** The chunk the loop emits on its i-th step: text[i*stride : i*stride + chunk_size]. */
  function ChunkAt(text: string, chunkSize: int, overlap: int, i: nat): string
  {
    var start := i * Stride(chunkSize, overlap);
    Slice(text, start, start + chunkSize)
  }

  /** Reference definition of the chunk list: one chunk for every start position
      0, stride, 2*stride, ... below the length of the text. */
  function Chunks(text: string, chunkSize: int, overlap: int): seq<string>
    requires Terminates(text, chunkSize, overlap)
  {
    var n := NumChunks(|text|, Stride(chunkSize, overlap));
    seq(n, i requires 0 <= i < n => ChunkAt(text, chunkSize, overlap, i))
  }

  lemma ChunksIndex(text: string, chunkSize: int, overlap: int)
    requires Terminates(text, chunkSize, overlap)
    ensures |Chunks(text, chunkSize, overlap)| == NumChunks(|text|, Stride(chunkSize, overlap))
    ensures forall i :: 0 <= i < |Chunks(text, chunkSize, overlap)| ==>
      Chunks(text, chunkSize, overlap)[i] == ChunkAt(text, chunkSize, overlap, i)
  {
  }

  /** fixed_size_chunking: walk a cursor over the text, emitting the slice of
      chunk_size characters at the cursor and advancing it by chunk_size - overlap. */
  method FixedSizeChunking(text: string, chunkSize: int, overlap: int) returns (chunks: seq<string>)
    requires Terminates(text, chunkSize, overlap)
    ensures chunks == Chunks(text, chunkSize, overlap)
    ensures |text| == 0 ==> chunks == []
  {
    chunks := [];
    var start := 0;
    while start < |text|
      invariant 0 <= start
      invariant start == |chunks| * Stride(chunkSize, overlap)
      invariant |text| == 0 ==> chunks == []
      invariant |text| > 0 ==> |chunks| <= NumChunks(|text|, Stride(chunkSize, overlap))
      invariant forall i :: 0 <= i < |chunks| ==> chunks[i] == ChunkAt(text, chunkSize, overlap, i)
      decreases |text| - start
    {
      NumChunksCounts(|text|, Stride(chunkSize, overlap), |chunks|);
      var end := start + chunkSize;
      var chunk := Slice(text, start, end);
      assert chunk == ChunkAt(text, chunkSize, overlap, |chunks|);
      assert (|chunks| + 1) * Stride(chunkSize, overlap) == start + (chunkSize - overlap);
      chunks := chunks + [chunk];
      start := start + (chunkSize - overlap);
    }
    if |text| > 0 {
      NumChunksCounts(|text|, Stride(chunkSize, overlap), |chunks|);
    }
    ChunksIndex(text, chunkSize, overlap);
  }

  /** The i-th chunk starts at offset i * (chunk_size - overlap), inside the text,
      and is the text from there on, clipped to chunk_size characters. */
  lemma ChunkWindow(text: string, chunkSize: int, overlap: int, i: nat)
    requires 0 < chunkSize && overlap < chunkSize
    requires i < |Chunks(text, chunkSize, overlap)|
    ensures var s := i * Stride(chunkSize, overlap);
      s < |text| && Chunks(text, chunkSize, overlap)[i] == text[s..Min(s + chunkSize, |text|)]
  {
    var d := Stride(chunkSize, overlap);
    NumChunksCounts(|text|, d, i);
    MulMono(0, i, d);
    SliceWindow(text, i * d, i * d + chunkSize);
  }

  /** Every chunk is non-empty and at most chunk_size characters long. */
  lemma ChunkLength(text: string, chunkSize: int, overlap: int, i: nat)
    requires 0 < chunkSize && overlap < chunkSize
    requires i < |Chunks(text, chunkSize, overlap)|
    ensures 0 < |Chunks(text, chunkSize, overlap)[i]| <= chunkSize
  {
    ChunkWindow(text, chunkSize, overlap, i);
  }

  /** Consecutive chunks agree on the characters they share: chunk i+1 starts
      chunk_size - overlap characters into chunk i. When the later chunk has at
      least overlap characters, the earlier one is full and its last overlap
      characters are the later one's first. */
  lemma ConsecutiveOverlap(text: string, chunkSize: int, overlap: int, i: nat)
    requires 0 <= overlap < chunkSize
    requires i + 1 < |Chunks(text, chunkSize, overlap)|
    ensures var c, c' := Chunks(text, chunkSize, overlap)[i], Chunks(text, chunkSize, overlap)[i + 1];
      forall k :: 0 <= k < |c'| && Stride(chunkSize, overlap) + k < |c| ==>
        c'[k] == c[Stride(chunkSize, overlap) + k]
    ensures var c, c' := Chunks(text, chunkSize, overlap)[i], Chunks(text, chunkSize, overlap)[i + 1];
      |c| == chunkSize ==>
        var m := Min(overlap, |c'|);
        c'[..m] == c[chunkSize - overlap..chunkSize - overlap + m]
    ensures var c, c' := Chunks(text, chunkSize, overlap)[i], Chunks(text, chunkSize, overlap)[i + 1];
      overlap <= |c'| ==> |c| == chunkSize && c[chunkSize - overlap..] == c'[..overlap]
  {
    var d := Stride(chunkSize, overlap);
    var c, c' := Chunks(text, chunkSize, overlap)[i], Chunks(text, chunkSize, overlap)[i + 1];
    ChunkWindow(text, chunkSize, overlap, i);
    ChunkWindow(text, chunkSize, overlap, i + 1);
    var s0, s1 := i * d, (i + 1) * d;
    assert s1 == s0 + d;
    var n := |text|;
    assert c == text[s0..Min(s0 + chunkSize, n)];
    assert c' == text[s1..Min(s1 + chunkSize, n)];
    forall k | 0 <= k < |c'| && d + k < |c|
      ensures c'[k] == c[d + k]
    {
      assert c'[k] == text[s1 + k];
    }
    if overlap <= |c'| {
      assert s0 + chunkSize <= n;
      assert c[chunkSize - overlap..] == text[s1..s0 + chunkSize];
    }
  }

  lemma DivBounds(j: nat, d: int)
    requires d > 0
    ensures 0 <= (j / d) * d <= j < (j / d) * d + d
  {
    assert j == (j / d) * d + j % d;
  }

  /** Every character of the text lies in some chunk, at its own offset from
      that chunk's start. */
  lemma Coverage(text: string, chunkSize: int, overlap: int, j: nat)
    requires 0 <= overlap < chunkSize && j < |text|
    ensures var cs, d := Chunks(text, chunkSize, overlap), Stride(chunkSize, overlap);
      exists i :: 0 <= i < |cs| && i * d <= j < i * d + |cs[i]| && cs[i][j - i * d] == text[j]
  {
    var cs, d := Chunks(text, chunkSize, overlap), Stride(chunkSize, overlap);
    var i := j / d;
    var s := i * d;
    DivBounds(j, d);
    NumChunksCounts(|text|, d, i);
    ChunkWindow(text, chunkSize, overlap, i);
    assert cs[i] == text[s..Min(s + chunkSize, |text|)];
    assert cs[i][j - s] == text[j];
  }

  /** When the stride reaches past the whole non-empty text, there is exactly one
      chunk and it is the whole text. */
  lemma SingleChunk(text: string, chunkSize: int, overlap: int)
    requires 0 <= overlap && 0 < |text| <= chunkSize - overlap
    ensures Chunks(text, chunkSize, overlap) == [text]
  {
    var d := Stride(chunkSize, overlap);
    NumChunksCounts(|text|, d, 0);
    NumChunksCounts(|text|, d, 1);
    ChunksIndex(text, chunkSize, overlap);
    ChunkWindow(text, chunkSize, overlap, 0);
    assert Chunks(text, chunkSize, overlap)[0] == text;
  }

  /** A chunk_size of at least the text length makes the first chunk the whole
      text; when the stride chunk_size - overlap is below the text length,
      shorter chunks still follow. */
  lemma FirstChunkWholeText(text: string, chunkSize: int, overlap: int)
    requires overlap < chunkSize && 0 < |text| <= chunkSize
    ensures |Chunks(text, chunkSize, overlap)| > 0 && Chunks(text, chunkSize, overlap)[0] == text
  {
    NumChunksCounts(|text|, Stride(chunkSize, overlap), 0);
    ChunkWindow(text, chunkSize, overlap, 0);
  }

  /** The alphabet with chunk_size 10 and overlap 2: starts 0, 8, 16 and 24, and a
      trailing chunk "yz" that lies entirely inside the third. */
  lemma AlphabetExample()
    ensures Chunks("abcdefghijklmnopqrstuvwxyz", 10, 2)
         == ["abcdefghij", "ijklmnopqr", "qrstuvwxyz", "yz"]
  {
    var t := "abcdefghijklmnopqrstuvwxyz";
    ChunksIndex(t, 10, 2);
    assert NumChunks(26, 8) == 4;
    AlphabetSlices();
  }

  lemma AlphabetSlices()
    ensures var t := "abcdefghijklmnopqrstuvwxyz";
      ChunkAt(t, 10, 2, 0) == "abcdefghij" && ChunkAt(t, 10, 2, 1) == "ijklmnopqr" &&
      ChunkAt(t, 10, 2, 2) == "qrstuvwxyz" && ChunkAt(t, 10, 2, 3) == "yz"
  {
    var t := "abcdefghijklmnopqrstuvwxyz";
    assert t == "abcdefgh" + "ij" + "klmnop" + "qr" + "stuvwx" + "yz";
    assert t[0..10] == "abcdefghij";
    assert t[8..18] == "ijklmnopqr";
    assert t[16..26] == "qrstuvwxyz";
    assert t[24..26] == "yz";
  }

  /** Five characters with chunk_size 10: one chunk without overlap, three with
      overlap 8. */
  lemma ShortTextExamples()
    ensures Chunks("abcde", 10, 0) == ["abcde"]
    ensures Chunks("abcde", 10, 8) == ["abcde", "cde", "e"]
  {
    var t := "abcde";
    ChunksIndex(t, 10, 0);
    ChunksIndex(t, 10, 8);
    assert NumChunks(5, 10) == 1;
    assert NumChunks(5, 2) == 3;
    assert ChunkAt(t, 10, 0, 0) == t[0..5] == t;
    assert ChunkAt(t, 10, 8, 0) == t[0..5] == t;
    assert ChunkAt(t, 10, 8, 1) == t[2..5] == "cde";
    assert ChunkAt(t, 10, 8, 2) == t[4..5] == "e";
  }
}
