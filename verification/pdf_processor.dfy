/**
 * The processor object: its configured window size and overlap, the chunking
 * loop and the record stream built on it. Memory readings come in as a
 * `MemorySnapshot`.
 */
module PdfStreaming {
  import opened Wrappers
  import opened Text
  import opened MemoryOptimizer
  import opened PdfCleaning
  import opened PdfExtraction
  import opened PdfChunking

  /** The defaults of `PDFProcessor()`: windows of 512 words sharing 50. */
  const DefaultChunkSize: int := 512
  const DefaultOverlap: int := 50

  class PdfProcessor {
    /** The configured window size in words, before memory adaptation. */
    const chunkSize: int
    /** Words shared by consecutive windows. */
    const overlap: int

    constructor (chunkSize: int, overlap: int)
      ensures this.chunkSize == chunkSize && this.overlap == overlap
    {
      this.chunkSize := chunkSize;
      this.overlap := overlap;
    }

    /** The window size `create_text_chunks` uses under snapshot `m` (the
        document length plays no part in it). */
    function WindowSize(m: MemorySnapshot): int {
      GetOptimalChunkSizeAsWritten(0, chunkSize, m)
    }

    /** The chunking loop only advances when the window is larger than the
        overlap. */
    predicate Advances(m: MemorySnapshot) {
      1 <= WindowSize(m) && overlap < WindowSize(m)
    }

    /** `create_text_chunks`: the while loop over word windows. */
    method CreateTextChunks(text: string, m: MemorySnapshot) returns (chunks: seq<string>)
      requires Advances(m)
      ensures chunks == TextChunks(text, WindowSize(m), overlap)
      ensures forall i :: 0 <= i < |chunks| ==> LongTrimmed(chunks[i])
      ensures |Words(text)| <= WindowSize(m) ==> |chunks| <= 1
    {
      var size := GetOptimalChunkSizeAsWritten(|text|, chunkSize, m);
      assert size == WindowSize(m);
      var words := Words(text);
      var total := |words|;
      ghost var all := EmittedChunks(words, Windows(total, size, overlap, 0));
      var start: nat := 0;
      chunks := [];
      while start < total
        invariant chunks + EmittedChunks(words, Windows(total, size, overlap, start)) == all
        decreases total - start
      {
        var end := Min(start + size, total);
        var next := end - overlap;
        EmittedStep(words, size, overlap, start, end, next, chunks, all);
        var chunkText := JoinWith(words[start..end], " ");
        ghost var before := chunks;
        if Significant(chunkText) {
          chunks := chunks + [chunkText];
        }
        assert chunks == before + WindowChunk(words, start, end);
        if end >= total {
          break;
        }
        start := next;
      }
      assert chunks == TextChunks(text, size, overlap);
      WordsAreWords(text);
      EmittedChunksAreLongTrimmed(words, Windows(total, size, overlap, 0));
      ChunkCountForShortText(text, size, overlap);
    }

    /** `process_pdf_streaming`: the metadata, then the full text, then one
        record per chunk numbered from 0, each carrying the metadata. The second
        result lists the record numbers after which the memory monitor was
        asked to reclaim: every fifth, starting with the first. */
    method ProcessPdfStreaming(doc: PdfDocument, m: MemorySnapshot)
      returns (r: Result<seq<ChunkRecord>, PdfError>, reclaimAfter: seq<int>)
      requires Advances(m)
      ensures ExtractedText(doc).Failure? ==> r == Failure(ExtractedText(doc).error) && reclaimAfter == []
      ensures ExtractedText(doc).Success? ==>
        && r.Success?
        && var chunks := TextChunks(ExtractedText(doc).value, WindowSize(m), overlap);
        && |r.value| == |chunks|
        && forall i :: 0 <= i < |chunks| ==>
             r.value[i] == ChunkRecord(i, chunks[i], GetPdfMetadata(doc), |chunks[i]|)
      ensures reclaimAfter == if r.Success? then Multiples(0, |r.value|, 5) else []
    {
      var metadata := GetPdfMetadata(doc);
      var fullText, _ := ExtractTextFromPdf(doc);
      if fullText.Failure? {
        return Failure(fullText.error), [];
      }
      var chunks := CreateTextChunks(fullText.value, m);
      var records;
      records, reclaimAfter := NumberChunks(chunks, metadata);
      r := Success(records);
    }
  }

  /** The record loop of `process_pdf_streaming`: chunk `i` becomes record `i`
      with the metadata and its length, and the memory monitor is consulted
      after every fifth record, starting with the first. */
  method NumberChunks(chunks: seq<string>, metadata: DocMetadata)
    returns (records: seq<ChunkRecord>, reclaimAfter: seq<int>)
    ensures |records| == |chunks|
    ensures forall i :: 0 <= i < |chunks| ==> records[i] == ChunkRecord(i, chunks[i], metadata, |chunks[i]|)
    ensures reclaimAfter == Multiples(0, |chunks|, 5)
  {
    records := [];
    reclaimAfter := [];
    for i := 0 to |chunks|
      invariant |records| == i
      invariant forall j :: 0 <= j < i ==> records[j] == ChunkRecord(j, chunks[j], metadata, |chunks[j]|)
      invariant reclaimAfter == Multiples(0, i, 5)
    {
      records := records + [ChunkRecord(i, chunks[i], metadata, |chunks[i]|)];
      if i % 5 == 0 {
        reclaimAfter := reclaimAfter + [i];
      }
    }
  }
}
