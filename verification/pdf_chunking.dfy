/**
 * The overlapping word windows of `create_text_chunks`, and the chunks they
 * yield, as functions of the word list, the window size and the overlap.
 */
module PdfChunking {
  import opened Wrappers
  import opened Text
  // ---------------------------------------------------------------------------
  // Word windows (`create_text_chunks`)
  // ---------------------------------------------------------------------------

  /** The word indices `[start, end)` of one window. */
  datatype Window = Window(start: nat, end: nat)

  /** Window `i` is a full window and window `i + 1` starts `overlap` words
      before it ends. */
  predicate ConsecutiveAt(ws: seq<Window>, i: int, size: int, overlap: int)
    requires 0 <= i < |ws| - 1
  {
    ws[i].end - ws[i].start == size && ws[i + 1].start == ws[i].end - overlap
  }

  /** The windows the chunking loop visits from `start` on, over `total` words,
      with window size `size` and overlap `overlap`. */
  function Windows(total: nat, size: int, overlap: int, start: nat): (ws: seq<Window>)
    requires 1 <= size && overlap < size
    ensures ws != [] <==> start < total
    ensures forall i :: 0 <= i < |ws| ==> start <= ws[i].start < ws[i].end <= total
    decreases total - start
  {
    if start >= total then []
    else
      var end := Min(start + size, total);
      if end >= total then [Window(start, end)]
      else [Window(start, end)] + Windows(total, size, overlap, end - overlap)
  }

  /** With a non-negative overlap the last window ends at the word count (with
      a negative one the loop may stop short of it). */
  lemma {:induction false} WindowsReachEnd(total: nat, size: int, overlap: int, start: nat)
    requires 1 <= size && 0 <= overlap < size
    ensures var ws := Windows(total, size, overlap, start);
      ws != [] ==> ws[|ws| - 1].end == total
    decreases total - start
  {
    var end := Min(start + size, total);
    if start < total && end < total {
      var ws := Windows(total, size, overlap, start);
      var rest := Windows(total, size, overlap, end - overlap);
      WindowsReachEnd(total, size, overlap, end - overlap);
      assert ws[|ws| - 1] == rest[|rest| - 1];
    }
  }

  /** Each window but the last is `size` words long, and the next starts
      `overlap` words before it ends. */
  lemma {:induction false} WindowsConsecutive(total: nat, size: int, overlap: int, start: nat)
    requires 1 <= size && overlap < size
    ensures forall i :: 0 <= i < |Windows(total, size, overlap, start)| - 1 ==>
      ConsecutiveAt(Windows(total, size, overlap, start), i, size, overlap)
    decreases total - start
  {
    var ws := Windows(total, size, overlap, start);
    var end := Min(start + size, total);
    if start < total && end < total {
      var rest := Windows(total, size, overlap, end - overlap);
      WindowsConsecutive(total, size, overlap, end - overlap);
      assert ws == [Window(start, end)] + rest;
      assert rest != [] ==> rest[0].start == end - overlap;
      forall i | 0 <= i < |ws| - 1 ensures ConsecutiveAt(ws, i, size, overlap) {
        if i > 0 {
          assert ConsecutiveAt(rest, i - 1, size, overlap);
          assert ws[i] == rest[i - 1] && ws[i + 1] == rest[i];
        }
      }
    }
  }

  /** The shape of the windows: the first starts at `start`; each but the last
      is `size` words long and the next starts `overlap` words before it ends;
      with a non-negative overlap the last ends at the word count. */
  lemma WindowsGeometry(total: nat, size: int, overlap: int, start: nat)
    requires 1 <= size && overlap < size
    ensures var ws := Windows(total, size, overlap, start);
      && (ws != [] ==> ws[0] == Window(start, Min(start + size, total)))
      && (0 <= overlap && ws != [] ==> ws[|ws| - 1].end == total)
      && (forall i :: 0 <= i < |ws| - 1 ==> ConsecutiveAt(ws, i, size, overlap))
  {
    if 0 <= overlap {
      WindowsReachEnd(total, size, overlap, start);
    }
    WindowsConsecutive(total, size, overlap, start);
  }

  /** With a non-negative overlap the windows leave no word out: word `k` lies
      in window `i`. */
  lemma {:induction false} WindowsCoverAllWords(total: nat, size: int, overlap: int, start: nat, k: nat)
    returns (i: nat)
    requires 1 <= size && 0 <= overlap < size
    requires start <= k < total
    ensures i < |Windows(total, size, overlap, start)|
    ensures Windows(total, size, overlap, start)[i].start <= k < Windows(total, size, overlap, start)[i].end
    decreases total - start
  {
    var end := Min(start + size, total);
    if k < end {
      i := 0;
    } else {
      var j := WindowsCoverAllWords(total, size, overlap, end - overlap, k);
      i := j + 1;
      assert Windows(total, size, overlap, start)[i] == Windows(total, size, overlap, end - overlap)[j];
    }
  }

  /** A text of at most `size` words is covered by a single window. */
  lemma {:induction false} ShortTextOneWindow(total: nat, size: int, overlap: int)
    requires 1 <= size && overlap < size
    requires total <= size
    ensures |Windows(total, size, overlap, 0)| == (if total == 0 then 0 else 1)
  {
  }

  /** The test a window's text must pass to be yielded: more than 50
      characters once stripped. */
  predicate Significant(t: string) {
    |Strip(t)| > 50
  }

  /** What the window `[start, end)` yields: its words joined by single
      spaces, when that text is significant, and nothing otherwise. */
  function WindowChunk(words: seq<string>, start: nat, end: nat): seq<string>
    requires start <= end <= |words|
  {
    var t := JoinWith(words[start..end], " ");
    if Significant(t) then [t] else []
  }

  /** What the windows yield, in order. */
  function EmittedChunks(words: seq<string>, ws: seq<Window>): (chunks: seq<string>)
    requires forall i :: 0 <= i < |ws| ==> ws[i].start <= ws[i].end <= |words|
    ensures |chunks| <= |ws|
  {
    if ws == [] then []
    else WindowChunk(words, ws[0].start, ws[0].end) + EmittedChunks(words, ws[1..])
  }

  /** The chunks `create_text_chunks` yields for `text` at window size `size`. */
  function TextChunks(text: string, size: int, overlap: int): seq<string>
    requires 1 <= size && overlap < size
  {
    var words := Words(text);
    EmittedChunks(words, Windows(|words|, size, overlap, 0))
  }

  /** A chunk the generator yields: longer than 50 characters, and its own
      `strip()`. */
  predicate LongTrimmed(c: string) {
    |c| > 50 && Strip(c) == c
  }

  /** Every emitted chunk is long and trimmed: the words of a window are
      whitespace-free, so their join has no whitespace at either end. */
  lemma {:induction false} EmittedChunksAreLongTrimmed(words: seq<string>, ws: seq<Window>)
    requires forall i :: 0 <= i < |words| ==> IsWord(words[i])
    requires forall i :: 0 <= i < |ws| ==> ws[i].start <= ws[i].end <= |words|
    ensures forall i :: 0 <= i < |EmittedChunks(words, ws)| ==> LongTrimmed(EmittedChunks(words, ws)[i])
  {
    if ws != [] {
      var w := ws[0];
      var slice := words[w.start..w.end];
      var t := JoinWith(slice, " ");
      var rest := EmittedChunks(words, ws[1..]);
      EmittedChunksAreLongTrimmed(words, ws[1..]);
      if Significant(t) {
        assert forall i :: 0 <= i < |slice| ==> slice[i] == words[w.start + i];
        StripJoinedWords(slice);
        assert EmittedChunks(words, ws) == [t] + rest;
      } else {
        assert EmittedChunks(words, ws) == rest;
      }
    }
  }

  /** Concatenation regroups freely. */
  lemma Regroup<T>(a: seq<T>, b: seq<T>, c: seq<T>)
    ensures (a + b) + c == a + (b + c)
  {
  }

  /** One turn of the chunking loop: if the chunks yielded so far followed by
      what the windows from `start` yield make up `all`, then after the window
      `[start, end)` the same holds from `next`, or (when the window reached
      the last word) the chunks are all of it. */
  lemma EmittedStep(words: seq<string>, size: int, overlap: int, start: nat, end: nat, next: int,
                    chunks: seq<string>, all: seq<string>)
    requires 1 <= size && overlap < size && start < |words|
    requires end == Min(start + size, |words|) && next == end - overlap
    requires chunks + EmittedChunks(words, Windows(|words|, size, overlap, start)) == all
    ensures end >= |words| ==> chunks + WindowChunk(words, start, end) == all
    ensures end < |words| ==>
      && 0 <= next
      && (chunks + WindowChunk(words, start, end)) + EmittedChunks(words, Windows(|words|, size, overlap, next)) == all
  {
    var ws := Windows(|words|, size, overlap, start);
    assert ws[0] == Window(start, end);
    var rest := if end < |words| then Windows(|words|, size, overlap, next) else [];
    assert ws[1..] == rest;
    assert EmittedChunks(words, ws) == WindowChunk(words, start, end) + EmittedChunks(words, rest);
    Regroup(chunks, WindowChunk(words, start, end), EmittedChunks(words, rest));
  }

  /** Empty (or all-whitespace) text yields no chunk, and a text of at most
      `size` words yields at most one. */
  lemma ChunkCountForShortText(text: string, size: int, overlap: int)
    requires 1 <= size && overlap < size
    ensures |Words(text)| == 0 ==> TextChunks(text, size, overlap) == []
    ensures |Words(text)| <= size ==> |TextChunks(text, size, overlap)| <= 1
  {
    if |Words(text)| <= size {
      ShortTextOneWindow(|Words(text)|, size, overlap);
    }
  }

  // The loop as Python runs it, on unbounded integers, to show when it stops.

  /** One step of the loop from `start`: `None` once it breaks or its guard fails. */
  function NextStart(start: int, total: int, size: int, overlap: int): Option<int> {
    var end := Min(start + size, total);
    if end >= total then None
    else if end - overlap < total then Some(end - overlap)
    else None
  }

  /** The start index after `k` more steps from `start`, or `None` once stopped. */
  function StartAfter(k: nat, start: int, total: int, size: int, overlap: int): Option<int> {
    if k == 0 then Some(start)
    else match NextStart(start, total, size, overlap)
      case None => None
      case Some(next) => StartAfter(k - 1, next, total, size, overlap)
  }

  /** When the window is larger than the overlap, the loop visits exactly the
      starts of `Windows` and then stops. */
  lemma {:induction false} LoopFollowsWindows(k: nat, start: nat, total: nat, size: int, overlap: int)
    requires 1 <= size && overlap < size && start < total
    requires k <= |Windows(total, size, overlap, start)|
    ensures StartAfter(k, start, total, size, overlap) ==
      if k < |Windows(total, size, overlap, start)| then Some(Windows(total, size, overlap, start)[k].start) else None
    decreases k
  {
    var ws := Windows(total, size, overlap, start);
    var end := Min(start + size, total);
    if k > 0 {
      if end < total {
        var rest := Windows(total, size, overlap, end - overlap);
        if end - overlap < total {
          LoopFollowsWindows(k - 1, end - overlap, total, size, overlap);
          assert ws == [Window(start, end)] + rest;
        } else {
          assert rest == [];
        }
      }
    }
  }

  /** When the window is no larger than the overlap and the text is longer than
      one window, the loop never stops: its start never rises above 0. */
  lemma {:induction false} LoopNeverEnds(k: nat, start: int, total: int, size: int, overlap: int)
    requires size <= overlap && size < total && 0 < total && start <= 0
    ensures StartAfter(k, start, total, size, overlap).Some?
    ensures StartAfter(k, start, total, size, overlap).value <= 0
  {
    if k > 0 {
      assert NextStart(start, total, size, overlap) == Some(start + size - overlap);
      LoopNeverEnds(k - 1, start + size - overlap, total, size, overlap);
    }
  }

}
