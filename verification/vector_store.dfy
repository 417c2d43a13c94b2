/**
  The chunker and the retrieval filter of the vector store.

  Documents are cut into overlapping windows of whitespace-separated words;
  the vector index is built over those windows and a search returns a list of
  positions into them. The embedding model and the nearest-neighbour search
  are outside this model: a search result is given as the sequence of labels
  the index returned, best match first.
 */
module VectorStore {
  import opened Text

  /** Default window length and overlap of `chunk_text`, in words. */
  const ChunkSize: nat := 500
  const Overlap: nat := 100
  /** How many neighbours `retrieve_chunks` asks the index for. */
  const TopK: nat := 15

  function Min(a: int, b: int): int {
    if a <= b then a else b
  }

  /** The `size` words from position `start` on, fewer at the end. */
  function Window(words: seq<string>, size: nat, start: nat): seq<string>
    requires start <= |words|
  {
    words[start..Min(start + size, |words|)]
  }

  /** Start of the `k`-th window: `k * step`, written as repeated addition. */
  function StartOf(k: nat, step: nat): nat {
    if k == 0 then 0 else StartOf(k - 1, step) + step
  }

  /** Python's `range(start, stop, step)` for a positive step: the `k`-th
      element is `start + k * step`, every element is below `stop`, and there
      are just enough elements for one more step to pass `stop`. */
  function Range(start: nat, stop: nat, step: nat): (r: seq<nat>)
    requires step > 0
    ensures start >= stop <==> r == []
    ensures forall k {:trigger r[k]} :: 0 <= k < |r| ==> r[k] == start + StartOf(k, step) && r[k] < stop
    ensures start < stop ==> StartOf(|r| - 1, step) < stop - start <= StartOf(|r|, step)
    decreases stop - start
  {
    if start >= stop then []
    else
      var rest := Range(start + step, stop, step);
      var r := [start] + rest;
      forall k | 1 <= k < |r|
        ensures r[k] == start + StartOf(k, step) && r[k] < stop
      {
        assert r[k] == rest[k - 1];
      }
      r
  }

  /** The chunks appended by the loop over the window starts: each window
      joined by single spaces, kept when it is not blank. */
  function KeptChunks(words: seq<string>, size: nat, starts: seq<nat>): seq<string>
    requires forall k :: 0 <= k < |starts| ==> starts[k] <= |words|
  {
    if |starts| == 0 then []
    else
      var chunk := Join(Window(words, size, starts[0]));
      (if Strip(chunk) != "" then [chunk] else []) + KeptChunks(words, size, starts[1..])
  }

  /** Chunk `k` of `r` is the window of `words` starting at `StartOf(k, step)`
      joined by spaces, every such start lies inside the text, and the windows
      reach past its end. */
  predicate WindowedChunks(words: seq<string>, size: nat, step: nat, r: seq<string>)
  {
    && 1 <= step <= size
    && (forall k :: 0 <= k < |words| ==> IsWord(words[k]))
    && |words| <= StartOf(|r|, step)
    && (forall k {:trigger r[k]} :: 0 <= k < |r| ==>
          StartOf(k, step) < |words| && r[k] == Join(Window(words, size, StartOf(k, step))))
  }

  /** The loop of `chunk_text` over the words of a text, for a positive stride
      `step` no longer than the window: one chunk per window start, none of
      them dropped. */
  function WordChunks(words: seq<string>, size: nat, step: nat): (r: seq<string>)
    requires 1 <= step <= size
    requires forall k :: 0 <= k < |words| ==> IsWord(words[k])
    ensures |r| == |Range(0, |words|, step)|
    ensures r == [] <==> words == []
    ensures WindowedChunks(words, size, step, r)
    ensures ChunkWordLists(words, size, step, r)
    ensures forall k :: 0 <= k < |r| ==> r[k] != ""
  {
    KeptChunksAreWindowed(words, size, step);
    WindowedChunksSplit(words, size, step, KeptChunks(words, size, Range(0, |words|, step)));
    NonEmptyChunks(words, size, step, KeptChunks(words, size, Range(0, |words|, step)));
    KeptChunks(words, size, Range(0, |words|, step))
  }

  /** What `chunk_text` produces: a list of chunks, or the `ValueError` that
      `range()` raises for a zero step. */
  datatype Chunking = Chunks(chunks: seq<string>) | StepIsZero

  /** Chunking a text into windows of `size` words, each starting
      `size - overlap` words after the previous one. A zero stride is an
      error; a negative stride leaves the range of starts empty, so the
      fallback of a single empty chunk is returned. */
  function ChunkText(text: string, size: nat, overlap: nat): (r: Chunking)
    ensures r.StepIsZero? <==> size == overlap
    ensures r.Chunks? ==> |r.chunks| >= 1
    ensures size < overlap ==> r == Chunks([""])
    ensures size > overlap ==> (r.chunks == [""] <==> Words(text) == [])
    ensures size > overlap ==> forall k :: 0 <= k < |r.chunks| && Words(text) != [] ==> r.chunks[k] != ""
  {
    if size == overlap then StepIsZero
    else if size < overlap then Chunks([""])
    else
      var chunks := WordChunks(Words(text), size, size - overlap);
      assert chunks != [] ==> chunks[0] != "";
      Chunks(if chunks == [] then [""] else chunks)
  }

  /** Chunking with the default window of 500 words and stride 400. */
  function DefaultChunks(text: string): (r: seq<string>)
    ensures |r| >= 1
    ensures r == [""] <==> Words(text) == []
  {
    ChunkText(text, ChunkSize, Overlap).chunks
  }

  // ---------------------------------------------------------------- shape of the windows

  lemma JoinedWordsNotBlank(ws: seq<string>)
    requires |ws| > 0
    requires forall k :: 0 <= k < |ws| ==> IsWord(ws[k])
    ensures Strip(Join(ws)) != ""
    ensures Words(Join(ws)) == ws
  {
    WordsOfJoin(ws);
    WordsEmptyIffAllSpace(Join(ws));
    StripEmptyIffAllSpace(Join(ws));
  }

  /** A window that starts inside the text, joined and split again, is itself:
      between one and `size` words. */
  lemma WindowSplitsBack(words: seq<string>, size: nat, start: nat)
    requires size >= 1 && start < |words|
    requires forall k :: 0 <= k < |words| ==> IsWord(words[k])
    ensures var w := Window(words, size, start);
      Words(Join(w)) == w && 1 <= |w| <= size
  {
    JoinedWordsNotBlank(Window(words, size, start));
  }

  /** Chunks built from windows that start inside the text are not empty. */
  lemma NonEmptyChunks(words: seq<string>, size: nat, step: nat, r: seq<string>)
    requires WindowedChunks(words, size, step, r)
    ensures forall k :: 0 <= k < |r| ==> r[k] != ""
  {
    forall k | 0 <= k < |r| ensures r[k] != "" {
      var c := r[k];
      assert r[k] == Join(Window(words, size, StartOf(k, step))) && StartOf(k, step) < |words|;
      WindowSplitsBack(words, size, StartOf(k, step));
    }
  }

  /** A window that starts inside the text holds at least one word, so the
      loop keeps its chunk. */
  lemma KeptStep(words: seq<string>, size: nat, starts: seq<nat>)
    requires size >= 1 && |starts| > 0
    requires forall k :: 0 <= k < |words| ==> IsWord(words[k])
    requires forall k :: 0 <= k < |starts| ==> starts[k] < |words|
    ensures Join(Window(words, size, starts[0])) != ""
    ensures KeptChunks(words, size, starts)
            == [Join(Window(words, size, starts[0]))] + KeptChunks(words, size, starts[1..])
  {
    JoinedWordsNotBlank(Window(words, size, starts[0]));
  }

  /** Every window that starts inside the text holds at least one word, so
      the loop drops none of them: the `k`-th chunk is the `k`-th window. */
  lemma {:induction false} AllWindowsKept(words: seq<string>, size: nat, starts: seq<nat>)
    requires size >= 1
    requires forall k :: 0 <= k < |words| ==> IsWord(words[k])
    requires forall k :: 0 <= k < |starts| ==> starts[k] < |words|
    ensures var r := KeptChunks(words, size, starts);
      && |r| == |starts|
      && forall k :: 0 <= k < |r| ==> r[k] == Join(Window(words, size, starts[k]))
    decreases |starts|
  {
    if |starts| > 0 {
      KeptStep(words, size, starts);
      AllWindowsKept(words, size, starts[1..]);
      PrependWindow(words, size, starts, KeptChunks(words, size, starts[1..]));
    }
  }

  /** Putting the first window in front of the chunks of the remaining
      starts gives the chunks of all the starts. */
  lemma PrependWindow(words: seq<string>, size: nat, starts: seq<nat>, rest: seq<string>)
    requires |starts| > 0 && |rest| == |starts| - 1
    requires forall k :: 0 <= k < |starts| ==> starts[k] < |words|
    requires forall k :: 0 <= k < |rest| ==> rest[k] == Join(Window(words, size, starts[1..][k]))
    ensures var r := [Join(Window(words, size, starts[0]))] + rest;
      forall k :: 0 <= k < |r| ==> r[k] == Join(Window(words, size, starts[k]))
  {
    var r := [Join(Window(words, size, starts[0]))] + rest;
    forall k | 1 <= k < |r|
      ensures r[k] == Join(Window(words, size, starts[k]))
    {
      assert r[k] == rest[k - 1];
      assert starts[1..][k - 1] == starts[k];
    }
  }

  /** The loop over the window starts keeps one chunk per start. */
  lemma KeptChunksAreWindowed(words: seq<string>, size: nat, step: nat)
    requires 1 <= step <= size
    requires forall k :: 0 <= k < |words| ==> IsWord(words[k])
    ensures var starts := Range(0, |words|, step);
      var r := KeptChunks(words, size, starts);
      && |r| == |starts|
      && WindowedChunks(words, size, step, r)
  {
    var starts := Range(0, |words|, step);
    var r := KeptChunks(words, size, starts);
    AllWindowsKept(words, size, starts);
    forall k | 0 <= k < |r|
      ensures StartOf(k, step) < |words| && r[k] == Join(Window(words, size, StartOf(k, step)))
    {
      assert starts[k] == StartOf(k, step);
    }
  }

  // ---------------------------------------------------------------- stride arithmetic

  lemma {:induction false} StartOfIsProduct(k: nat, step: nat)
    ensures StartOf(k, step) == k * step
  {
    if k > 0 {
      StartOfIsProduct(k - 1, step);
      assert (k - 1) * step + step == k * step;
    }
  }

  lemma MulLessCancel(a: int, b: int, step: int)
    requires step > 0 && a * step < b * step
    ensures a < b
  {
  }

  /** The chunk count `c` of a text with `n > 0` words is `ceil(n / step)`. */
  lemma CeilingIsDivision(n: int, step: int, c: int)
    requires n > 0 && step > 0
    requires (c - 1) * step < n <= c * step
    ensures c == (n + step - 1) / step
  {
    var q := (n + step - 1) / step;
    var rem := (n + step - 1) % step;
    assert n + step - 1 == q * step + rem;
    assert (c - 1) * step + step == c * step;
    assert c * step < (q + 1) * step;
    MulLessCancel(c, q + 1, step);
    assert q * step < (c + 1) * step;
    MulLessCancel(q, c + 1, step);
  }

  /** The stride that holds position `j`: `j / step`, written as repeated
      subtraction. */
  function StrideIndex(j: nat, step: nat): (k: nat)
    requires step > 0
    ensures StartOf(k, step) <= j < StartOf(k, step) + step
    decreases j
  {
    if j < step then 0 else StrideIndex(j - step, step) + 1
  }

  lemma {:induction false} StrideIndexIsQuotient(j: nat, step: nat)
    requires step > 0
    ensures StrideIndex(j, step) == j / step
  {
    var k := StrideIndex(j, step);
    var q := j / step;
    StartOfIsProduct(k, step);
    assert j == q * step + j % step;
    assert (k + 1) * step == k * step + step;
    assert (q + 1) * step == q * step + step;
    MulLessCancel(q, k + 1, step);
    MulLessCancel(k, q + 1, step);
  }

  /** Positions below the `c`-th window start lie in the first `c` strides. */
  lemma {:induction false} StrideBelow(j: nat, step: nat, c: nat)
    requires step > 0 && j < StartOf(c, step)
    ensures StrideIndex(j, step) < c
  {
    var k := StrideIndex(j, step);
    if k >= c {
      StartOfMonotone(c, k, step);
    }
  }

  lemma {:induction false} StartOfMonotone(a: nat, b: nat, step: nat)
    requires a <= b
    ensures StartOf(a, step) <= StartOf(b, step)
    decreases b - a
  {
    if a < b {
      StartOfMonotone(a, b - 1, step);
    }
  }

  /** A count `c` of strides whose last start lies before `n` and which
      reach `n` is `ceil(n / step)`. */
  lemma StrideCountIsCeiling(n: nat, step: nat, c: nat)
    requires n > 0 && step > 0 && c >= 1
    requires StartOf(c - 1, step) < n <= StartOf(c, step)
    ensures (c - 1) * step < n <= c * step
    ensures c == (n + step - 1) / step
  {
    StartOfIsProduct(c - 1, step);
    StartOfIsProduct(c, step);
    CeilingIsDivision(n, step, c);
  }

  // ---------------------------------------------------------------- chunks of a word list

  /** For a text with words and a positive stride, `chunk_text` is the loop
      over the words of the text, with no fallback. */
  lemma ChunksOfText(text: string, size: nat, overlap: nat)
    requires size > overlap && Words(text) != []
    ensures ChunkText(text, size, overlap).chunks == WordChunks(Words(text), size, size - overlap)
  {
  }

  /** Chunk `k` of `r` exists and its word at position `pos` is `w`. */
  predicate HoldsWordAt(r: seq<string>, k: int, pos: int, w: string) {
    0 <= k < |r| && 0 <= pos < |Words(r[k])| && Words(r[k])[pos] == w
  }

  /** `n > 0` words give `c` chunks, the least count of strides reaching past
      the last word: `(c - 1) * step < n <= c * step`, so `c` is
      `ceil(n / step)`. */
  lemma ChunkCount(words: seq<string>, size: nat, step: nat, r: seq<string>)
    requires ChunkWordLists(words, size, step, r) && words != []
    ensures |r| >= 1
    ensures (|r| - 1) * step < |words| <= |r| * step
    ensures |r| == (|words| + step - 1) / step
  {
    var last := r[|r| - 1];
    StrideCountIsCeiling(|words|, step, |r|);
  }

  /** The `k`-th chunk is the window of `size` words at the `k`-th start,
      joined by spaces (`StartOf(k, step) == k * step`), and it splits back
      into exactly those words, so it has between one and `size` of them. */
  lemma ChunkContents(words: seq<string>, size: nat, step: nat, r: seq<string>, k: nat)
    requires WindowedChunks(words, size, step, r) && k < |r|
    ensures var start := StartOf(k, step);
      && start < |words|
      && r[k] == Join(Window(words, size, start))
      && Words(r[k]) == Window(words, size, start)
      && 1 <= |Words(r[k])| <= size
  {
    var c := r[k];
    WindowSplitsBack(words, size, StartOf(k, step));
  }

  /** What the coverage and overlap properties need of a chunk list: chunk
      `k` splits into the window starting at `StartOf(k, step)`, every such
      start lies inside the text, and the windows reach past its end. */
  predicate ChunkWordLists(words: seq<string>, size: nat, step: nat, r: seq<string>)
  {
    && 1 <= step <= size
    && |words| <= StartOf(|r|, step)
    && (forall k {:trigger r[k]} :: 0 <= k < |r| ==>
          StartOf(k, step) < |words| && Words(r[k]) == Window(words, size, StartOf(k, step)))
  }

  lemma WindowedChunksSplit(words: seq<string>, size: nat, step: nat, r: seq<string>)
    requires WindowedChunks(words, size, step, r)
    ensures ChunkWordLists(words, size, step, r)
  {
    forall k | 0 <= k < |r|
      ensures StartOf(k, step) < |words| && Words(r[k]) == Window(words, size, StartOf(k, step))
    {
      ChunkContents(words, size, step, r, k);
    }
  }

  /** Coverage: word `j` lies in the window of chunk `StrideIndex(j, step)`
      (that is `j / step`), and that chunk holds it at the corresponding
      position. */
  lemma ChunksCoverEveryWord(words: seq<string>, size: nat, step: nat, r: seq<string>, j: nat)
    requires ChunkWordLists(words, size, step, r) && j < |words|
    ensures var k := StrideIndex(j, step);
      && StartOf(k, step) <= j < StartOf(k, step) + size
      && HoldsWordAt(r, k, j - StartOf(k, step), words[j])
  {
    StrideBelow(j, step, |r|);
    CoverAt(words, size, step, r, j, StrideIndex(j, step));
  }

  /** Word `j` sits in the window of any chunk whose stride holds it. */
  lemma CoverAt(words: seq<string>, size: nat, step: nat, r: seq<string>, j: nat, k: nat)
    requires ChunkWordLists(words, size, step, r) && j < |words|
    requires k < |r| && StartOf(k, step) <= j < StartOf(k, step) + step
    ensures HoldsWordAt(r, k, j - StartOf(k, step), words[j])
  {
    var start := StartOf(k, step);
    var w := Window(words, size, start);
    assert Words(r[k]) == w;
    assert j - start < |w| && w[j - start] == words[j];
  }

  /** Neighbouring chunks share `size - step` words (the overlap): word
      `step + i` of chunk `k` is word `i` of chunk `k + 1`, as far as the
      text reaches. */
  lemma ConsecutiveChunksOverlap(words: seq<string>, size: nat, step: nat, r: seq<string>, k: nat, i: nat)
    requires ChunkWordLists(words, size, step, r)
    requires k + 1 < |r| && i < size - step && StartOf(k + 1, step) + i < |words|
    ensures HoldsWordAt(r, k, step + i, words[StartOf(k + 1, step) + i])
    ensures HoldsWordAt(r, k + 1, i, words[StartOf(k + 1, step) + i])
  {
    var start := StartOf(k, step);
    var w := Window(words, size, start);
    var w' := Window(words, size, start + step);
    assert Words(r[k]) == w;
    assert Words(r[k + 1]) == w';
    assert step + i < |w| && i < |w'| && w[step + i] == w'[i] == words[start + step + i];
  }

  // ---------------------------------------------------------------- create_vector_store

  /** The pair `create_vector_store` returns: whether an index was built, and
      the chunk list it was built over. */
  datatype Store = Store(indexPresent: bool, chunks: seq<string>)

  /** Building the vector store of a text: no index and no chunks when the first chunk
      is empty, otherwise an index over all the default chunks. */
  function CreateVectorStore(text: string): (r: Store)
    ensures r.indexPresent <==> Words(text) != []
    ensures !r.indexPresent ==> r.chunks == []
    ensures r.indexPresent ==> |r.chunks| >= 1 && forall k :: 0 <= k < |r.chunks| ==> r.chunks[k] != ""
    ensures r.indexPresent ==> r.chunks == DefaultChunks(text)
  {
    var chunks := DefaultChunks(text);
    if |chunks| == 0 || chunks[0] == "" then Store(false, [])
    else Store(true, chunks)
  }

  /** The index is built over the word windows of the text: 500 words each,
      a new one every 400 words. */
  lemma StoredChunksAreWindows(text: string)
    requires Words(text) != []
    ensures CreateVectorStore(text).chunks == WordChunks(Words(text), ChunkSize, ChunkSize - Overlap)
  {
    ChunksOfText(text, ChunkSize, Overlap);
  }

  // ---------------------------------------------------------------- retrieve_chunks

  /** A label of the nearest-neighbour search: a stored position, or -1 for
      a slot the index could not fill. */
  type Label = i: int | -1 <= i

  /** A usable label: not the padding value -1, and naming a stored chunk. */
  predicate IsHit(chunks: seq<string>, slot: Label) {
    slot != -1 && slot < |chunks|
  }

  /** How many labels of `labels` pass the test. */
  function HitCount(chunks: seq<string>, labels: seq<Label>): (n: nat)
    ensures n <= |labels|
  {
    if |labels| == 0 then 0
    else HitCount(chunks, labels[..|labels| - 1]) + (if IsHit(chunks, labels[|labels| - 1]) then 1 else 0)
  }

  /** The filter loop of `retrieve_chunks`: the chunks named by the labels
      that pass the test, in search order. */
  function Gather(chunks: seq<string>, labels: seq<Label>): (r: seq<string>)
    ensures |r| == HitCount(chunks, labels) <= |labels|
  {
    if |labels| == 0 then []
    else
      var last := |labels| - 1;
      Gather(chunks, labels[..last]) + (if IsHit(chunks, labels[last]) then [chunks[labels[last]]] else [])
  }

  /** The hit at search position `p` lands at position "number of hits
      before `p`" of the result. */
  lemma {:induction false} GatherPlacesHits(chunks: seq<string>, labels: seq<Label>, p: nat)
    requires p < |labels| && IsHit(chunks, labels[p])
    ensures HitCount(chunks, labels[..p]) < |Gather(chunks, labels)|
    ensures Gather(chunks, labels)[HitCount(chunks, labels[..p])] == chunks[labels[p]]
    decreases |labels|
  {
    var last := |labels| - 1;
    var front := labels[..last];
    var prior := Gather(chunks, front);
    assert Gather(chunks, labels) == prior + (if IsHit(chunks, labels[last]) then [chunks[labels[last]]] else []);
    if p < last {
      assert labels[..p] == front[..p];
      GatherPlacesHits(chunks, front, p);
    } else {
      assert labels[..p] == front;
    }
  }

  /** `c` is the chunk named by some label that passes the test. */
  predicate NamedByHit(chunks: seq<string>, labels: seq<Label>, c: string) {
    exists p :: 0 <= p < |labels| && IsHit(chunks, labels[p]) && c == chunks[labels[p]]
  }

  /** Nothing but hits is collected. */
  lemma {:induction false} GatherOnlyHits(chunks: seq<string>, labels: seq<Label>, j: nat)
    requires j < |Gather(chunks, labels)|
    ensures NamedByHit(chunks, labels, Gather(chunks, labels)[j])
    decreases |labels|
  {
    var last := |labels| - 1;
    var front := labels[..last];
    var prior := Gather(chunks, front);
    if j < |prior| {
      GatherOnlyHits(chunks, front, j);
      var p :| 0 <= p < |front| && IsHit(chunks, front[p]) && prior[j] == chunks[front[p]];
      assert labels[p] == front[p];
    } else {
      assert Gather(chunks, labels)[j] == chunks[labels[last]];
    }
  }

  /** Retrieval for a query, given the labels the index
      returned for the query: nothing when there is no index or no chunk,
      otherwise one chunk per usable label, in the order of the labels. */
  function RetrieveChunks(indexPresent: bool, chunks: seq<string>, labels: seq<Label>): (r: seq<string>)
    ensures !indexPresent || chunks == [] ==> r == []
    ensures indexPresent && chunks != [] ==> r == Gather(chunks, labels) && |r| == HitCount(chunks, labels)
    ensures indexPresent && chunks != [] ==>
              forall p :: 0 <= p < |labels| && IsHit(chunks, labels[p]) ==>
                HitCount(chunks, labels[..p]) < |r| && r[HitCount(chunks, labels[..p])] == chunks[labels[p]]
    ensures |r| <= |labels|
    ensures forall j :: 0 <= j < |r| ==> NamedByHit(chunks, labels, r[j])
  {
    if !indexPresent || |chunks| == 0 then []
    else
      var r := Gather(chunks, labels);
      forall j | 0 <= j < |r| ensures NamedByHit(chunks, labels, r[j]) {
        GatherOnlyHits(chunks, labels, j);
      }
      forall p | 0 <= p < |labels| && IsHit(chunks, labels[p])
        ensures HitCount(chunks, labels[..p]) < |r| && r[HitCount(chunks, labels[..p])] == chunks[labels[p]]
      {
        GatherPlacesHits(chunks, labels, p);
      }
      r
  }

  /** The index answers a search with exactly `TopK` labels, padding with -1
      when it holds fewer vectors; so at most `TopK` chunks come back, and
      `TopK` of them exactly when every label names a stored chunk. */
  lemma RetrievedAtMostTopK(indexPresent: bool, chunks: seq<string>, labels: seq<Label>)
    requires |labels| == TopK
    ensures |RetrieveChunks(indexPresent, chunks, labels)| <= TopK
    ensures |RetrieveChunks(indexPresent, chunks, labels)| == TopK <==>
              indexPresent && chunks != [] && forall p :: 0 <= p < |labels| ==> IsHit(chunks, labels[p])
  {
    if indexPresent && chunks != [] {
      if forall p :: 0 <= p < |labels| ==> IsHit(chunks, labels[p]) {
        AllHitsCount(chunks, labels);
      } else if HitCount(chunks, labels) == |labels| {
        FullCountAllHits(chunks, labels);
      }
    }
  }

  /** When every label names a stored chunk, the retrieved chunks are exactly
      the labelled ones, in search order. */
  lemma {:induction false} GatherAllHits(chunks: seq<string>, labels: seq<Label>)
    requires forall p :: 0 <= p < |labels| ==> IsHit(chunks, labels[p])
    ensures |Gather(chunks, labels)| == |labels|
    ensures forall p :: 0 <= p < |labels| ==> IsHit(chunks, labels[p]) && Gather(chunks, labels)[p] == chunks[labels[p]]
  {
    var r := Gather(chunks, labels);
    AllHitsCount(chunks, labels);
    forall p | 0 <= p < |labels| ensures r[p] == chunks[labels[p]] {
      AllHitsCount(chunks, labels[..p]);
      GatherPlacesHits(chunks, labels, p);
    }
  }

  lemma {:induction false} AllHitsCount(chunks: seq<string>, labels: seq<Label>)
    requires forall p :: 0 <= p < |labels| ==> IsHit(chunks, labels[p])
    ensures HitCount(chunks, labels) == |labels|
    decreases |labels|
  {
    if |labels| > 0 {
      AllHitsCount(chunks, labels[..|labels| - 1]);
    }
  }

  /** Conversely, when every label is counted, every label is usable. */
  lemma {:induction false} FullCountAllHits(chunks: seq<string>, labels: seq<Label>)
    requires HitCount(chunks, labels) == |labels|
    ensures forall p :: 0 <= p < |labels| ==> IsHit(chunks, labels[p])
    decreases |labels|
  {
    if |labels| > 0 {
      var front := labels[..|labels| - 1];
      FullCountAllHits(chunks, front);
      forall p | 0 <= p < |labels| ensures IsHit(chunks, labels[p]) {
        if p < |front| {
          assert labels[p] == front[p];
        }
      }
    }
  }
}
