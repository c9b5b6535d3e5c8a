/** `chunkTexts`: the sliding-window text chunker. A window of `chunkSize`
    characters is cut at `start`, then `start` advances by
    `chunkSize - overlapSize`, until `start` reaches the end of the text. */
module Chunker {
  import opened JsString
  import opened Sequences

  const DEFAULT_CHUNK_SIZE: int := 1000
  const DEFAULT_OVERLAP_SIZE: int := 200

  function Min(a: int, b: int): int
  {
    if a <= b then a else b
  }

  /** How far `start` moves between two chunks. */
  function Step(chunkSize: int, overlapSize: int): int
  {
    chunkSize - overlapSize
  }

  /** The number of chunks of a text of length `n`: ceil(n / step). */
  function ChunkCount(n: nat, step: int): nat
    requires step > 0
  {
    (n + step - 1) / step
  }

  lemma MulMonotone(a: int, b: int, c: nat)
    requires a <= b
    ensures a * c <= b * c
  {
  }

  lemma NextStart(k: nat, step: int)
    ensures (k + 1) * step == k * step + step
  {
  }

  /** Chunk `k` exists exactly when its start `k * step` lies inside the
      text: ChunkCount is the least k with k * step >= n. */
  lemma CountBound(n: nat, step: int, k: nat)
    requires step > 0
    ensures k < ChunkCount(n, step) <==> k * step < n
  {
    var m := n + step - 1;
    var q := m / step;
    assert m == q * step + m % step;
    if k < q {
      MulMonotone(k, q - 1, step);
      assert (q - 1) * step == q * step - step;
    } else {
      MulMonotone(q, k, step);
    }
  }

  /** The chunks the loop still adds once `start` has reached the given
      value: `text.slice(start, start + chunkSize)`, then those from the
      next start on, until `start` reaches the end of the text. */
  function ChunksFrom(text: string, chunkSize: int, overlapSize: int, start: nat): seq<string>
    requires Step(chunkSize, overlapSize) > 0
    decreases |text| - start
  {
    if start >= |text| then []
    else [Slice(text, start, start + chunkSize)] +
         ChunksFrom(text, chunkSize, overlapSize, start + Step(chunkSize, overlapSize))
  }

  /** One turn of the loop: the slice at `start`, then the chunks from the
      next start on. */
  lemma ChunksFromUnfold(text: string, chunkSize: int, overlapSize: int, start: nat)
    requires Step(chunkSize, overlapSize) > 0
    requires start < |text|
    ensures ChunksFrom(text, chunkSize, overlapSize, start) ==
      [Slice(text, start, start + chunkSize)] +
      ChunksFrom(text, chunkSize, overlapSize, start + Step(chunkSize, overlapSize))
  {
  }

  /** What `chunkTexts` returns. */
  function Chunks(text: string, chunkSize: int, overlapSize: int): seq<string>
    requires Step(chunkSize, overlapSize) > 0
  {
    ChunksFrom(text, chunkSize, overlapSize, 0)
  }

  /** chunkTexts(text, chunkSize = 1000, overlapSize = 200). On empty text
      the loop does not run, whatever the sizes; on any other text it ends
      only when `start` advances, that is when overlapSize < chunkSize.
      Nothing else is asked of the sizes. */
  method ChunkTexts(text: string, chunkSize: int := DEFAULT_CHUNK_SIZE,
                    overlapSize: int := DEFAULT_OVERLAP_SIZE)
    returns (chunks: seq<string>)
    requires text == [] || overlapSize < chunkSize
    ensures overlapSize < chunkSize ==> chunks == Chunks(text, chunkSize, overlapSize)
    ensures chunks == [] <==> text == []
  {
    var step := chunkSize - overlapSize;
    chunks := [];
    var start: nat := 0;
    while start < |text|
      invariant overlapSize < chunkSize ==>
        chunks + ChunksFrom(text, chunkSize, overlapSize, start) == Chunks(text, chunkSize, overlapSize)
      invariant text == [] ==> chunks == []
      decreases |text| - start
    {
      var end := start + chunkSize;
      var chunk := Slice(text, start, end);
      ChunksAfterTurn(text, chunkSize, overlapSize, start, chunks);
      chunks := chunks + [chunk];
      start := start + step;
    }
    if overlapSize < chunkSize {
      assert chunks + [] == chunks;
      ChunksEmpty(text, chunkSize, overlapSize);
    }
  }

  /** A turn of the loop moves the slice at `start` from what is still to
      come to what has been pushed. */
  lemma ChunksAfterTurn(text: string, chunkSize: int, overlapSize: int, start: nat, chunks: seq<string>)
    requires Step(chunkSize, overlapSize) > 0
    requires start < |text|
    ensures chunks + ChunksFrom(text, chunkSize, overlapSize, start) ==
      (chunks + [Slice(text, start, start + chunkSize)]) +
      ChunksFrom(text, chunkSize, overlapSize, start + Step(chunkSize, overlapSize))
  {
    ChunksFromUnfold(text, chunkSize, overlapSize, start);
    AppendAssoc(chunks, [Slice(text, start, start + chunkSize)],
                ChunksFrom(text, chunkSize, overlapSize, start + Step(chunkSize, overlapSize)));
  }

  /** Only the empty text gives no chunks. */
  lemma ChunksEmpty(text: string, chunkSize: int, overlapSize: int)
    requires overlapSize < chunkSize
    ensures Chunks(text, chunkSize, overlapSize) == [] <==> text == []
  {
    if text != [] {
      ChunksFromUnfold(text, chunkSize, overlapSize, 0);
    }
  }

  /** From the j-th start on there are as many chunks as are left of
      ChunkCount. */
  lemma {:induction false} ChunksFromCount(text: string, chunkSize: int, overlapSize: int,
                                           j: nat, start: nat)
    requires overlapSize < chunkSize
    requires start == j * Step(chunkSize, overlapSize)
    requires j <= ChunkCount(|text|, Step(chunkSize, overlapSize))
    ensures j + |ChunksFrom(text, chunkSize, overlapSize, start)| == ChunkCount(|text|, Step(chunkSize, overlapSize))
    decreases ChunkCount(|text|, Step(chunkSize, overlapSize)) - j
  {
    var step := Step(chunkSize, overlapSize);
    CountBound(|text|, step, j);
    if start < |text| {
      NextStart(j, step);
      ChunksFromCount(text, chunkSize, overlapSize, j + 1, start + step);
    }
  }

  /** The offset of chunk k from the first start: step added k times,
      which is k * step (OffsetIsProduct). */
  function Offset(k: nat, step: int): int
  {
    if k == 0 then 0 else Offset(k - 1, step) + step
  }

  lemma {:induction false} OffsetIsProduct(k: nat, step: int)
    ensures Offset(k, step) == k * step
  {
    if k > 0 {
      OffsetIsProduct(k - 1, step);
      assert (k - 1) * step + step == k * step;
    }
  }

  /** Chunk k from `start` on is the window at start + k * step, and that
      position lies inside the text. */
  lemma {:induction false} ChunksFromAt(text: string, chunkSize: int, overlapSize: int,
                                        start: nat, k: nat, pos: int)
    requires overlapSize < chunkSize
    requires pos == start + Offset(k, Step(chunkSize, overlapSize))
    requires k < |ChunksFrom(text, chunkSize, overlapSize, start)|
    ensures start <= pos < |text|
    ensures ChunksFrom(text, chunkSize, overlapSize, start)[k] == Slice(text, pos, pos + chunkSize)
    decreases k
  {
    if k > 0 {
      var step := Step(chunkSize, overlapSize);
      var rest := ChunksFrom(text, chunkSize, overlapSize, start + step);
      assert ChunksFrom(text, chunkSize, overlapSize, start)[k] == rest[k - 1];
      ChunksFromAt(text, chunkSize, overlapSize, start + step, k - 1, pos);
    }
  }

  /** There are ceil(n / step) chunks, and chunk k is
      `text.slice(k * step, k * step + chunkSize)`. */
  lemma ClosedForm(text: string, chunkSize: int, overlapSize: int)
    requires overlapSize < chunkSize
    ensures var cs := Chunks(text, chunkSize, overlapSize);
      var step := Step(chunkSize, overlapSize);
      |cs| == ChunkCount(|text|, step) &&
      forall k :: 0 <= k < |cs| ==> cs[k] == Slice(text, k * step, k * step + chunkSize)
  {
    var step := Step(chunkSize, overlapSize);
    ChunksFromCount(text, chunkSize, overlapSize, 0, 0);
    forall k | 0 <= k < |Chunks(text, chunkSize, overlapSize)|
      ensures Chunks(text, chunkSize, overlapSize)[k] == Slice(text, k * step, k * step + chunkSize)
    {
      OffsetIsProduct(k, step);
      ChunksFromAt(text, chunkSize, overlapSize, 0, k, k * step);
    }
  }

  /** Chunk k in terms of its offset: the text from there up to chunkSize
      characters further, cut off at the end of the text. */
  lemma ChunkWindow(text: string, chunkSize: int, overlapSize: int, k: nat)
    requires 0 < chunkSize && overlapSize < chunkSize
    requires k < |Chunks(text, chunkSize, overlapSize)|
    ensures var start := Offset(k, Step(chunkSize, overlapSize));
      0 <= start < |text| &&
      Chunks(text, chunkSize, overlapSize)[k] == text[start..Min(start + chunkSize, |text|)]
  {
    var start := Offset(k, Step(chunkSize, overlapSize));
    ChunksFromAt(text, chunkSize, overlapSize, 0, k, start);
  }

  /** Chunk k is the text from k * step up to k * step + chunkSize, cut off
      at the end of the text; it is never empty and never longer than
      chunkSize. */
  lemma ChunkBounds(text: string, chunkSize: int, overlapSize: int, k: nat)
    requires 0 < chunkSize && overlapSize < chunkSize
    requires k < |Chunks(text, chunkSize, overlapSize)|
    ensures var start := k * Step(chunkSize, overlapSize);
      start < |text| &&
      Chunks(text, chunkSize, overlapSize)[k] == text[start..Min(start + chunkSize, |text|)]
    ensures 0 < |Chunks(text, chunkSize, overlapSize)[k]| <= chunkSize
  {
    ChunkWindow(text, chunkSize, overlapSize, k);
    OffsetIsProduct(k, Step(chunkSize, overlapSize));
  }

  /** With the defaults, 1500 characters give two chunks, of 1000 and 700
      characters, starting at 0 and 800. */
  lemma DefaultsOn1500(text: string)
    requires |text| == 1500
    ensures Chunks(text, DEFAULT_CHUNK_SIZE, DEFAULT_OVERLAP_SIZE) == [text[0..1000], text[800..1500]]
  {
    assert ChunksFrom(text, DEFAULT_CHUNK_SIZE, DEFAULT_OVERLAP_SIZE, 1600) == [];
    assert ChunksFrom(text, DEFAULT_CHUNK_SIZE, DEFAULT_OVERLAP_SIZE, 800) == [text[800..1500]];
  }

  /** The first chunk from `start` on is the window of the text there. */
  lemma ChunksFromHead(text: string, chunkSize: int, overlapSize: int, start: nat)
    requires 0 <= overlapSize < chunkSize
    requires start < |text|
    ensures ChunksFrom(text, chunkSize, overlapSize, start) ==
      [text[start..Min(start + chunkSize, |text|)]] +
      ChunksFrom(text, chunkSize, overlapSize, start + Step(chunkSize, overlapSize))
  {
  }

  /** The chunk from `start` on whose first `step` characters hold
      character i. */
  lemma {:induction false} CoverageFrom(text: string, chunkSize: int, overlapSize: int, start: nat, i: nat)
    returns (k: nat)
    requires 0 <= overlapSize < chunkSize
    requires start <= i < |text|
    ensures var from := start + Offset(k, Step(chunkSize, overlapSize));
      k < |ChunksFrom(text, chunkSize, overlapSize, start)| &&
      from <= i < from + Step(chunkSize, overlapSize)
    decreases |text| - start
  {
    var step := Step(chunkSize, overlapSize);
    var rest := ChunksFrom(text, chunkSize, overlapSize, start + step);
    assert |ChunksFrom(text, chunkSize, overlapSize, start)| == 1 + |rest|;
    if i < start + step {
      k := 0;
    } else {
      var j := CoverageFrom(text, chunkSize, overlapSize, start + step, i);
      k := j + 1;
      assert Offset(k, step) == Offset(j, step) + step;
    }
  }

  /** Every character of the text lies in some chunk, at its offset from
      that chunk's start. */
  lemma Coverage(text: string, chunkSize: int, overlapSize: int, i: nat)
    requires 0 <= overlapSize < chunkSize
    requires i < |text|
    ensures var cs := Chunks(text, chunkSize, overlapSize);
      exists k :: 0 <= k < |cs| &&
        k * Step(chunkSize, overlapSize) <= i < k * Step(chunkSize, overlapSize) + |cs[k]| &&
        cs[k][i - k * Step(chunkSize, overlapSize)] == text[i]
  {
    var step := Step(chunkSize, overlapSize);
    var cs := Chunks(text, chunkSize, overlapSize);
    var k := CoverageFrom(text, chunkSize, overlapSize, 0, i);
    ChunkWindow(text, chunkSize, overlapSize, k);
    OffsetIsProduct(k, step);
    var from := k * step;
    assert cs[k] == text[from..Min(from + chunkSize, |text|)];
    assert from <= i < from + |cs[k]| && cs[k][i - from] == text[i];
  }

  /** From `start` on, the last chunk ends exactly at the end of the text. */
  lemma {:induction false} LastFrom(text: string, chunkSize: int, overlapSize: int, start: nat)
    requires 0 <= overlapSize < chunkSize
    requires start < |text|
    ensures var cs := ChunksFrom(text, chunkSize, overlapSize, start);
      |cs| > 0 &&
      start + Offset(|cs| - 1, Step(chunkSize, overlapSize)) + |cs[|cs| - 1]| == |text|
    decreases |text| - start
  {
    var step := Step(chunkSize, overlapSize);
    var cs := ChunksFrom(text, chunkSize, overlapSize, start);
    var rest := ChunksFrom(text, chunkSize, overlapSize, start + step);
    assert cs == [Slice(text, start, start + chunkSize)] + rest;
    if start + step >= |text| {
      assert rest == [];
      assert cs[0] == text[start..Min(start + chunkSize, |text|)];
    } else {
      LastFrom(text, chunkSize, overlapSize, start + step);
      assert cs[|cs| - 1] == rest[|rest| - 1];
      assert Offset(|cs| - 1, step) == Offset(|rest| - 1, step) + step;
    }
  }

  /** The last chunk ends exactly at the end of the text. */
  lemma LastChunkEndsText(text: string, chunkSize: int, overlapSize: int)
    requires 0 <= overlapSize < chunkSize
    requires text != []
    ensures var cs := Chunks(text, chunkSize, overlapSize);
      |cs| > 0 &&
      (|cs| - 1) * Step(chunkSize, overlapSize) + |cs[|cs| - 1]| == |text|
  {
    var cs := Chunks(text, chunkSize, overlapSize);
    LastFrom(text, chunkSize, overlapSize, 0);
    OffsetIsProduct(|cs| - 1, Step(chunkSize, overlapSize));
  }

  /** A chunk of full length shares its last overlapSize characters with the
      first overlapSize characters of the next chunk. */
  lemma Overlap(text: string, chunkSize: int, overlapSize: int, k: nat)
    requires 0 <= overlapSize < chunkSize
    requires k + 1 < |Chunks(text, chunkSize, overlapSize)|
    requires |Chunks(text, chunkSize, overlapSize)[k]| == chunkSize
    ensures var cs := Chunks(text, chunkSize, overlapSize);
      |cs[k + 1]| >= overlapSize &&
      cs[k][chunkSize - overlapSize..] == cs[k + 1][..overlapSize]
  {
    var step := Step(chunkSize, overlapSize);
    ChunkWindow(text, chunkSize, overlapSize, k);
    ChunkWindow(text, chunkSize, overlapSize, k + 1);
    assert Offset(k + 1, step) == Offset(k, step) + step;
    WindowsOverlap(text, Offset(k, step), chunkSize, overlapSize);
  }

  /** Two windows of width chunkSize, step apart, the first one inside the
      text, share overlapSize characters. */
  lemma WindowsOverlap(text: string, s: int, chunkSize: int, overlapSize: int)
    requires 0 <= overlapSize < chunkSize
    requires 0 <= s && s + chunkSize <= |text|
    ensures var next := text[s + (chunkSize - overlapSize)..Min(s + (chunkSize - overlapSize) + chunkSize, |text|)];
      |next| >= overlapSize &&
      text[s..s + chunkSize][chunkSize - overlapSize..] == next[..overlapSize]
  {
    var step := chunkSize - overlapSize;
    var next := text[s + step..Min(s + step + chunkSize, |text|)];
    assert s + step + overlapSize == s + chunkSize <= Min(s + step + chunkSize, |text|);
    assert text[s..s + chunkSize][step..] == text[s + step..s + chunkSize];
    assert next[..overlapSize] == text[s + step..s + chunkSize];
  }

  /** The reassembly: the first `step` characters of every chunk but the
      last, followed by the whole last chunk. */
  function Reassemble(chunks: seq<string>, step: nat): string
  {
    if |chunks| == 0 then []
    else if |chunks| == 1 then chunks[0]
    else chunks[0][..Min(step, |chunks[0]|)] + Reassemble(chunks[1..], step)
  }

  lemma {:induction false} ReassembleFrom(text: string, chunkSize: int, overlapSize: int, start: nat)
    requires 0 <= overlapSize < chunkSize
    requires start < |text|
    ensures Reassemble(ChunksFrom(text, chunkSize, overlapSize, start), Step(chunkSize, overlapSize))
            == text[start..]
    decreases |text| - start
  {
    if start + Step(chunkSize, overlapSize) < |text| {
      ReassembleFrom(text, chunkSize, overlapSize, start + Step(chunkSize, overlapSize));
      ReassembleStep(text, chunkSize, overlapSize, start);
    } else {
      ReassembleLast(text, chunkSize, overlapSize, start);
    }
  }

  /** The last chunk alone reassembles to the rest of the text. */
  lemma ReassembleLast(text: string, chunkSize: int, overlapSize: int, start: nat)
    requires 0 <= overlapSize < chunkSize
    requires start < |text| <= start + Step(chunkSize, overlapSize)
    ensures Reassemble(ChunksFrom(text, chunkSize, overlapSize, start), Step(chunkSize, overlapSize))
            == text[start..]
  {
    var step := Step(chunkSize, overlapSize);
    ChunksFromHead(text, chunkSize, overlapSize, start);
    assert ChunksFrom(text, chunkSize, overlapSize, start) == [text[start..Min(start + chunkSize, |text|)]];
    LastWindow(text, start, chunkSize, step);
  }

  /** A chunk that is not the last one adds its first step characters in
      front of what the later chunks reassemble to. */
  lemma ReassembleStep(text: string, chunkSize: int, overlapSize: int, start: nat)
    requires 0 <= overlapSize < chunkSize
    requires start + Step(chunkSize, overlapSize) < |text|
    requires Reassemble(ChunksFrom(text, chunkSize, overlapSize, start + Step(chunkSize, overlapSize)),
                        Step(chunkSize, overlapSize))
             == text[start + Step(chunkSize, overlapSize)..]
    ensures Reassemble(ChunksFrom(text, chunkSize, overlapSize, start), Step(chunkSize, overlapSize))
            == text[start..]
  {
    var step := Step(chunkSize, overlapSize);
    var rest := ChunksFrom(text, chunkSize, overlapSize, start + step);
    var w := text[start..Min(start + chunkSize, |text|)];
    ChunksFromHead(text, chunkSize, overlapSize, start);
    assert rest != [];
    ReassembleCons(w, rest, step);
    WindowThenRest(text, start, chunkSize, step);
  }

  lemma ReassembleCons(w: string, rest: seq<string>, step: nat)
    requires rest != []
    ensures Reassemble([w] + rest, step) == w[..Min(step, |w|)] + Reassemble(rest, step)
  {
    assert ([w] + rest)[1..] == rest;
  }

  /** A window that reaches past the end of the text is the rest of the text. */
  lemma LastWindow(text: string, s: int, chunkSize: int, step: int)
    requires 0 <= s < |text| <= s + step && step <= chunkSize
    ensures text[s..Min(s + chunkSize, |text|)] == text[s..]
  {
  }

  /** The first step characters of a window, followed by the text from the
      next start on, are the text from this window's start on. */
  lemma WindowThenRest(text: string, s: int, chunkSize: int, step: int)
    requires 0 <= s && 0 < step <= chunkSize && s + step <= |text|
    ensures var w := text[s..Min(s + chunkSize, |text|)];
      w[..Min(step, |w|)] + text[s + step..] == text[s..]
  {
    var w := text[s..Min(s + chunkSize, |text|)];
    assert Min(step, |w|) == step;
    assert w[..step] == text[s..s + step];
  }

  /** Reassembling the chunks gives back the text. */
  lemma Reconstruction(text: string, chunkSize: int, overlapSize: int)
    requires 0 <= overlapSize < chunkSize
    ensures Reassemble(Chunks(text, chunkSize, overlapSize), Step(chunkSize, overlapSize)) == text
  {
    if text == [] {
      assert Chunks(text, chunkSize, overlapSize) == [];
    } else {
      ReassembleFrom(text, chunkSize, overlapSize, 0);
    }
  }

  /** When overlapSize >= chunkSize, `start` stays at or below 0 however
      many times the loop body runs, so on a non-empty text the loop guard
      never fails. */
  lemma {:induction false} NoProgress(text: string, chunkSize: int, overlapSize: int, iterations: nat)
    requires Step(chunkSize, overlapSize) <= 0
    requires text != []
    ensures Offset(iterations, Step(chunkSize, overlapSize)) <= 0
    ensures Offset(iterations, Step(chunkSize, overlapSize)) < |text|
  {
    if iterations > 0 {
      NoProgress(text, chunkSize, overlapSize, iterations - 1);
    }
  }
}
