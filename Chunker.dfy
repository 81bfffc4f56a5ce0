/** The sliding-window text chunker `split_text` of app.py: a cursor starts at 0,
    each step emits the window of `chunkSize` characters at the cursor (clamped
    at the end of the text, as Python slicing does) and moves the cursor to the
    window's end minus `overlap`. The cursor advances by `chunkSize - overlap`,
    so on a non-empty text the loop only terminates when `overlap < chunkSize`;
    the source does not check this, and it is a precondition here. */
module Chunker {
  import opened Text

  /** The default arguments of `split_text`, which the upload path uses. */
  const DefaultChunkSize: nat := 1000
  const DefaultOverlap: nat := 100

  /** The chunks the loop still emits once its cursor has reached `start`. */
  function ChunksFrom(text: string, chunkSize: nat, overlap: nat, start: nat): (r: seq<string>)
    requires overlap < chunkSize
    ensures forall k :: 0 <= k < |r| ==> 0 < |r[k]| <= chunkSize
    ensures start >= |text| <==> r == []
    decreases |text| - start
  {
    if start >= |text| then []
    else [Slice(text, start, start + chunkSize)] + ChunksFrom(text, chunkSize, overlap, start + chunkSize - overlap)
  }

  /** Everything `split_text(text, chunkSize, overlap)` returns. */
  function Chunks(text: string, chunkSize: nat, overlap: nat): seq<string>
    requires overlap < chunkSize
  {
    ChunksFrom(text, chunkSize, overlap, 0)
  }

  /** `split_text`: the loop of the source, appending one window per step. */
  method SplitText(text: string, chunkSize: nat, overlap: nat) returns (chunks: seq<string>)
    requires overlap < chunkSize
    ensures chunks == Chunks(text, chunkSize, overlap)
  {
    chunks := [];
    var start := 0;
    var textLength := |text|;
    while start < textLength
      invariant chunks + ChunksFrom(text, chunkSize, overlap, start) == Chunks(text, chunkSize, overlap)
      decreases textLength - start
    {
      var end := start + chunkSize;
      var chunk := Slice(text, start, end);
      chunks := chunks + [chunk];
      start := end - overlap;
    }
  }

  // ---------------------------------------------------------------------------
  // Closed form: offsets and number of chunks

  /** The cursor position before step k: k steps of `chunkSize - overlap`. */
  function Offset(step: nat, k: nat): nat
  {
    if k == 0 then 0 else Offset(step, k - 1) + step
  }

  lemma {:induction false} OffsetIsProduct(step: nat, k: nat)
    ensures Offset(step, k) == k * step
  {
    if k > 0 {
      OffsetIsProduct(step, k - 1);
      assert (k - 1) * step + step == k * step;
    }
  }

  lemma {:induction false} ChunksFromAt(text: string, chunkSize: nat, overlap: nat, start: nat, k: nat)
    requires overlap < chunkSize
    requires k < |ChunksFrom(text, chunkSize, overlap, start)|
    ensures start + Offset(chunkSize - overlap, k) < |text|
    ensures ChunksFrom(text, chunkSize, overlap, start)[k]
         == text[start + Offset(chunkSize - overlap, k)..Min(start + Offset(chunkSize - overlap, k) + chunkSize, |text|)]
    decreases k
  {
    var step := chunkSize - overlap;
    if k > 0 {
      ChunksFromAt(text, chunkSize, overlap, start + step, k - 1);
      OffsetShift(step, k);
    }
  }

  lemma {:induction false} OffsetMono(step: nat, i: nat, j: nat)
    requires i <= j
    ensures Offset(step, i) <= Offset(step, j)
    decreases j - i
  {
    if i < j {
      OffsetMono(step, i, j - 1);
    }
  }

  lemma {:induction false} OffsetShift(step: nat, k: nat)
    requires k > 0
    ensures Offset(step, k) == step + Offset(step, k - 1)
  {
  }

  /** Chunk k is the window `text[k*step : k*step + chunkSize]` with
      `step = chunkSize - overlap`, clamped at the end of the text. */
  lemma ChunkAt(text: string, chunkSize: nat, overlap: nat, k: nat)
    requires overlap < chunkSize
    requires k < |Chunks(text, chunkSize, overlap)|
    ensures 0 <= k * (chunkSize - overlap) < |text|
    ensures var o := k * (chunkSize - overlap);
      Chunks(text, chunkSize, overlap)[k] == text[o..Min(o + chunkSize, |text|)]
  {
    ChunksFromAt(text, chunkSize, overlap, 0, k);
    OffsetIsProduct(chunkSize - overlap, k);
  }

  lemma {:induction false} ChunksFromCount(text: string, chunkSize: nat, overlap: nat, start: nat)
    requires overlap < chunkSize
    ensures var c := |ChunksFrom(text, chunkSize, overlap, start)|;
      start < |text| ==> 0 < c && start + Offset(chunkSize - overlap, c - 1) < |text|
                                  && |text| <= start + Offset(chunkSize - overlap, c)
    decreases |text| - start
  {
    var step := chunkSize - overlap;
    if start < |text| {
      var c' := |ChunksFrom(text, chunkSize, overlap, start + step)|;
      ChunksFromCount(text, chunkSize, overlap, start + step);
      OffsetShift(step, c' + 1);
      if c' > 0 {
        OffsetShift(step, c');
      }
    }
  }

  lemma DivOfRange(a: nat, b: nat, q: nat)
    requires 0 < b && q * b <= a < q * b + b
    ensures a / b == q
  {
    var d, m := a / b, a % b;
    assert a == d * b + m && 0 <= m < b;
    MulAtLeast(d - q, b);
    MulAtLeast(q - d, b);
    assert (d - q) * b == d * b - q * b;
    assert (q - d) * b == q * b - d * b;
  }

  lemma MulAtLeast(x: int, b: nat)
    ensures x >= 1 ==> x * b >= b
  {
  }

  /** The number of chunks is `ceil(len(text) / (chunkSize - overlap))`. */
  lemma ChunkCount(text: string, chunkSize: nat, overlap: nat)
    requires overlap < chunkSize
    ensures |Chunks(text, chunkSize, overlap)|
         == (|text| + (chunkSize - overlap) - 1) / (chunkSize - overlap)
  {
    var step := chunkSize - overlap;
    var c := |Chunks(text, chunkSize, overlap)|;
    ChunksFromCount(text, chunkSize, overlap, 0);
    if |text| == 0 {
      assert (step - 1) / step == 0;
    } else {
      OffsetIsProduct(step, c);
      OffsetIsProduct(step, c - 1);
      assert (c - 1) * step == c * step - step;
      DivOfRange(|text| + step - 1, step, c);
    }
  }

  // ---------------------------------------------------------------------------
  // Shape of every chunk

  /** Every chunk is non-empty and at most `chunkSize` long, and a chunk shorter
      than `chunkSize` reaches exactly to the end of the text. */
  lemma ChunkShape(text: string, chunkSize: nat, overlap: nat, k: nat)
    requires overlap < chunkSize
    requires k < |Chunks(text, chunkSize, overlap)|
    ensures 0 < |Chunks(text, chunkSize, overlap)[k]| <= chunkSize
    ensures |Chunks(text, chunkSize, overlap)[k]| < chunkSize ==>
      k * (chunkSize - overlap) + |Chunks(text, chunkSize, overlap)[k]| == |text|
  {
    ChunksFromAt(text, chunkSize, overlap, 0, k);
    OffsetIsProduct(chunkSize - overlap, k);
  }

  /** When chunk k is full and chunk k+1 exists, the last `overlap` characters
      of chunk k are the first `overlap` characters of chunk k+1. */
  lemma ChunkOverlap(text: string, chunkSize: nat, overlap: nat, k: nat)
    requires overlap < chunkSize
    requires k + 1 < |Chunks(text, chunkSize, overlap)|
    requires |Chunks(text, chunkSize, overlap)[k]| == chunkSize
    ensures overlap <= |Chunks(text, chunkSize, overlap)[k + 1]|
    ensures Chunks(text, chunkSize, overlap)[k][chunkSize - overlap..]
         == Chunks(text, chunkSize, overlap)[k + 1][..overlap]
  {
    var step := chunkSize - overlap;
    var chunks := Chunks(text, chunkSize, overlap);
    ChunksFromAt(text, chunkSize, overlap, 0, k);
    ChunksFromAt(text, chunkSize, overlap, 0, k + 1);
    OffsetShift(step, k + 1);
    var o := Offset(step, k);
    assert o + chunkSize <= |text|;
    assert chunks[k] == text[o..o + chunkSize];
    assert chunks[k + 1] == text[o + step..Min(o + step + chunkSize, |text|)];
    WindowsOverlap(text, o, chunkSize, overlap);
  }

  lemma WindowsOverlap(text: string, o: nat, chunkSize: nat, overlap: nat)
    requires overlap < chunkSize && o + chunkSize <= |text|
    ensures var w := text[o + chunkSize - overlap..Min(o + chunkSize - overlap + chunkSize, |text|)];
      overlap <= |w| && text[o..o + chunkSize][chunkSize - overlap..] == w[..overlap]
  {
  }

  // ---------------------------------------------------------------------------
  // Reconstruction

  /** Concatenation of `chunk[overlap:]` over the chunks. */
  function DropOverlaps(chunks: seq<string>, overlap: nat): string
  {
    if chunks == [] then [] else Drop(chunks[0], overlap) + DropOverlaps(chunks[1..], overlap)
  }

  /** The first chunk followed by every later chunk with its first `overlap`
      characters dropped. */
  function Stitch(chunks: seq<string>, overlap: nat): string
  {
    if chunks == [] then [] else chunks[0] + DropOverlaps(chunks[1..], overlap)
  }

  lemma {:induction false} DropOverlapsFrom(text: string, chunkSize: nat, overlap: nat, start: nat)
    requires overlap < chunkSize
    ensures DropOverlaps(ChunksFrom(text, chunkSize, overlap, start), overlap)
         == text[Min(start + overlap, |text|)..]
    decreases |text| - start
  {
    if start < |text| {
      var next := start + chunkSize - overlap;
      DropOverlapsFrom(text, chunkSize, overlap, next);
      DropOverlapsStep(text, chunkSize, overlap, start);
      WindowTail(text, start, chunkSize, overlap);
      assert next + overlap == start + chunkSize;
    }
  }

  lemma DropOverlapsStep(text: string, chunkSize: nat, overlap: nat, start: nat)
    requires overlap < chunkSize && start < |text|
    ensures DropOverlaps(ChunksFrom(text, chunkSize, overlap, start), overlap)
         == Drop(Slice(text, start, start + chunkSize), overlap)
          + DropOverlaps(ChunksFrom(text, chunkSize, overlap, start + chunkSize - overlap), overlap)
  {
    var c := Slice(text, start, start + chunkSize);
    var rest := ChunksFrom(text, chunkSize, overlap, start + chunkSize - overlap);
    assert ChunksFrom(text, chunkSize, overlap, start) == [c] + rest;
    assert ([c] + rest)[1..] == rest;
  }

  /** The window at `start` without its first `overlap` characters, followed
      by the text from the window's end, is the text from `start + overlap`. */
  lemma WindowTail(text: string, start: nat, chunkSize: nat, overlap: nat)
    requires overlap < chunkSize && start < |text|
    ensures Drop(Slice(text, start, start + chunkSize), overlap) + text[Min(start + chunkSize, |text|)..]
         == text[Min(start + overlap, |text|)..]
  {
    var e := Min(start + chunkSize, |text|);
    var c := Slice(text, start, start + chunkSize);
    assert c == text[start..e];
    if start + overlap < |text| {
      assert Drop(c, overlap) == text[start + overlap..e];
      SuffixSplit(text, start + overlap, e);
    } else {
      assert Drop(c, overlap) == [];
    }
  }

  lemma SuffixSplit(s: string, a: nat, b: nat)
    requires a <= b <= |s|
    ensures s[a..] == s[a..b] + s[b..]
  {
  }

  /** Round trip: stitching the chunks back together gives the text. */
  lemma RoundTrip(text: string, chunkSize: nat, overlap: nat)
    requires overlap < chunkSize
    ensures Stitch(Chunks(text, chunkSize, overlap), overlap) == text
  {
    if |text| > 0 {
      var step := chunkSize - overlap;
      var e := Min(chunkSize, |text|);
      var first := Slice(text, 0, chunkSize);
      var rest := ChunksFrom(text, chunkSize, overlap, step);
      DropOverlapsFrom(text, chunkSize, overlap, step);
      assert step + overlap == chunkSize;
      assert DropOverlaps(rest, overlap) == text[e..];
      assert Chunks(text, chunkSize, overlap) == [first] + rest;
      assert ([first] + rest)[1..] == rest;
      assert first == text[..e];
      SuffixSplit(text, 0, e);
    }
  }

  // ---------------------------------------------------------------------------
  // Edge cases the loop produces

  /** Empty text gives no chunks; exactly one chunk happens only when the text
      fits in one step of the cursor, and then it is the whole text. */
  lemma SingleChunk(text: string, chunkSize: nat, overlap: nat)
    requires overlap < chunkSize
    ensures Chunks(text, chunkSize, overlap) == [] <==> text == []
    ensures |Chunks(text, chunkSize, overlap)| == 1 <==> 0 < |text| <= chunkSize - overlap
    ensures 0 < |text| <= chunkSize - overlap ==> Chunks(text, chunkSize, overlap) == [text]
  {
    var step := chunkSize - overlap;
    var c := |Chunks(text, chunkSize, overlap)|;
    ChunksFromCount(text, chunkSize, overlap, 0);
    OffsetShift(step, 1);
    if c > 0 {
      ChunksFromAt(text, chunkSize, overlap, 0, 0);
    }
    if c == 1 {
      assert Offset(step, 0) == 0;
      assert text[0..|text|] == text;
      assert Chunks(text, chunkSize, overlap) == [Chunks(text, chunkSize, overlap)[0]];
    }
    if c >= 2 {
      OffsetMono(step, 1, c - 1);
    }
  }

  /** A text longer than one step but no longer than `chunkSize` (nor than two
      steps, which always holds when `overlap <= chunkSize / 2`, as with the
      defaults) gives two chunks: the whole text, then its suffix from the
      second cursor position, which is at most `overlap` long. */
  lemma TwoChunks(text: string, chunkSize: nat, overlap: nat)
    requires overlap < chunkSize
    requires chunkSize - overlap < |text| <= chunkSize
    requires |text| <= 2 * (chunkSize - overlap)
    ensures Chunks(text, chunkSize, overlap) == [text, text[chunkSize - overlap..]]
    ensures |text[chunkSize - overlap..]| <= overlap
  {
    var step := chunkSize - overlap;
    assert ChunksFrom(text, chunkSize, overlap, step)
        == [Slice(text, step, step + chunkSize)] + ChunksFrom(text, chunkSize, overlap, step + step);
    assert Slice(text, step, step + chunkSize) == text[step..];
    assert Slice(text, 0, chunkSize) == text;
  }

  /** A text of exactly `chunkSize` characters gives two chunks, the second of
      length `overlap`, whenever `overlap` is at most half of `chunkSize`. */
  lemma FullTextTwoChunks(text: string, chunkSize: nat, overlap: nat)
    requires overlap < chunkSize
    requires 0 < overlap && 2 * overlap <= chunkSize
    requires |text| == chunkSize
    ensures |Chunks(text, chunkSize, overlap)| == 2
    ensures Chunks(text, chunkSize, overlap)[0] == text
    ensures |Chunks(text, chunkSize, overlap)[1]| == overlap
  {
    TwoChunks(text, chunkSize, overlap);
  }

  /** With the default parameters a text of 2500 characters gives the windows
      [0:1000], [900:1900] and [1800:2500]. */
  lemma DefaultWindows(text: string)
    requires |text| == 2500
    ensures Chunks(text, DefaultChunkSize, DefaultOverlap)
         == [text[0..1000], text[900..1900], text[1800..2500]]
  {
    ChunkCount(text, DefaultChunkSize, DefaultOverlap);
    ChunkAt(text, DefaultChunkSize, DefaultOverlap, 0);
    ChunkAt(text, DefaultChunkSize, DefaultOverlap, 1);
    ChunkAt(text, DefaultChunkSize, DefaultOverlap, 2);
  }
}
