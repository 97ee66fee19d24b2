/** The fixed-size overlapping chunker, in its two variants: the loop inside
    the upload handler, which keeps every raw slice, and `chunk_text` of the
    command-line ingester, which strips each slice and drops the blank ones.
    Both start at offset 0, take `size` characters and advance by
    `size - overlap`, so they terminate only when `overlap < size`. */
module Chunking {
  import opened Text

  /** `ceil(n / d)` for a positive divisor, counted by repeated subtraction. */
  function CeilDiv(n: int, d: nat): nat
    requires d > 0
    decreases n
  {
    if n <= 0 then 0 else 1 + CeilDiv(n - d, d)
  }

  /** `k` steps of length `d`, i.e. `k * d`, written as a sum so that the
      proofs below stay linear. */
  function Offset(d: nat, k: nat): nat {
    if k == 0 then 0 else Offset(d, k - 1) + d
  }

  lemma {:induction false} OffsetIsProduct(d: nat, k: nat)
    ensures Offset(d, k) == k * d
  {
    if k > 0 {
      OffsetIsProduct(d, k - 1);
      assert k * d == (k - 1) * d + d;
    }
  }

  /** An offset below the count of steps lies inside the text, and an offset
      from the count on lies at or past its end. */
  lemma {:induction false} OffsetInside(n: int, d: nat, k: nat)
    requires d > 0
    ensures k < CeilDiv(n, d) <==> Offset(d, k) < n
    decreases k
  {
    if k > 0 && n > 0 {
      OffsetInside(n - d, d, k - 1);
    }
  }

  /** `CeilDiv` is the ceiling of `n / d`: its steps reach `n` and one step
      fewer does not. */
  lemma CeilDivIsCeiling(n: nat, d: nat)
    requires d > 0
    ensures CeilDiv(n, d) * d >= n
    ensures n > 0 ==> (CeilDiv(n, d) - 1) * d < n
  {
    var c := CeilDiv(n, d);
    OffsetInside(n, d, c);
    OffsetIsProduct(d, c);
    if n > 0 {
      OffsetInside(n, d, c - 1);
      OffsetIsProduct(d, c - 1);
    }
  }

  /** A loop that stops at the first offset at or past `n` has taken
      exactly `ceil(n / d)` steps. */
  lemma CountReached(n: int, d: nat, k: nat)
    requires d > 0 && Offset(d, k) >= n
    requires k == 0 || Offset(d, k - 1) < n
    ensures k == CeilDiv(n, d)
  {
    OffsetInside(n, d, k);
    if k > 0 { OffsetInside(n, d, k - 1); }
  }

  /** Offset of chunk `k`: `k * (size - overlap)`. */
  function ChunkStart(size: nat, overlap: int, k: nat): nat
    requires overlap < size
  {
    Offset(size - overlap, k)
  }

  /** Chunk `k` as Python slices it: `text[start:start + size]`. */
  function ChunkAt(text: string, size: nat, overlap: int, k: nat): string
    requires overlap < size
  {
    var start := ChunkStart(size, overlap, k);
    PySlice(text, start, start + size)
  }

  /** The number of chunks both loops visit: one per offset below `|text|`. */
  function ChunkCount(text: string, size: nat, overlap: int): nat
    requires overlap < size
  {
    CeilDiv(|text|, size - overlap)
  }

  /** The first `m` raw slices, in order of their offsets. */
  function SlicesBefore(text: string, size: nat, overlap: int, m: nat): seq<string>
    requires overlap < size
  {
    if m == 0 then [] else SlicesBefore(text, size, overlap, m - 1) + [ChunkAt(text, size, overlap, m - 1)]
  }

  /** All the raw slices: one per offset inside the text. */
  function Slices(text: string, size: nat, overlap: int): seq<string>
    requires overlap < size
  {
    SlicesBefore(text, size, overlap, ChunkCount(text, size, overlap))
  }

  lemma {:induction false} SlicesBeforeAt(text: string, size: nat, overlap: int, m: nat)
    requires overlap < size
    ensures |SlicesBefore(text, size, overlap, m)| == m
    ensures forall k {:trigger SlicesBefore(text, size, overlap, m)[k]} :: 0 <= k < m ==>
      SlicesBefore(text, size, overlap, m)[k] == ChunkAt(text, size, overlap, k)
  {
    if m > 0 { SlicesBeforeAt(text, size, overlap, m - 1); }
  }

  /** The slice at the next offset extends the slices visited so far. */
  lemma SlicesBeforeStep(text: string, size: nat, overlap: int, m: nat, start: nat, end: nat)
    requires overlap < size && start == Offset(size - overlap, m) && end == start + size
    ensures SlicesBefore(text, size, overlap, m + 1)
            == SlicesBefore(text, size, overlap, m) + [PySlice(text, start, end)]
  {
    assert ChunkAt(text, size, overlap, m) == PySlice(text, start, end);
  }

  /** The chunking loop of the upload handler: it appends every slice
      `full_text[start:start + chunk_size]` and advances `start` by
      `chunk_size - overlap` until `start` reaches the end of the text. */
  method SliceChunks(fullText: string, chunkSize: nat, overlap: int) returns (chunks: seq<string>)
    requires 0 < chunkSize && overlap < chunkSize
    ensures chunks == Slices(fullText, chunkSize, overlap)
  {
    ghost var step := chunkSize - overlap;
    chunks := [];
    var start := 0;
    while start < |fullText|
      invariant start == Offset(step, |chunks|)
      invariant |chunks| == 0 || Offset(step, |chunks| - 1) < |fullText|
      invariant chunks == SlicesBefore(fullText, chunkSize, overlap, |chunks|)
    {
      var end := start + chunkSize;
      SlicesBeforeStep(fullText, chunkSize, overlap, |chunks|, start, end);
      chunks := chunks + [PySlice(fullText, start, end)];
      start := start + chunkSize - overlap;
    }
    CountReached(|fullText|, step, |chunks|);
  }

  /** There are `ceil(len / step)` slices and slice `k` is the one at
      offset `k * step`, with `step = size - overlap`. */
  lemma SlicesFormula(text: string, size: nat, overlap: int)
    requires overlap < size
    ensures |Slices(text, size, overlap)| == CeilDiv(|text|, size - overlap)
    ensures forall k :: 0 <= k < |Slices(text, size, overlap)| ==>
      ChunkStart(size, overlap, k) == k * (size - overlap)
      && Slices(text, size, overlap)[k]
         == PySlice(text, ChunkStart(size, overlap, k), ChunkStart(size, overlap, k) + size)
  {
    var m, d := ChunkCount(text, size, overlap), size - overlap;
    var raw := SlicesBefore(text, size, overlap, m);
    SlicesBeforeAt(text, size, overlap, m);
    assert Slices(text, size, overlap) == raw;
    forall k | 0 <= k < m
      ensures ChunkStart(size, overlap, k) == k * d
    {
      OffsetIsProduct(d, k);
    }
  }

  /** Python's `chunk[overlap:]`. */
  function DropPrefix(chunk: string, overlap: nat): string {
    PySlice(chunk, overlap, |chunk|)
  }

  /** Chunk 0 followed by every later chunk without its first `overlap`
      characters. */
  function Stitch(chunks: seq<string>, overlap: nat): string
    decreases |chunks|
  {
    if chunks == [] then ""
    else if |chunks| == 1 then chunks[0]
    else Stitch(chunks[..|chunks| - 1], overlap) + DropPrefix(chunks[|chunks| - 1], overlap)
  }

  /** Stitching the first `j + 1` slices gives the text up to the end of
      slice `j`. */
  lemma {:induction false} StitchPrefix(text: string, size: nat, overlap: nat, j: nat)
    requires overlap < size
    requires j < ChunkCount(text, size, overlap)
    ensures Stitch(SlicesBefore(text, size, overlap, j + 1), overlap)
            == PySlice(text, 0, ChunkStart(size, overlap, j) + size)
    decreases j
  {
    if j == 0 {
      StitchFirst(text, size, overlap);
    } else {
      StitchPrefix(text, size, overlap, j - 1);
      StitchStep(text, size, overlap, j);
    }
  }

  /** The first slice alone stitches to itself: the text up to `size`. */
  lemma StitchFirst(text: string, size: nat, overlap: nat)
    requires overlap < size
    ensures Stitch(SlicesBefore(text, size, overlap, 1), overlap)
            == PySlice(text, 0, ChunkStart(size, overlap, 0) + size)
  {
    assert SlicesBefore(text, size, overlap, 1) == [ChunkAt(text, size, overlap, 0)];
  }

  /** One more slice extends the stitched text to the end of that slice. */
  lemma StitchStep(text: string, size: nat, overlap: nat, j: nat)
    requires overlap < size
    requires 0 < j < ChunkCount(text, size, overlap)
    requires Stitch(SlicesBefore(text, size, overlap, j), overlap)
             == PySlice(text, 0, ChunkStart(size, overlap, j - 1) + size)
    ensures Stitch(SlicesBefore(text, size, overlap, j + 1), overlap)
            == PySlice(text, 0, ChunkStart(size, overlap, j) + size)
  {
    var init := SlicesBefore(text, size, overlap, j);
    var s := ChunkStart(size, overlap, j);
    var a := ChunkStart(size, overlap, j - 1);
    assert init != [] by { SlicesBeforeLength(text, size, overlap, j); }
    assert s < |text| by { OffsetInside(|text|, size - overlap, j); }
    assert s == a + size - overlap;
    StitchExtend(text, init, a, s, size, overlap);
    assert SlicesBefore(text, size, overlap, j + 1) == init + [PySlice(text, s, s + size)];
  }

  /** Stitching one more slice, which starts `size - overlap` after the
      previous one, extends the stitched text to the end of that slice. */
  lemma StitchExtend(text: string, init: seq<string>, a: nat, s: nat, size: nat, overlap: nat)
    requires overlap < size && s == a + size - overlap && s < |text|
    requires init != [] && Stitch(init, overlap) == PySlice(text, 0, a + size)
    ensures Stitch(init + [PySlice(text, s, s + size)], overlap) == PySlice(text, 0, s + size)
  {
    StitchSnoc(init, PySlice(text, s, s + size), overlap);
    SliceJoin(text, a, s, size, overlap);
  }

  lemma {:induction false} SlicesBeforeLength(text: string, size: nat, overlap: int, m: nat)
    requires overlap < size
    ensures |SlicesBefore(text, size, overlap, m)| == m
  {
    if m > 0 { SlicesBeforeLength(text, size, overlap, m - 1); }
  }

  /** Stitching one more chunk appends it without its first `overlap`
      characters. */
  lemma StitchSnoc(init: seq<string>, last: string, overlap: nat)
    requires init != []
    ensures Stitch(init + [last], overlap) == Stitch(init, overlap) + DropPrefix(last, overlap)
  {
    assert (init + [last])[..|init|] == init;
  }

  /** The text up to the end of one slice, followed by the next slice
      without its first `overlap` characters, is the text up to the end of
      that next slice. */
  lemma SliceJoin(text: string, a: nat, s: nat, size: nat, overlap: nat)
    requires overlap < size && s == a + size - overlap && s < |text|
    ensures PySlice(text, 0, a + size) + DropPrefix(PySlice(text, s, s + size), overlap) == PySlice(text, 0, s + size)
  {
    var hi := Min(s + size, |text|);
    var next := PySlice(text, s, s + size);
    assert next == text[s..hi];
    if s + overlap <= |text| {
      assert DropPrefix(next, overlap) == text[s + overlap..hi];
      assert PySlice(text, 0, a + size) == text[..s + overlap];
      assert text[..s + overlap] + text[s + overlap..hi] == text[..hi];
    } else {
      assert DropPrefix(next, overlap) == "";
      assert PySlice(text, 0, a + size) == text;
      assert PySlice(text, 0, s + size) == text;
    }
  }

  /** Round trip: the raw slices, stitched with their overlaps removed, give
      back the whole text. */
  lemma SlicesStitch(text: string, size: nat, overlap: nat)
    requires overlap < size
    ensures Stitch(Slices(text, size, overlap), overlap) == text
  {
    var m := ChunkCount(text, size, overlap);
    if m > 0 {
      StitchPrefix(text, size, overlap, m - 1);
      OffsetInside(|text|, size - overlap, m);
      assert ChunkStart(size, overlap, m) == ChunkStart(size, overlap, m - 1) + size - overlap;
    }
  }

  /** `[c.strip()]` when that is non-empty, else nothing. */
  function KeepStripped(c: string): seq<string> {
    var s := Strip(c);
    if s != [] then [s] else []
  }

  /** What `chunk_text` has emitted after visiting the first `m` offsets. */
  function Emitted(text: string, size: nat, overlap: int, m: nat): seq<string>
    requires overlap < size
  {
    if m == 0 then [] else Emitted(text, size, overlap, m - 1) + KeepStripped(ChunkAt(text, size, overlap, m - 1))
  }

  /** What `chunk_text` emits after `m` offsets is the filter applied to the
      first `m` raw slices. */
  lemma {:induction false} EmittedIsFilter(text: string, size: nat, overlap: int, m: nat)
    requires overlap < size
    ensures Emitted(text, size, overlap, m) == NonBlankStripped(SlicesBefore(text, size, overlap, m))
  {
    if m > 0 {
      EmittedIsFilter(text, size, overlap, m - 1);
      NonBlankStrippedSnoc(SlicesBefore(text, size, overlap, m - 1), ChunkAt(text, size, overlap, m - 1));
    }
  }

  /** One more offset inside the text adds its stripped slice, if any, to
      what `chunk_text` has emitted so far. */
  lemma ChunkTextStep(text: string, size: nat, overlap: int, visited: nat, start: nat, end: nat, chunk: string)
    requires overlap < size && start == Offset(size - overlap, visited) && end == start + size
    requires chunk == Strip(PySlice(text, start, end))
    ensures Emitted(text, size, overlap, visited + 1)
            == Emitted(text, size, overlap, visited) + (if chunk != [] then [chunk] else [])
  {
    assert ChunkAt(text, size, overlap, visited) == PySlice(text, start, end);
    assert KeepStripped(PySlice(text, start, end)) == (if chunk != [] then [chunk] else []);
  }

  /** Once the offset reaches the end of the text, every slice has been
      visited and what was emitted is the filter of all of them. */
  lemma ChunkTextDone(text: string, size: nat, overlap: int, visited: nat, start: nat)
    requires overlap < size && start == Offset(size - overlap, visited)
    requires visited == 0 || Offset(size - overlap, visited - 1) < |text|
    requires start >= |text|
    ensures Emitted(text, size, overlap, visited) == NonBlankStripped(Slices(text, size, overlap))
  {
    CountReached(|text|, size - overlap, visited);
    EmittedIsFilter(text, size, overlap, visited);
    assert Slices(text, size, overlap) == SlicesBefore(text, size, overlap, visited);
  }

  /** `chunk_text`: strips every slice `text[start:start + chunk_size]`, keeps
      the non-empty ones and advances `start` by `chunk_size - chunk_overlap`. */
  method ChunkText(text: string, chunkSize: nat := 500, chunkOverlap: int := 100) returns (chunks: seq<string>)
    requires 0 < chunkSize && chunkOverlap < chunkSize
    ensures chunks == NonBlankStripped(Slices(text, chunkSize, chunkOverlap))
  {
    ghost var step := chunkSize - chunkOverlap;
    ghost var visited := 0;
    chunks := [];
    var start := 0;
    while start < |text|
      invariant start == Offset(step, visited)
      invariant visited == 0 || Offset(step, visited - 1) < |text|
      invariant chunks == Emitted(text, chunkSize, chunkOverlap, visited)
    {
      var end := start + chunkSize;
      var chunk := Strip(PySlice(text, start, end));
      ChunkTextStep(text, chunkSize, chunkOverlap, visited, start, end, chunk);
      if chunk != [] {
        chunks := chunks + [chunk];
      }
      start := start + chunkSize - chunkOverlap;
      visited := visited + 1;
    }
    ChunkTextDone(text, chunkSize, chunkOverlap, visited, start);
  }

  /** The stripped non-blank entries of `raw`, in order. */
  function NonBlankStripped(raw: seq<string>): seq<string>
    decreases |raw|
  {
    if raw == [] then []
    else NonBlankStripped(raw[..|raw| - 1]) + KeepStripped(raw[|raw| - 1])
  }

  /** One more raw entry adds its stripped text, if any. */
  lemma NonBlankStrippedSnoc(raw: seq<string>, x: string)
    ensures NonBlankStripped(raw + [x]) == NonBlankStripped(raw) + KeepStripped(x)
  {
    assert (raw + [x])[..|raw|] == raw;
  }

  /** Positions in `raw` whose stripped text is kept, in increasing order. */
  function KeptIndices(raw: seq<string>): seq<nat>
    decreases |raw|
  {
    if raw == [] then []
    else KeptIndices(raw[..|raw| - 1]) + (if KeepStripped(raw[|raw| - 1]) != [] then [|raw| - 1] else [])
  }

  /** The filter keeps exactly the non-blank entries of `raw`, stripped, in
      their original order. */
  lemma NonBlankStrippedIsFilter(raw: seq<string>)
    ensures |KeptIndices(raw)| == |NonBlankStripped(raw)| <= |raw|
    ensures forall j :: 0 <= j < |KeptIndices(raw)| ==>
      KeptIndices(raw)[j] < |raw| && NonBlankStripped(raw)[j] == Strip(raw[KeptIndices(raw)[j]])
    ensures forall i, j :: 0 <= i < j < |KeptIndices(raw)| ==> KeptIndices(raw)[i] < KeptIndices(raw)[j]
    ensures forall k :: 0 <= k < |raw| && k !in KeptIndices(raw) ==> Strip(raw[k]) == []
  {
    KeptEntries(raw);
    KeptIncreasing(raw);
    DroppedBlank(raw);
  }

  /** The `j`-th kept position is inside `raw` and gives the `j`-th entry
      of the filter. */
  lemma {:induction false} KeptEntries(raw: seq<string>)
    ensures |KeptIndices(raw)| == |NonBlankStripped(raw)| <= |raw|
    ensures forall j :: 0 <= j < |KeptIndices(raw)| ==>
      KeptIndices(raw)[j] < |raw| && NonBlankStripped(raw)[j] == Strip(raw[KeptIndices(raw)[j]])
    decreases |raw|
  {
    if raw != [] {
      var init, x := raw[..|raw| - 1], raw[|raw| - 1];
      KeptEntries(init);
      var kept, out := KeptIndices(init), NonBlankStripped(init);
      if KeepStripped(x) != [] {
        assert KeptIndices(raw) == kept + [|init|];
        assert NonBlankStripped(raw) == out + [Strip(x)];
        forall j | 0 <= j < |kept|
          ensures NonBlankStripped(raw)[j] == Strip(raw[KeptIndices(raw)[j]])
        {
          assert raw[kept[j]] == init[kept[j]];
        }
      } else {
        assert KeptIndices(raw) == kept;
        assert NonBlankStripped(raw) == out;
        forall j | 0 <= j < |kept|
          ensures NonBlankStripped(raw)[j] == Strip(raw[KeptIndices(raw)[j]])
        {
          assert raw[kept[j]] == init[kept[j]];
        }
      }
    }
  }

  /** The kept positions are inside `raw` and strictly increasing. */
  lemma {:induction false} KeptIncreasing(raw: seq<string>)
    ensures forall j :: 0 <= j < |KeptIndices(raw)| ==> KeptIndices(raw)[j] < |raw|
    ensures forall i, j :: 0 <= i < j < |KeptIndices(raw)| ==> KeptIndices(raw)[i] < KeptIndices(raw)[j]
    decreases |raw|
  {
    if raw != [] {
      var init := raw[..|raw| - 1];
      KeptIncreasing(init);
      var kept := KeptIndices(init);
      if KeepStripped(raw[|raw| - 1]) != [] {
        assert KeptIndices(raw) == kept + [|init|];
      } else {
        assert KeptIndices(raw) == kept;
      }
    }
  }

  /** Every position the filter does not keep holds a blank entry. */
  lemma {:induction false} DroppedBlank(raw: seq<string>)
    ensures forall k :: 0 <= k < |raw| && k !in KeptIndices(raw) ==> Strip(raw[k]) == []
    decreases |raw|
  {
    if raw != [] {
      var init, x := raw[..|raw| - 1], raw[|raw| - 1];
      DroppedBlank(init);
      var kept := KeptIndices(init);
      var last := if KeepStripped(x) != [] then [|init|] else [];
      assert KeptIndices(raw) == kept + last;
      forall k | 0 <= k < |raw| && k !in KeptIndices(raw)
        ensures Strip(raw[k]) == []
      {
        if k < |init| {
          assert k !in kept;
          assert Strip(init[k]) == [];
          assert raw[k] == init[k];
        } else {
          assert last == [];
        }
      }
    }
  }

  /** Every entry the filter keeps is non-empty and has no whitespace at
      either end. */
  lemma {:induction false} NonBlankStrippedTrimmed(raw: seq<string>)
    ensures forall c :: c in NonBlankStripped(raw) ==> c != [] && !IsSpace(c[0]) && !IsSpace(c[|c| - 1])
    decreases |raw|
  {
    if raw != [] {
      NonBlankStrippedTrimmed(raw[..|raw| - 1]);
      StripSpec(raw[|raw| - 1]);
    }
  }

  /** Slice `k` of the text, for `k` below the count, starts inside the
      text and is at most `size` long. */
  lemma SliceAt(text: string, size: nat, overlap: int, k: nat)
    requires 0 < size && overlap < size && k < ChunkCount(text, size, overlap)
    ensures |Slices(text, size, overlap)| == ChunkCount(text, size, overlap)
    ensures ChunkStart(size, overlap, k) < |text|
    ensures Slices(text, size, overlap)[k]
            == text[ChunkStart(size, overlap, k)..Min(ChunkStart(size, overlap, k) + size, |text|)]
  {
    SlicesBeforeAt(text, size, overlap, ChunkCount(text, size, overlap));
    OffsetInside(|text|, size - overlap, k);
  }

  /** Entry `j` of the filter is the stripped `raw[k]` for the `j`-th kept
      `k`: non-empty, with no whitespace at either end and no longer than
      `raw[k]`. */
  lemma KeptEntry(raw: seq<string>, j: nat)
    requires j < |NonBlankStripped(raw)|
    ensures |NonBlankStripped(raw)| <= |raw|
    ensures j < |KeptIndices(raw)| && KeptIndices(raw)[j] < |raw|
    ensures NonBlankStripped(raw)[j] == Strip(raw[KeptIndices(raw)[j]])
    ensures var c := NonBlankStripped(raw)[j];
      c != [] && !IsSpace(c[0]) && !IsSpace(c[|c| - 1]) && |c| <= |raw[KeptIndices(raw)[j]]|
  {
    NonBlankStrippedIsFilter(raw);
    NonBlankStrippedTrimmed(raw);
    assert NonBlankStripped(raw)[j] in NonBlankStripped(raw);
  }

  /** An entry that does not strip to nothing leaves the filter non-empty. */
  lemma {:induction false} NonBlankKept(raw: seq<string>, k: nat)
    requires k < |raw| && Strip(raw[k]) != []
    ensures NonBlankStripped(raw) != []
    decreases |raw|
  {
    if k < |raw| - 1 {
      assert raw[..|raw| - 1][k] == raw[k];
      NonBlankKept(raw[..|raw| - 1], k);
    }
  }

  /** Chunk `j` of `chunk_text` is non-empty, has no whitespace at either
      end and is at most `chunk_size` long; it is the stripped slice at
      offset `ChunkStart(k) = k * (chunk_size - chunk_overlap)` for the
      `j`-th kept `k`, an offset inside the text; there are at most
      `ceil(len / step)` chunks. */
  lemma ChunkTextShape(text: string, size: nat, overlap: int, j: nat)
    requires 0 < size && overlap < size
    requires j < |NonBlankStripped(Slices(text, size, overlap))|
    ensures |NonBlankStripped(Slices(text, size, overlap))| <= ChunkCount(text, size, overlap)
    ensures var c := NonBlankStripped(Slices(text, size, overlap))[j];
      c != [] && !IsSpace(c[0]) && !IsSpace(c[|c| - 1]) && |c| <= size
    ensures j < |KeptIndices(Slices(text, size, overlap))|
    ensures var start := ChunkStart(size, overlap, KeptIndices(Slices(text, size, overlap))[j]);
      start < |text|
      && NonBlankStripped(Slices(text, size, overlap))[j] == Strip(text[start..Min(start + size, |text|)])
  {
    var raw := Slices(text, size, overlap);
    SlicesLength(text, size, overlap);
    KeptEntry(raw, j);
    var k := KeptIndices(raw)[j];
    KeptSlice(text, size, overlap, k);
    var c := NonBlankStripped(raw)[j];
    assert c == Strip(raw[k]) && |c| <= |raw[k]| <= size;
    ChunkIsStrippedSlice(text, size, overlap, j);
  }

  /** Chunk `j` is the stripped slice at the offset of the `j`-th kept raw
      slice. */
  lemma ChunkIsStrippedSlice(text: string, size: nat, overlap: int, j: nat)
    requires 0 < size && overlap < size
    requires j < |NonBlankStripped(Slices(text, size, overlap))|
    ensures j < |KeptIndices(Slices(text, size, overlap))|
    ensures var start := ChunkStart(size, overlap, KeptIndices(Slices(text, size, overlap))[j]);
      start < |text|
      && NonBlankStripped(Slices(text, size, overlap))[j] == Strip(text[start..Min(start + size, |text|)])
  {
    var raw := Slices(text, size, overlap);
    KeptAt(raw, j);
    var k := KeptIndices(raw)[j];
    KeptSlice(text, size, overlap, k);
    var start := ChunkStart(size, overlap, k);
    assert NonBlankStripped(Slices(text, size, overlap))[j] == Strip(text[start..Min(start + size, |text|)]);
  }

  /** Entry `j` of the filter is the stripped `raw[k]` for the `j`-th kept
      `k`. */
  lemma KeptAt(raw: seq<string>, j: nat)
    requires j < |NonBlankStripped(raw)|
    ensures j < |KeptIndices(raw)| && KeptIndices(raw)[j] < |raw|
    ensures NonBlankStripped(raw)[j] == Strip(raw[KeptIndices(raw)[j]])
  {
    NonBlankStrippedIsFilter(raw);
  }

  /** Raw slice `k`, for `k` below the count, is the slice at an offset
      inside the text and holds at most `size` characters. */
  lemma KeptSlice(text: string, size: nat, overlap: int, k: nat)
    requires 0 < size && overlap < size && k < |Slices(text, size, overlap)|
    ensures var start := ChunkStart(size, overlap, k);
      start < |text|
      && Slices(text, size, overlap)[k] == text[start..Min(start + size, |text|)]
      && |Slices(text, size, overlap)[k]| <= size
  {
    SlicesLength(text, size, overlap);
    SliceAt(text, size, overlap, k);
  }

  /** There is one raw slice per offset inside the text. */
  lemma SlicesLength(text: string, size: nat, overlap: int)
    requires overlap < size
    ensures |Slices(text, size, overlap)| == ChunkCount(text, size, overlap)
  {
    SlicesBeforeAt(text, size, overlap, ChunkCount(text, size, overlap));
  }

  /** A blank text gives no chunks. */
  lemma BlankGivesNoChunks(text: string, size: nat, overlap: int)
    requires 0 < size && overlap < size && IsBlank(text)
    ensures NonBlankStripped(Slices(text, size, overlap)) == []
  {
    var raw := Slices(text, size, overlap);
    SlicesBeforeAt(text, size, overlap, ChunkCount(text, size, overlap));
    assert |raw| == ChunkCount(text, size, overlap);
    forall k | 0 <= k < |raw| ensures Strip(raw[k]) == [] {
      SliceAt(text, size, overlap, k);
      StripSpec(raw[k]);
    }
    AllBlankDropped(raw);
  }

  /** With a non-negative overlap the slices cover the text, so a text that
      is not blank gives at least one chunk. */
  lemma NonBlankGivesChunk(text: string, size: nat, overlap: int)
    requires 0 <= overlap < size && !IsBlank(text)
    ensures NonBlankStripped(Slices(text, size, overlap)) != []
  {
    var raw := Slices(text, size, overlap);
    var p :| 0 <= p < |text| && !IsSpace(text[p]);
    var k := CoveringChunk(|text|, size - overlap, p);
    OffsetInside(|text|, size - overlap, k);
    SliceAt(text, size, overlap, k);
    assert raw[k][p - ChunkStart(size, overlap, k)] == text[p];
    StripSpec(raw[k]);
    NonBlankKept(raw, k);
  }

  /** `chunk_text` returns no chunks exactly when the text is blank. */
  lemma ChunkTextEmptyIffBlank(text: string, size: nat, overlap: int)
    requires 0 <= overlap < size
    ensures NonBlankStripped(Slices(text, size, overlap)) == [] <==> IsBlank(text)
  {
    if IsBlank(text) {
      BlankGivesNoChunks(text, size, overlap);
    } else {
      NonBlankGivesChunk(text, size, overlap);
    }
  }

  /** The step whose chunk covers position `p`. */
  lemma {:induction false} CoveringChunk(n: nat, d: nat, p: nat) returns (k: nat)
    requires d > 0 && p < n
    ensures Offset(d, k) <= p < Offset(d, k) + d
    decreases p
  {
    if p < d {
      k := 0;
    } else {
      k := CoveringChunk(n, d, p - d);
      k := k + 1;
    }
  }

  lemma {:induction false} AllBlankDropped(raw: seq<string>)
    requires forall k :: 0 <= k < |raw| ==> Strip(raw[k]) == []
    ensures NonBlankStripped(raw) == []
    decreases |raw|
  {
    if raw != [] { AllBlankDropped(raw[..|raw| - 1]); }
  }

  /** A 1200-character text with the defaults 500 and 100 gives chunks at
      offsets 0, 400 and 800, the last one 400 characters long. */
  lemma DefaultsOn1200(text: string)
    requires |text| == 1200
    ensures ChunkCount(text, 500, 100) == 3
    ensures Slices(text, 500, 100) == [text[0..500], text[400..900], text[800..1200]]
  {
    assert CeilDiv(1200, 400) == 3 by {
      assert CeilDiv(0, 400) == 0;
      assert CeilDiv(400, 400) == 1;
      assert CeilDiv(800, 400) == 2;
    }
    assert Offset(400, 1) == 400;
    assert Offset(400, 2) == 800;
    SlicesBeforeAt(text, 500, 100, 3);
    var raw := Slices(text, 500, 100);
    assert raw[0] == text[0..500];
    assert raw[1] == text[400..900];
    assert raw[2] == text[800..1200];
  }

  /** A text only a little longer than the overlap still gets a second
      chunk: with the defaults, 450 characters give the whole text and then
      its last 50 characters again. */
  lemma DefaultsOn450(text: string)
    requires |text| == 450
    ensures ChunkCount(text, 500, 100) == 2
    ensures Slices(text, 500, 100) == [text, text[400..]]
  {
    assert CeilDiv(450, 400) == 2 by {
      assert CeilDiv(-350, 400) == 0;
      assert CeilDiv(50, 400) == 1;
    }
    assert Offset(400, 1) == 400;
    SlicesBeforeAt(text, 500, 100, 2);
    var raw := Slices(text, 500, 100);
    assert raw[0] == text[0..450] == text;
    assert raw[1] == text[400..450];
  }
}
