/** What the "ram" stream means: a sparse image of the dumped range. */
module RamImage {
  import opened Bytes
  import opened SparseFormat
  import opened MemoryMap
  import opened MemoryStream
  import opened RamReader

  // ----- the addresses that are sent

  /** Some non-empty RAW stretch comes after one, not RAW, of 4 GiB or more (or when the cursor lags already). */
  predicate Misplaced(es: seq<Extent>, lag: bool) {
    if es == [] then false
    else if es[0].raw then (lag && es[0].size > 0) || Misplaced(es[1..], lag)
    else Misplaced(es[1..], lag || es[0].size >= 0x1_0000_0000)
  }

  predicate Chunkable(es: seq<Extent>) {
    PageMultiples(es) && forall i :: 0 <= i < |es| && es[i].raw ==> es[i].size < 0x1_0000_0000
  }

  /** Equal concatenations of parts of equal length have equal parts. */
  lemma SameParts<T>(a: seq<T>, b: seq<T>, c: seq<T>, d: seq<T>)
    requires |a| == |c|
    ensures a + b == c + d <==> a == c && b == d
  {
    if a + b == c + d {
      assert a == (a + b)[..|a|] && b == (a + b)[|a|..];
      assert c == (c + d)[..|a|] && d == (c + d)[|a|..];
    }
  }

  lemma KindOf(e: Extent)
    ensures ChunkOf(e).kind == CHUNK_TYPE_RAW <==> e.raw
  {
  }

  // ----- the meaning of the bytes

  /** What a dump of a range writes: the bytes of conventional memory, and nothing in between. */
  function Dump(usable: seq<bool>, start: nat, mem: nat -> byte): seq<Cell> {
    seq(|usable|, i requires 0 <= i < |usable| => if usable[i] then Put(mem(start + i)) else Keep)
  }

  function ExtentBytes(e: Extent, addr: nat, mem: nat -> byte): seq<byte> {
    ChunkBytes(ChunkOf(e)) + if e.raw then Part(mem, addr, e.size) else []
  }

  /** The chunks as ram_read sends them when its cursor is at `addr`. */
  function SentBytes(es: seq<Extent>, addr: nat, mem: nat -> byte): (cs: seq<seq<byte>>)
    ensures |cs| == |es|
  {
    if es == [] then []
    else [ExtentBytes(es[0], addr, mem)] + SentBytes(es[1..], addr + es[0].size % 0x1_0000_0000, mem)
  }

  lemma {:induction false} RenderBody(es: seq<Extent>, addr: nat, mem: nat -> byte)
    requires Chunkable(es)
    ensures Render(Body(ChunksOf(es), addr), mem) == Flatten(SentBytes(es, addr, mem))
  {
    hide ChunkBytes, ChunkOf, Lits, MemRange, Render, Part, Step;
    RenderNothing(mem);
    if es != [] {
      var e, c := es[0], ChunkOf(es[0]);
      KindOf(e);
      StepOf(e);
      var next := addr + Step(c);
      var h, m := Lits(ChunkBytes(c)), if e.raw then MemRange(addr, Step(c)) else [];
      assert ChunksOf(es)[0] == c && ChunksOf(es)[1..] == ChunksOf(es[1..]);
      RenderBody(es[1..], next, mem);
      RenderConcat(h + m, Body(ChunksOf(es[1..]), next), mem);
      RenderConcat(h, m, mem);
      RenderParts(ChunkBytes(c), addr, Step(c), mem);
      assert SentBytes(es, addr, mem)[1..] == SentBytes(es[1..], next, mem);
    }
  }

  /** The fields of an encoded chunk header. */
  lemma ChunkFields(c: Chunk, tail: seq<byte>)
    ensures var s := ChunkBytes(c) + tail;
      ChunkType(s) == c.kind && ChunkBlocks(s) == c.blocks && ChunkTotal(s) == c.total && s[CHUNK_SZ..] == tail
  {
    hide Word, Encode;
    var s := ChunkBytes(c) + tail;
    EncodedFields(c.kind);
    EncodedFields(c.blocks);
    EncodedFields(c.total);
    assert s[0..2] == LE16(c.kind) == LE16(c.kind)[0..2];
    assert s[4..8] == LE32(c.blocks) == LE32(c.blocks)[0..4];
    assert s[8..12] == LE32(c.total) == LE32(c.total)[0..4];
  }

  /** One stretch as a chunk: valid, of the right size, writing its memory. */
  lemma ExtentChunk(e: Extent, addr: nat, mem: nat -> byte)
    requires Exact(e)
    ensures var c := ExtentBytes(e, addr, mem);
      ValidChunk(c, 4096) && ChunkBlocks(c) == ChunkOf(e).blocks
      && ChunkCells(c, 4096) == Dump(Same(e.raw, e.size), addr, mem)
  {
    hide Word, Span;
    var tail := if e.raw then Part(mem, addr, e.size) else [];
    ChunkFields(ChunkOf(e), tail);
    SpanIsProduct(ChunkOf(e).blocks, 4096);
    assert Span(ChunkOf(e).blocks, 4096) == e.size;
    if e.raw {
      assert Puts(tail) == Dump(Same(true, e.size), addr, mem);
    } else {
      assert Skip(e.size) == Dump(Same(false, e.size), addr, mem);
    }
  }

  predicate AllExact(es: seq<Extent>) {
    forall i :: 0 <= i < |es| ==> Exact(es[i])
  }

  /** What flashing the chunks does that ram_read sends from a cursor at `addr`. */
  function Sent(es: seq<Extent>, addr: nat, mem: nat -> byte): (cells: seq<Cell>)
    ensures |cells| == |Raw(es)|
  {
    if es == [] then []
    else Dump(Same(es[0].raw, es[0].size), addr, mem) + Sent(es[1..], addr + es[0].size % 0x1_0000_0000, mem)
  }

  /** A list of stretches as chunks. */
  lemma {:induction false} SentChunks(es: seq<Extent>, addr: nat, mem: nat -> byte)
    requires AllExact(es)
    ensures var cs := SentBytes(es, addr, mem);
      ValidChunks(cs, 4096) && Blocks(cs) == BlockCount(es) && Cells(cs, 4096) == Sent(es, addr, mem)
  {
    hide Exact, ExtentBytes, ValidChunk, ChunkCells, ChunkBlocks, Same, Dump;
    if es != [] {
      var e := es[0];
      var next := addr + e.size % 0x1_0000_0000;
      var c, cs := ExtentBytes(e, addr, mem), SentBytes(es[1..], next, mem);
      SentChunks(es[1..], next, mem);
      ExtentChunk(e, addr, mem);
      BlocksIn(e);
      Prepend(c, cs, 4096);
    }
  }

  lemma DumpPart(raw: bool, n: nat, a: nat, b: nat, mem: nat -> byte)
    ensures |Dump(Same(raw, n), a, mem)| == |Dump(Same(raw, n), b, mem)| == n
    ensures !raw || a == b || n == 0 ==> Dump(Same(raw, n), a, mem) == Dump(Same(raw, n), b, mem)
  {
  }

  /** The cursor falls behind with a stretch, not RAW, of 4 GiB or more, and with nothing else. */
  lemma LagStep(e: Extent, a: nat, b: nat)
    requires a <= b && (e.raw ==> e.size < 0x1_0000_0000)
    ensures a + e.size % 0x1_0000_0000 <= b + e.size
    ensures a + e.size % 0x1_0000_0000 < b + e.size <==> a < b || (!e.raw && e.size >= 0x1_0000_0000)
  {
  }

  lemma RawFirst(es: seq<Extent>, b: nat, next: nat, mem: nat -> byte)
    requires es != [] && next == b + es[0].size
    ensures Dump(Raw(es), b, mem) == Dump(Same(es[0].raw, es[0].size), b, mem) + Dump(Raw(es[1..]), next, mem)
  {
    SameSize(es[0].raw, es[0].size);
    DumpConcat(Same(es[0].raw, es[0].size), Raw(es[1..]), b, next, mem);
  }

  lemma SentNone(a: nat, b: nat, mem: nat -> byte)
    ensures Sent([], a, mem) == Dump(Raw([]), b, mem) == []
  {
  }

  /** Where no stretch is misplaced, the memory of every address goes to its place. */
  lemma {:induction false} SentRight(es: seq<Extent>, a: nat, b: nat, mem: nat -> byte)
    requires Chunkable(es) && a <= b && !Misplaced(es, a < b)
    ensures Sent(es, a, mem) == Dump(Raw(es), b, mem)
  {
    hide Dump, Same, Raw;
    if es == [] {
      SentNone(a, b, mem);
    } else {
      var e := es[0];
      var a', b' := a + e.size % 0x1_0000_0000, b + e.size;
      LagStep(e, a, b);
      SentRight(es[1..], a', b', mem);
      RawFirst(es, b, b', mem);
      DumpPart(e.raw, e.size, a, b, mem);
    }
  }

  lemma FirstWrong(es: seq<Extent>, a: nat, b: nat, mem: nat -> byte)
    requires es != [] && es[0].raw && es[0].size > 0 && mem(a) != mem(b)
    ensures Sent(es, a, mem) != Dump(Raw(es), b, mem)
  {
    var n := es[0].size;
    RawFirst(es, b, b + n, mem);
    assert Dump(Same(true, n), a, mem)[0] == Put(mem(a)) && Dump(Same(true, n), b, mem)[0] == Put(mem(b));
    assert Sent(es, a, mem)[0] == Dump(Same(true, n), a, mem)[0];
  }

  /** Where one is misplaced, some memory contents show it. */
  lemma {:induction false} SentWrong(es: seq<Extent>, a: nat, b: nat) returns (mem: nat -> byte)
    requires Chunkable(es) && a <= b && Misplaced(es, a < b)
    ensures Sent(es, a, mem) != Dump(Raw(es), b, mem)
  {
    hide Dump, Same, Raw;
    var e := es[0];
    if e.raw && a < b && e.size > 0 {
      mem := x => if x == b then 1 else 0;
      FirstWrong(es, a, b, mem);
    } else {
      var a', b' := a + e.size % 0x1_0000_0000, b + e.size;
      LagStep(e, a, b);
      mem := SentWrong(es[1..], a', b');
      RawFirst(es, b, b', mem);
      DumpPart(e.raw, e.size, a, b, mem);
      SameParts(Dump(Same(e.raw, e.size), a, mem), Sent(es[1..], a', mem),
                Dump(Same(e.raw, e.size), b, mem), Dump(Raw(es[1..]), b', mem));
    }
  }

  lemma BlocksIn(e: Extent)
    ensures ChunkOf(e).blocks == e.size / 4096 % 0x1_0000_0000
  {
  }

  lemma SameSize(b: bool, n: nat)
    ensures |Same(b, n)| == n
  {
  }

  lemma DumpConcat(a: seq<bool>, b: seq<bool>, addr: nat, next: nat, mem: nat -> byte)
    requires next == addr + |a|
    ensures Dump(a + b, addr, mem) == Dump(a, addr, mem) + Dump(b, next, mem)
  {
  }

  lemma HeaderFields(totalBlks: u32, totalChunks: u32, tail: seq<byte>)
    ensures var img := HeaderBytes(totalBlks, totalChunks) + tail;
      && SparseHeader(img) && BlockSize(img) == 4096
      && TotalBlocks(img) == totalBlks && TotalChunks(img) == totalChunks && img[HEADER_SZ..] == tail
  {
    hide Word, Encode;
    var img := HeaderBytes(totalBlks, totalChunks) + tail;
    EncodedFields(SPARSE_HEADER_MAGIC);
    EncodedFields(1);
    EncodedFields(HEADER_SZ);
    EncodedFields(CHUNK_SZ);
    EncodedFields(4096);
    EncodedFields(totalBlks);
    EncodedFields(totalChunks);
    assert img[0..4] == LE32(SPARSE_HEADER_MAGIC) == LE32(SPARSE_HEADER_MAGIC)[0..4];
    assert img[4..6] == LE16(1) == LE16(1)[0..2];
    assert img[8..10] == LE16(HEADER_SZ) == LE16(HEADER_SZ)[0..2];
    assert img[10..12] == LE16(CHUNK_SZ) == LE16(CHUNK_SZ)[0..2];
    assert img[12..16] == LE32(4096) == LE32(4096)[0..4];
    assert img[16..20] == LE32(totalBlks) == LE32(totalBlks)[0..4];
    assert img[20..24] == LE32(totalChunks) == LE32(totalChunks)[0..4];
  }

  /** The stream of stretches whose block counts fit 32 bits: well formed exactly when their sum fits as well. */
  lemma StreamCells(es: seq<Extent>, start: nat, mem: nat -> byte)
    requires AllExact(es) && Chunkable(es) && |es| < 0x1_0000_0000
    ensures var img := Render(Stream(BlockCount(es) % 0x1_0000_0000, ChunksOf(es), start), mem);
      && |img| >= HEADER_SZ && BlockSize(img) == 4096 && ImageCells(img) == Sent(es, start, mem)
      && (WellFormed(img) <==> BlockCount(es) < 0x1_0000_0000)
  {
    hide HeaderBytes, Lits, MemRange, Render, SparseHeader, BlockSize, TotalBlocks, TotalChunks, Cells, BlockCount;
    hide ImageCells, WellFormed, Blocks, Body, Sent;
    RenderBody(es, start, mem);
    SentChunks(es, start, mem);
    var n := BlockCount(es) % 0x1_0000_0000;
    var h, body, cs := HeaderBytes(n, |es|), Body(ChunksOf(es), start), SentBytes(es, start, mem);
    RenderConcat(Lits(h), body, mem);
    RenderParts(h, 0, 0, mem);
    HeaderFields(n, |es|, Flatten(cs));
    Judged(h + Flatten(cs), cs, n);
  }

  /** Under a header that counts the chunks, the count of the blocks decides. */
  lemma Judged(img: seq<byte>, cs: seq<seq<byte>>, n: u32)
    requires SparseHeader(img) && BlockSize(img) == 4096 && TotalBlocks(img) == n && TotalChunks(img) == |cs|
    requires img[HEADER_SZ..] == Flatten(cs) && ValidChunks(cs, 4096)
    ensures ImageCells(img) == Cells(cs, 4096) && (WellFormed(img) <==> n == Blocks(cs))
  {
    hide SparseHeader, BlockSize, TotalBlocks, TotalChunks, Cells, Blocks;
    SplitFlatten(cs);
  }

  /** An image that dumps what `usable` says from `start` on. */
  predicate IsDump(img: seq<byte>, usable: seq<bool>, start: nat, mem: nat -> byte) {
    WellFormed(img) && BlockSize(img) == 4096 && ImageCells(img) == Dump(usable, start, mem)
  }

  // ----- when a dump is right

  /** A stretch as its chunk header gives it: a 32-bit number of blocks. */
  function Counted(e: Extent): Extent {
    Extent(e.raw, e.size / 4096 % 0x1_0000_0000 * 4096)
  }

  function AllCounted(es: seq<Extent>): (r: seq<Extent>)
    ensures |r| == |es|
  {
    if es == [] then [] else [Counted(es[0])] + AllCounted(es[1..])
  }

  /** The chunk header of a stretch only knows it as counted; a whole number of 16 TiB is lost. */
  lemma CountedOne(e: Extent) returns (lost: nat)
    requires e.size % 4096 == 0 && (e.raw ==> e.size < 0x1_0000_0000)
    ensures Exact(Counted(e)) && ChunkOf(Counted(e)) == ChunkOf(e)
    ensures Counted(e).raw == e.raw && Counted(e).size < 0x1000_0000_0000 && (e.raw ==> Counted(e) == e)
    ensures e.size == Counted(e).size + 0x1000_0000_0000 * lost && (lost == 0 ==> Counted(e) == e)
    ensures Counted(e).size == 4096 * (e.size / 4096 % 0x1_0000_0000)
    ensures Counted(e).size / 4096 % 0x1_0000_0000 == e.size / 4096 % 0x1_0000_0000
  {
    var b := e.size / 4096;
    assert e.size == 4096 * b;
    var n := b % 0x1_0000_0000;
    lost := b / 0x1_0000_0000;
    assert b == n + 0x1_0000_0000 * lost;
    assert 4096 * n / 4096 == n && n % 0x1_0000_0000 == n;
    if e.raw {
      assert b < 0x1_0000_0000;
    }
  }

  lemma CountedSplit(es: seq<Extent>)
    requires es != []
    ensures AllCounted(es) == [Counted(es[0])] + AllCounted(es[1..]) && AllCounted(es)[1..] == AllCounted(es[1..])
    ensures ChunksOf(es) == [ChunkOf(es[0])] + ChunksOf(es[1..])
    ensures ChunksOf(AllCounted(es)) == [ChunkOf(Counted(es[0]))] + ChunksOf(AllCounted(es[1..]))
  {
    hide ChunkOf, Counted, ChunksOf, AllCounted;
    CountedFirst(es);
    ChunksSplit(es);
    ChunksSplit(AllCounted(es));
  }

  lemma CountedFirst(es: seq<Extent>)
    requires es != []
    ensures AllCounted(es) == [Counted(es[0])] + AllCounted(es[1..]) && AllCounted(es)[1..] == AllCounted(es[1..])
  {
    hide Counted;
  }

  lemma ChunksSplit(es: seq<Extent>)
    requires es != []
    ensures ChunksOf(es) == [ChunkOf(es[0])] + ChunksOf(es[1..])
  {
    hide ChunkOf;
  }

  /** Counting changes nothing about the chunks. */
  lemma {:induction false} CountedChunks(es: seq<Extent>)
    requires Chunkable(es)
    ensures AllExact(AllCounted(es)) && Chunkable(AllCounted(es))
    ensures ChunksOf(AllCounted(es)) == ChunksOf(es) && BlockCount(AllCounted(es)) == BlockCount(es)
  {
    hide Exact, ChunkOf, Counted;
    if es != [] {
      var _ := CountedOne(es[0]);
      CountedChunks(es[1..]);
      CountedSplit(es);
    }
  }

  /** The counted stretches have the length that the blocks say; a whole number of 16 TiB is lost on the way. */
  lemma {:induction false} CountedSize(es: seq<Extent>) returns (lost: nat)
    requires Chunkable(es)
    ensures |Raw(AllCounted(es))| == 4096 * BlockCount(es)
    ensures |Raw(es)| == |Raw(AllCounted(es))| + 0x1000_0000_0000 * lost
    ensures lost == 0 ==> AllCounted(es) == es
  {
    hide Exact, ChunkOf, Same, Counted;
    lost := 0;
    if es != [] {
      var e := es[0];
      var q := CountedOne(e);
      var more := CountedSize(es[1..]);
      CountedSplit(es);
      SameSize(e.raw, e.size);
      SameSize(e.raw, Counted(e).size);
      lost := more + q;
      assert lost == 0 ==> es == [e] + es[1..];
    }
  }

  /** All memory contents are dumped right by the stream of the stretches `es`. */
  ghost predicate DumpsRight(es: seq<Extent>, start: nat, usable: seq<bool>)
    requires |es| < 0x1_0000_0000
  {
    forall mem: nat -> byte ::
      IsDump(Render(Stream(BlockCount(es) % 0x1_0000_0000, ChunksOf(es), start), mem), usable, start, mem)
  }

  /**
   * A gap of `g` bytes in front of the stretches of a range. The image is right, for all memory contents, if and only
   * if the gap counts as nothing, the range is under 16 TiB and no stretch is misplaced.
   */
  lemma ImageExact(g: nat, es: seq<Extent>, start: nat)
    requires g % 4096 == 0 && Chunkable(es) && |es| + 1 < 0x1_0000_0000
    ensures DumpsRight(WithGap(g, es), start, Raw(es)) <==>
              g % 0x1000_0000_0000 == 0 && |Raw(es)| < 0x1000_0000_0000 && !Misplaced(es, false)
  {
    var all := WithGap(g, es);
    if g % 0x1000_0000_0000 == 0 && |Raw(es)| < 0x1000_0000_0000 && !Misplaced(es, false) {
      GapLost(g, es);
      forall mem: nat -> byte
        ensures IsDump(Render(Stream(BlockCount(all) % 0x1_0000_0000, ChunksOf(all), start), mem), Raw(es), start, mem)
      {
        StreamCells(AllCounted(all), start, mem);
        SentRight(AllCounted(all), start, start, mem);
      }
    }
    if DumpsRight(all, start, Raw(es)) {
      RightFits(g, es, start);
      GapLost(g, es);
      if Misplaced(es, false) {
        var mem := SentWrong(AllCounted(all), start, start);
        StreamCells(AllCounted(all), start, mem);
      }
    }
  }

  function WithGap(g: nat, es: seq<Extent>): seq<Extent> {
    if g > 0 then [Extent(false, g)] + es else es
  }

  /** A gap that counts as nothing. */
  lemma GapLost(g: nat, es: seq<Extent>)
    requires g % 0x1000_0000_0000 == 0 && Chunkable(es) && |Raw(es)| < 0x1000_0000_0000
    ensures var all := WithGap(g, es);
            && Chunkable(all) && AllExact(AllCounted(all)) && Chunkable(AllCounted(all))
            && ChunksOf(AllCounted(all)) == ChunksOf(all)
            && BlockCount(AllCounted(all)) == BlockCount(all) < 0x1_0000_0000
            && Raw(AllCounted(all)) == Raw(es) && (Misplaced(AllCounted(all), false) <==> Misplaced(es, false))
  {
    hide Counted, AllCounted, Raw, BlockCount, ChunksOf, Misplaced, Chunkable;
    var all := WithGap(g, es);
    WholeLost(g);
    GapChunkable(g, es);
    CountedChunks(all);
    CountsAll(es);
    if g > 0 {
      GapCounted(g, es);
      ZeroGap(Counted(all[0]), es);
    }
    CountsFew(all);
  }

  /** Stretches of less than 16 TiB lose nothing. */
  lemma CountsAll(es: seq<Extent>)
    requires Chunkable(es) && |Raw(es)| < 0x1000_0000_0000
    ensures AllCounted(es) == es
  {
    hide AllCounted, Raw, BlockCount;
    var lost := CountedSize(es);
  }

  /** They have fewer than 2^32 blocks. */
  lemma CountsFew(es: seq<Extent>)
    requires Chunkable(es) && |Raw(AllCounted(es))| < 0x1000_0000_0000
    ensures BlockCount(es) < 0x1_0000_0000
  {
    hide AllCounted, Raw, BlockCount;
    var lost := CountedSize(es);
  }

  /** The gap is counted as empty. */
  lemma GapCounted(g: nat, es: seq<Extent>)
    requires 0 < g && g % 0x1000_0000_0000 == 0 && AllCounted(es) == es
    ensures var all := WithGap(g, es);
            all != [] && AllCounted(all) == [Counted(all[0])] + es && Counted(all[0]) == Extent(false, 0)
  {
    hide Counted, AllCounted;
    var all := WithGap(g, es);
    assert all[1..] == es;
    CountedFirst(all);
    WholeLost(g);
  }

  /** A whole number of 16 TiB leaves no blocks. */
  lemma WholeLost(g: nat)
    requires g % 0x1000_0000_0000 == 0
    ensures Counted(Extent(false, g)) == Extent(false, 0) && g % 4096 == 0
  {
    var q := g / 0x1000_0000_0000;
    assert g == 4096 * (0x1_0000_0000 * q);
    assert g / 4096 == 0x1_0000_0000 * q;
  }

  lemma ZeroGap(c: Extent, es: seq<Extent>)
    requires c == Extent(false, 0)
    ensures Raw([c] + es) == Raw(es) && (Misplaced([c] + es, false) <==> Misplaced(es, false))
  {
    assert ([c] + es)[1..] == es && Same(false, 0) == [] && [] + Raw(es) == Raw(es);
  }

  /** A right image has the length of the range, which leaves no room for a gap that counts. */
  lemma RightFits(g: nat, es: seq<Extent>, start: nat)
    requires g % 4096 == 0 && Chunkable(es) && |es| + 1 < 0x1_0000_0000
    requires DumpsRight(WithGap(g, es), start, Raw(es))
    ensures g % 0x1000_0000_0000 == 0 && |Raw(es)| < 0x1000_0000_0000
  {
    hide Render, Stream, ImageCells, WellFormed, BlockSize, Dump, Raw, AllCounted, BlockCount;
    var all := WithGap(g, es);
    GapChunkable(g, es);
    var mem: nat -> byte := _ => 0;
    CountedChunks(all);
    var lost := CountedSize(all);
    StreamCells(AllCounted(all), start, mem);
    DumpSize(Raw(es), start, mem);
    assert IsDump(Render(Stream(BlockCount(all) % 0x1_0000_0000, ChunksOf(all), start), mem), Raw(es), start, mem);
    assert |Raw(AllCounted(all))| == |Raw(es)| < 0x1000_0000_0000;
    GapSize(g, es);
  }

  lemma DumpSize(usable: seq<bool>, start: nat, mem: nat -> byte)
    ensures |Dump(usable, start, mem)| == |usable|
  {
  }

  lemma GapChunkable(g: nat, es: seq<Extent>)
    requires g % 4096 == 0 && Chunkable(es)
    ensures Chunkable(WithGap(g, es))
  {
  }

  lemma GapSize(g: nat, es: seq<Extent>)
    requires g % 4096 == 0 && Chunkable(es) && |Raw(AllCounted(WithGap(g, es)))| == |Raw(es)| < 0x1000_0000_0000
    ensures g % 0x1000_0000_0000 == 0
  {
    var all := WithGap(g, es);
    var lost := CountedSize(es);
    if g > 0 {
      var q := CountedOne(all[0]);
      CountedSplit(all);
      assert all[1..] == es;
      SameSize(false, Counted(all[0]).size);
    }
  }

  // ----- dumps of a memory map

  /** A gap that strayed into the image is its first stretch. */
  lemma {:induction false} StrayFirst(regions: seq<Region>, start: nat, end: nat, i: nat)
    requires Sorted(regions) && (end == 0 || start <= end) && i <= |regions|
    requires StrayGapFrom(regions, start, i) > 0 && Layout(regions, start, end, i) == []
             && !Stopped(regions, start, end, i)
    ensures Stretches(regions, start, end) != []
    ensures Stretches(regions, start, end)[0] == Extent(false, StrayGapFrom(regions, start, i))
    decreases |regions| - i
  {
    hide Layout, Stopped, Turn, Stops;
    LayoutStep(regions, start, end, i);
    if regions[i].End() <= start {
      PassedRegion(regions, start, end, i);
      StrayFirst(regions, start, end, i + 1);
    } else {
      LayoutStops(regions, start, end, i + 1);
      StrayTurn(regions, start, end, i);
    }
  }

  /** A region before the range adds nothing. */
  lemma PassedRegion(regions: seq<Region>, start: nat, end: nat, i: nat)
    requires i < |regions| && regions[i].End() <= start
    ensures Turn(regions, start, end, i) == [] && !Stops(regions, start, end, i)
  {
  }

  /** The region where the range starts brings the hole before it. */
  lemma StrayTurn(regions: seq<Region>, start: nat, end: nat, i: nat)
    requires Sorted(regions) && (end == 0 || start <= end) && i < |regions|
    requires start < regions[i].End() && StrayGapFrom(regions, start, i) > 0
    ensures var t := Turn(regions, start, end, i); t != [] && t[0] == Extent(false, StrayGapFrom(regions, start, i))
  {
    hide PartLength, Pieces, HoleLength;
    HoleIs(PrevEnd(regions, i), regions[i], start, end);
  }

  /** The stretches of the range itself, without a gap that strayed in front of them. */
  function InRange(regions: seq<Region>, start: nat, end: nat): seq<Extent> {
    var es := Stretches(regions, start, end);
    if StrayGap(regions, start) > 0 && es != [] then es[1..] else es
  }

  /** The stretches are those of the range behind the stray gap, if there is one, and cover the range. */
  lemma RangeStretches(regions: seq<Region>, start: nat, end: nat)
    requires Sorted(regions) && Disjoint(regions) && (end == 0 || start <= end) && Reachable(regions, start, end)
    ensures Stretches(regions, start, end) == WithGap(StrayGap(regions, start), InRange(regions, start, end))
    ensures start <= EndOf(regions, end)
    ensures Raw(InRange(regions, start, end)) == Usable(regions, start, EndOf(regions, end))
  {
    hide Layout, Usable, Stopped, Reachable, StrayGapFrom;
    var g, es := StrayGap(regions, start), Stretches(regions, start, end);
    StretchesCover(regions, start, end);
    NoLayout(regions, start, end);
    if g > 0 {
      StrayFirst(regions, start, end, 0);
      assert es == [es[0]] + es[1..];
      SameSize(false, g);
      SameParts(Same(false, g), Raw(es[1..]), Same(false, g), Usable(regions, start, EndOf(regions, end)));
    } else {
      var usable := Usable(regions, start, EndOf(regions, end));
      assert Same(false, 0) + usable == usable;
    }
  }

  /** What decides whether a dump is right, known from the memory map and the range before it starts. */
  predicate Faithful(regions: seq<Region>, start: nat, end: nat) {
    && StrayGap(regions, start) % 0x1000_0000_0000 == 0
    && EndOf(regions, end) < start + 0x1000_0000_0000
    && !Misplaced(InRange(regions, start, end), false)
  }

  /** Some RAW stretch with bytes in it comes behind a stretch, not RAW, of 4 GiB or more. */
  lemma {:induction false} MisplacedMeans(es: seq<Extent>, lag: bool)
    ensures Misplaced(es, lag) <==>
              exists j :: 0 <= j < |es| && es[j].raw && es[j].size > 0 && (lag || BigBefore(es, j))
  {
    if es != [] {
      var e, rest := es[0], es[1..];
      var lag' := lag || (!e.raw && e.size >= 0x1_0000_0000);
      MisplacedMeans(rest, lag');
      forall j | 0 <= j < |rest|
        ensures lag' || BigBefore(rest, j) <==> lag || BigBefore(es, j + 1)
      {
        BigShifts(es, j);
      }
      if Misplaced(es, lag) {
        if e.raw && lag && e.size > 0 {
          assert es[0].raw;
        } else {
          var j :| 0 <= j < |rest| && rest[j].raw && rest[j].size > 0 && (lag' || BigBefore(rest, j));
          assert es[j + 1].raw;
        }
      }
      if j :| 0 <= j < |es| && es[j].raw && es[j].size > 0 && (lag || BigBefore(es, j)) {
        if j > 0 {
          assert rest[j - 1] == es[j];
        }
      }
    }
  }

  predicate BigBefore(es: seq<Extent>, j: nat)
    requires j <= |es|
  {
    exists i :: 0 <= i < j && !es[i].raw && es[i].size >= 0x1_0000_0000
  }

  lemma BigShifts(es: seq<Extent>, j: nat)
    requires j < |es|
    ensures BigBefore(es, j + 1) <==> (!es[0].raw && es[0].size >= 0x1_0000_0000) || (es != [] && BigBefore(es[1..], j))
  {
    if i :| 0 <= i < j + 1 && !es[i].raw && es[i].size >= 0x1_0000_0000 {
      if i > 0 {
        assert es[1..][i - 1] == es[i];
      }
    }
    if es != [] && BigBefore(es[1..], j) {
      var i :| 0 <= i < j && !es[1..][i].raw && es[1..][i].size >= 0x1_0000_0000;
      assert es[i + 1] == es[1..][i];
    }
  }

  /** For all memory contents, `out` is a sparse image that writes the conventional memory of the range. */
  ghost predicate RightDump(out: seq<Item>, regions: seq<Region>, start: nat, end: nat)
    requires start <= end
  {
    forall mem: nat -> byte :: IsDump(Render(out, mem), Usable(regions, start, end), start, mem)
  }

  /** A stream without RAW stretches holds no memory. */
  lemma {:induction false} NothingDumped(es: seq<Extent>, addr: nat)
    requires forall e :: e in es ==> !e.raw
    ensures forall a :: Mem(a) !in Body(ChunksOf(es), addr)
  {
    if es != [] {
      var c := ChunkOf(es[0]);
      assert ChunksOf(es)[0] == c && ChunksOf(es)[1..] == ChunksOf(es[1..]);
      assert es[0] in es;
      KindOf(es[0]);
      NothingDumped(es[1..], addr + Step(c));
    }
  }

  /**
   * A whole dump, read with any requests of at least 28 bytes. It succeeds exactly when the range is reachable and
   * takes fewer than 256 chunks; then it is right, for all memory contents, if and only if the map and the range are
   * `Faithful`. A range that wrapped around the address space dumps nothing.
   */
  method DumpRam(ram: Ram, first: u64, length: Option<u64>, regions: seq<Region>, request: nat -> nat)
    returns (r: Status, out: seq<Item>)
    requires Sorted(regions) && Disjoint(regions) && PageMap(regions)
    requires forall k :: request(k) >= HEADER_SZ
    modifies ram
    ensures var to := RangeEnd(first, length);
            var pages, n := first % 4096 == 0 && to % 4096 == 0, |Stretches(regions, first, to)|;
            && (r == Success <==> pages && n < MAX_REGIONS && Reachable(regions, first, to))
            && (r == OutOfResources <==> pages && n > MAX_REGIONS)
    ensures r == Success ==> |out| == ram.ctxLen && ram.end == EndOf(regions, RangeEnd(first, length))
    ensures var to := RangeEnd(first, length);
            r == Success && (to == 0 || first <= to) ==>
              && first <= ram.end && (RightDump(out, regions, first, ram.end) <==> Faithful(regions, first, to))
    ensures r == Success && 0 < RangeEnd(first, length) < first ==> forall a :: Mem(a) !in out
  {
    hide Layout, Stretches, Usable, Reachable, StrayGap, Misplaced, Stream, Raw, StreamSize;
    out := [];
    var to := RangeEnd(first, length);
    r := ram.Open(first, length, regions);
    if r != Success {
      return;
    }
    ghost var es := ram.extents;
    r, out := ram.ReadAll(request);
    if r == Success {
      DumpJudged(out, es, regions, first, to);
    }
  }

  /** The file of the stretches of a range, judged by the map. */
  lemma DumpJudged(out: seq<Item>, es: seq<Extent>, regions: seq<Region>, start: nat, end: nat)
    requires Sorted(regions) && Disjoint(regions) && Reachable(regions, start, end)
    requires es == Stretches(regions, start, end) && Chunkable(es) && |es| < MAX_REGIONS
    requires out == Stream(BlockCount(es) % 0x1_0000_0000, ChunksOf(es), start)
    ensures end == 0 || start <= end ==>
              start <= EndOf(regions, end)
              && (RightDump(out, regions, start, EndOf(regions, end)) <==> Faithful(regions, start, end))
    ensures 0 < end < start ==> forall a :: Mem(a) !in out
  {
    hide Layout, Usable, Reachable, StrayGap, Misplaced, Raw, Render, BlockCount, ChunksOf, Body, IsDump;
    if end == 0 || start <= end {
      RangeStretches(regions, start, end);
      var g, main := StrayGap(regions, start), InRange(regions, start, end);
      GapParts(g, main);
      UsableSize(regions, start, EndOf(regions, end));
      ImageExact(g, main, start);
    } else {
      WrappedRange(regions, start, end, |regions|);
      NothingDumped(es, start);
    }
  }

  lemma UsableSize(regions: seq<Region>, lo: nat, hi: nat)
    requires lo <= hi
    ensures |Usable(regions, lo, hi)| == hi - lo
  {
  }

  lemma GapParts(g: nat, es: seq<Extent>)
    requires Chunkable(WithGap(g, es))
    ensures Chunkable(es) && g % 4096 == 0
  {
    var all := WithGap(g, es);
    if g > 0 {
      assert all[0].size == g && forall i :: 0 <= i < |es| ==> all[i + 1] == es[i];
    }
  }

  // ----- maps that show it

  /** A map with a hole just before the region where the range starts: the image begins with the hole. */
  lemma StrayGapExample(r: seq<Region>)
    requires r == [Region(true, 0, 1), Region(true, 0x2000, 1)]
    ensures Sorted(r) && Disjoint(r) && PageMap(r) && Reachable(r, 0x2000, 0) && !Faithful(r, 0x2000, 0)
  {
    assert r[1].End() == 0x3000;
    assert StrayGapFrom(r, 0x2000, 0) == StrayGapFrom(r, 0x2000, 1) == 0x1000;
  }

  /** A map with a hole of 4 GiB before conventional memory: the memory behind it is read from the wrong address. */
  lemma MisplacedExample(r: seq<Region>)
    requires r == [Region(true, 0, 1), Region(true, 0x1_0000_1000, 1)]
    ensures Sorted(r) && Disjoint(r) && PageMap(r) && Reachable(r, 0, 0) && !Faithful(r, 0, 0)
    ensures Stretches(r, 0, 0) == [Extent(true, 0x1000), Extent(false, 0x1_0000_0000), Extent(true, 0x1000)]
  {
    assert r[1].End() == 0x1_0000_2000;
    assert Turn(r, 0, 0, 0) == [Extent(true, 0x1000)];
    assert Turn(r, 0, 0, 1) == [Extent(false, 0x1_0000_0000), Extent(true, 0x1000)];
    assert Layout(r, 0, 0, 1) == [Extent(true, 0x1000)];
    var es := Stretches(r, 0, 0);
    assert es == [Extent(true, 0x1000), Extent(false, 0x1_0000_0000), Extent(true, 0x1000)];
    assert es[2].raw && BigBefore(es, 2) by {
      assert !es[1].raw;
    }
    MisplacedMeans(es, false);
  }

  /** A map that reaches beyond 16 TiB: the block counts wrap. */
  lemma BigRangeExample(r: seq<Region>)
    requires r == [Region(false, 0, 0x1_0000_0000), Region(true, 0x1000_0000_0000, 1)]
    ensures Sorted(r) && Disjoint(r) && PageMap(r) && Reachable(r, 0, 0) && !Faithful(r, 0, 0)
  {
    assert r[1].End() == 0x1000_0000_1000;
  }

  /** 256 regions in a row, every second one conventional. */
  function FullMap(n: nat): seq<Region> {
    seq(n, i requires 0 <= i => Region(i % 2 == 0, i * 4096, 1))
  }

  lemma {:induction false} FullLayout(m: nat, n: nat)
    requires n <= m
    ensures |Layout(FullMap(m), 0, 0, n)| == n
  {
    hide Stopped, Turn, FullMap;
    if n > 0 {
      FullLayout(m, n - 1);
      FullTurn(m, n - 1);
      EndlessRange(FullMap(m), 0, n - 1);
      LayoutStep(FullMap(m), 0, 0, n - 1);
    }
  }

  lemma EndlessRange(regions: seq<Region>, start: nat, n: nat)
    requires n <= |regions|
    ensures !Stopped(regions, start, 0, n)
  {
  }

  /** Every region of that map is one stretch. */
  lemma FullTurn(m: nat, i: nat)
    requires i < m
    ensures |FullMap(m)| == m && |Turn(FullMap(m), 0, 0, i)| == 1
  {
    hide HoleLength, PartLength;
    var r := FullMap(m);
    assert r[i].End() == (i + 1) * 4096 && PrevEnd(r, i) == i * 4096 == r[i].start;
    WholePart(r[i]);
  }

  lemma WholePart(r: Region)
    requires r.pages == 1 && r.End() == r.start + 4096
    ensures PartLength(r, 0, 0) == 4096
  {
  }

  /** A map that fills the chunk table: ram_read never sends its last chunk, so the dump cannot be read. */
  lemma FullTableExample()
    ensures Sorted(FullMap(256)) && Disjoint(FullMap(256)) && PageMap(FullMap(256)) && Reachable(FullMap(256), 0, 0)
    ensures |Stretches(FullMap(256), 0, 0)| == MAX_REGIONS
  {
    hide Layout;
    FullLayout(256, 256);
    FullSorted();
  }

  lemma FullSorted()
    ensures Sorted(FullMap(256)) && Disjoint(FullMap(256)) && PageMap(FullMap(256)) && Reachable(FullMap(256), 0, 0)
  {
    var r := FullMap(256);
    forall i | 0 <= i < 256
      ensures r[i].start == i * 4096 && r[i].End() == i * 4096 + 4096 && r[i].start % 4096 == 0
    {
    }
    assert 0 < r[0].End();
    forall i, j | 0 <= i < j < 256
      ensures r[i].End() <= r[j].start && r[i].start <= r[j].start && r[i].End() <= r[j].End()
    {
    }
  }

  /** Dumping such a map fails although every region is reachable. */
  method FullTableDump(ram: Ram, request: nat -> nat) returns (r: Status)
    requires forall k :: request(k) >= HEADER_SZ
    modifies ram
    ensures r == InvalidParameter
  {
    hide Stretches, Reachable, Sorted, Disjoint, PageMap, FullMap;
    FullTableExample();
    var out;
    r, out := DumpRam(ram, 0, None, FullMap(256), request);
  }
}
