/** Android sparse images as bytes, and what flashing one does to a disk
    (include/sparse_format.h, libfastboot/sparse.c). */
module SparseFormat {
  import opened Bytes

  const SPARSE_HEADER_MAGIC := 0xed26ff3a
  const CHUNK_TYPE_RAW := 0xCAC1
  const CHUNK_TYPE_FILL := 0xCAC2
  const CHUNK_TYPE_DONT_CARE := 0xCAC3
  const CHUNK_TYPE_CRC32 := 0xCAC4

  const HEADER_SZ := 28
  const CHUNK_SZ := 12

  /** One byte of the target: written with a value, or left alone. */
  datatype Cell = Keep | Put(value: byte)

  // Fields of the chunk header at the front of `s`.
  function ChunkType(s: seq<byte>): u16
    requires |s| >= CHUNK_SZ
  {
    U16(s, 0)
  }

  function ChunkBlocks(s: seq<byte>): u32
    requires |s| >= CHUNK_SZ
  {
    U32(s, 4)
  }

  function ChunkTotal(s: seq<byte>): u32
    requires |s| >= CHUNK_SZ
  {
    U32(s, 8)
  }

  /** Size in bytes of a number of blocks: their product, in a form that unfolds one block at a time. */
  function Span(blocks: nat, blkSz: nat): nat {
    if blocks == 0 then 0 else blkSz + Span(blocks - 1, blkSz)
  }

  lemma {:induction false} SpanIsProduct(blocks: nat, blkSz: nat)
    ensures Span(blocks, blkSz) == blocks * blkSz
  {
    if blocks > 0 {
      SpanIsProduct(blocks - 1, blkSz);
    }
  }

  /** `c` is the bytes of one chunk: its `total_sz` field gives its length. */
  predicate Framed(c: seq<byte>) {
    |c| >= CHUNK_SZ && ChunkTotal(c) == |c|
  }

  /** A complete chunk that `flash_chunk` accepts. A CRC32 chunk moves no data, so it covers no block. */
  predicate ValidChunk(c: seq<byte>, blkSz: nat) {
    && Framed(c)
    && var t := ChunkType(c);
      (|| (t == CHUNK_TYPE_RAW && |c| == CHUNK_SZ + Span(ChunkBlocks(c), blkSz))
       || (t == CHUNK_TYPE_FILL && |c| >= CHUNK_SZ + 4)
       || t == CHUNK_TYPE_DONT_CARE
       || (t == CHUNK_TYPE_CRC32 && ChunkBlocks(c) == 0))
  }

  /** Cutting `n` chunks off the front of `s`, as long as the headers allow it. */
  function Split(s: seq<byte>, n: nat): seq<seq<byte>> {
    if n == 0 || |s| < CHUNK_SZ || ChunkTotal(s) < CHUNK_SZ || ChunkTotal(s) > |s| then []
    else [s[..ChunkTotal(s)]] + Split(s[ChunkTotal(s)..], n - 1)
  }

  predicate ValidChunks(cs: seq<seq<byte>>, blkSz: nat) {
    forall i :: 0 <= i < |cs| ==> ValidChunk(cs[i], blkSz)
  }

  /** Number of blocks covered by a list of chunks. */
  function Blocks(cs: seq<seq<byte>>): nat {
    if cs == [] || |cs[0]| < CHUNK_SZ then 0 else ChunkBlocks(cs[0]) + Blocks(cs[1..])
  }

  function Skip(n: nat): seq<Cell> {
    seq(n, _ => Keep)
  }

  function Puts(data: seq<byte>): seq<Cell> {
    seq(|data|, i requires 0 <= i < |data| => Put(data[i]))
  }

  function Repeat(pattern: seq<byte>, n: nat): seq<Cell>
    requires |pattern| == 4
  {
    seq(n, i requires 0 <= i => Put(pattern[i % 4]))
  }

  /** What flashing one chunk does to the bytes at the write cursor. */
  function ChunkCells(c: seq<byte>, blkSz: nat): seq<Cell> {
    if |c| < CHUNK_SZ then [] else
    var t := ChunkType(c);
    if t == CHUNK_TYPE_RAW then Puts(c[CHUNK_SZ..])
    else if t == CHUNK_TYPE_FILL && |c| >= CHUNK_SZ + 4 then
      Repeat(c[CHUNK_SZ..CHUNK_SZ + 4], Span(ChunkBlocks(c), blkSz))
    else if t == CHUNK_TYPE_DONT_CARE then Skip(Span(ChunkBlocks(c), blkSz))
    else []
  }

  /** What flashing a list of chunks does. */
  function Cells(cs: seq<seq<byte>>, blkSz: nat): seq<Cell> {
    Flatten(EachCells(cs, blkSz))
  }

  function EachCells(cs: seq<seq<byte>>, blkSz: nat): seq<seq<Cell>> {
    seq(|cs|, i requires 0 <= i < |cs| => ChunkCells(cs[i], blkSz))
  }

  // Fields of the file header.
  function BlockSize(img: seq<byte>): u32
    requires |img| >= HEADER_SZ
  {
    U32(img, 12)
  }

  function TotalBlocks(img: seq<byte>): u32
    requires |img| >= HEADER_SZ
  {
    U32(img, 16)
  }

  function TotalChunks(img: seq<byte>): u32
    requires |img| >= HEADER_SZ
  {
    U32(img, 20)
  }

  /** is_sparse_image. */
  predicate IsSparseImage(file: seq<byte>)
    requires |file| >= HEADER_SZ
  {
    && U32(file, 0) == SPARSE_HEADER_MAGIC
    && U16(file, 4) <= 1
    && U16(file, 8) >= HEADER_SZ
    && U16(file, 10) >= CHUNK_SZ
  }

  /** An image of the first format revision, whose headers have the sizes that the code counts with. */
  predicate SparseHeader(img: seq<byte>) {
    |img| >= HEADER_SZ && IsSparseImage(img) && U16(img, 8) == HEADER_SZ && U16(img, 10) == CHUNK_SZ
  }

  function ImageChunks(img: seq<byte>): seq<seq<byte>>
    requires |img| >= HEADER_SZ
  {
    Split(img[HEADER_SZ..], TotalChunks(img))
  }

  /** A sparse image that is its header and its chunks, and whose two totals match its chunks. */
  predicate WellFormed(img: seq<byte>) {
    && SparseHeader(img)
    && var cs := ImageChunks(img);
      && img[HEADER_SZ..] == Flatten(cs)
      && TotalChunks(img) == |cs|
      && TotalBlocks(img) == Blocks(cs)
      && ValidChunks(cs, BlockSize(img))
  }

  function ImageCells(img: seq<byte>): seq<Cell>
    requires |img| >= HEADER_SZ
  {
    Cells(ImageChunks(img), BlockSize(img))
  }

  function Overlay(cells: seq<Cell>, disk: seq<byte>): (d: seq<byte>)
    ensures |d| == |disk|
  {
    seq(|disk|, i requires 0 <= i < |disk| =>
      if i < |cells| && cells[i].Put? then cells[i].value else disk[i])
  }

  /** Flashing an image: rejected when malformed or larger than the partition. */
  function FlashSparse(img: seq<byte>, disk: seq<byte>): Option<seq<byte>> {
    if WellFormed(img) && |ImageCells(img)| <= |disk| then Some(Overlay(ImageCells(img), disk)) else None
  }

  /** Flashing several images one after the other. */
  function FlashAll(imgs: seq<seq<byte>>, disk: seq<byte>): Option<seq<byte>> {
    if imgs == [] then Some(disk)
    else
      match FlashAll(imgs[..|imgs| - 1], disk)
      case None => None
      case Some(d) => FlashSparse(imgs[|imgs| - 1], d)
  }

  // ----- algebra of chunk lists

  /** What follows a chunk header does not change it. */
  lemma HeaderOfPrefix(a: seq<byte>, b: seq<byte>)
    requires |a| >= CHUNK_SZ
    ensures ChunkType(a + b) == ChunkType(a)
    ensures ChunkBlocks(a + b) == ChunkBlocks(a)
    ensures ChunkTotal(a + b) == ChunkTotal(a)
  {
    assert (a + b)[0..2] == a[0..2] && (a + b)[4..8] == a[4..8] && (a + b)[8..12] == a[8..12];
  }

  /** Cutting up a concatenation of chunks gives the chunks back. */
  lemma {:induction false} SplitFlatten(cs: seq<seq<byte>>)
    requires forall i :: 0 <= i < |cs| ==> Framed(cs[i])
    ensures Split(Flatten(cs), |cs|) == cs
  {
    if cs != [] {
      var c, rest := cs[0], Flatten(cs[1..]);
      HeaderOfPrefix(c, rest);
      SplitFlatten(cs[1..]);
      assert (c + rest)[..|c|] == c && (c + rest)[|c|..] == rest;
    }
  }

  /** A file header with the right totals before a list of valid chunks makes a well-formed image. */
  lemma Assemble(img: seq<byte>, cs: seq<seq<byte>>)
    requires SparseHeader(img) && img[HEADER_SZ..] == Flatten(cs)
    requires ValidChunks(cs, BlockSize(img))
    requires TotalChunks(img) == |cs| && TotalBlocks(img) == Blocks(cs)
    ensures WellFormed(img) && ImageChunks(img) == cs
  {
    SplitFlatten(cs);
  }

  lemma {:induction false} BlocksConcat(a: seq<seq<byte>>, b: seq<seq<byte>>)
    requires forall i :: 0 <= i < |a| ==> |a[i]| >= CHUNK_SZ
    ensures Blocks(a + b) == Blocks(a) + Blocks(b)
  {
    if a == [] {
      assert a + b == b;
    } else {
      assert (a + b)[1..] == a[1..] + b;
      BlocksConcat(a[1..], b);
    }
  }

  lemma CellsConcat(a: seq<seq<byte>>, b: seq<seq<byte>>, blkSz: nat)
    ensures Cells(a + b, blkSz) == Cells(a, blkSz) + Cells(b, blkSz)
  {
    assert EachCells(a + b, blkSz) == EachCells(a, blkSz) + EachCells(b, blkSz);
    FlattenConcat(EachCells(a, blkSz), EachCells(b, blkSz));
  }

  lemma CellsOne(c: seq<byte>, blkSz: nat)
    ensures Cells([c], blkSz) == ChunkCells(c, blkSz)
  {
    assert EachCells([c], blkSz) == [ChunkCells(c, blkSz)];
    FlattenOne(ChunkCells(c, blkSz));
  }

  lemma BlocksOne(c: seq<byte>)
    requires |c| >= CHUNK_SZ
    ensures Blocks([c]) == ChunkBlocks(c)
  {
    assert [c][1..] == [];
  }

  lemma Prepend(c: seq<byte>, cs: seq<seq<byte>>, blkSz: nat)
    requires ValidChunk(c, blkSz) && ValidChunks(cs, blkSz)
    ensures ValidChunks([c] + cs, blkSz)
    ensures Flatten([c] + cs) == c + Flatten(cs)
    ensures Blocks([c] + cs) == ChunkBlocks(c) + Blocks(cs)
    ensures Cells([c] + cs, blkSz) == ChunkCells(c, blkSz) + Cells(cs, blkSz)
  {
    FlattenOne(c);
    FlattenConcat([c], cs);
    BlocksOne(c);
    BlocksConcat([c], cs);
    CellsOne(c, blkSz);
    CellsConcat([c], cs, blkSz);
  }

  lemma ChunkCellsLength(c: seq<byte>, blkSz: nat)
    requires ValidChunk(c, blkSz)
    ensures |ChunkCells(c, blkSz)| == Span(ChunkBlocks(c), blkSz)
  {
  }

  /** A chunk list covers as many bytes as its block count says. */
  lemma {:induction false} CellsLength(cs: seq<seq<byte>>, blkSz: nat)
    requires ValidChunks(cs, blkSz)
    ensures |Cells(cs, blkSz)| == Span(Blocks(cs), blkSz)
  {
    if cs != [] {
      assert [cs[0]] + cs[1..] == cs;
      Prepend(cs[0], cs[1..], blkSz);
      ChunkCellsLength(cs[0], blkSz);
      CellsLength(cs[1..], blkSz);
      Distribute(ChunkBlocks(cs[0]), Blocks(cs[1..]), Blocks(cs), blkSz);
    }
  }

  lemma {:induction false} Distribute(a: nat, b: nat, sum: nat, blkSz: nat)
    requires sum == a + b
    ensures Span(sum, blkSz) == Span(a, blkSz) + Span(b, blkSz)
  {
    if a > 0 {
      Distribute(a - 1, b, sum - 1, blkSz);
    } else {
      assert sum == b;
    }
  }

  // ----- overlays

  /** Overlaying a skip of `|a|` bytes followed by `b` continues an overlay of `a`. */
  lemma OverlayContinues(a: seq<Cell>, b: seq<Cell>, disk: seq<byte>)
    ensures Overlay(Skip(|a|) + b, Overlay(a, disk)) == Overlay(a + b, disk)
  {
  }

  /** The images flashed in order write `cells` and nothing else, on every disk large enough. */
  ghost predicate Applies(imgs: seq<seq<byte>>, cells: seq<Cell>) {
    forall disk: seq<byte> :: |disk| >= |cells| ==> FlashAll(imgs, disk) == Some(Overlay(cells, disk))
  }

  lemma AppliesNothing()
    ensures Applies([], [])
  {
    forall disk: seq<byte> ensures Overlay([], disk) == disk {
    }
  }

  lemma FlashNext(a: seq<Cell>, img: seq<byte>, b: seq<Cell>, disk: seq<byte>)
    requires WellFormed(img) && ImageCells(img) == Skip(|a|) + b
    requires |disk| >= |a + b|
    ensures FlashSparse(img, Overlay(a, disk)) == Some(Overlay(a + b, disk))
  {
    OverlayContinues(a, b, disk);
  }

  lemma FlashLast(imgs: seq<seq<byte>>, img: seq<byte>, disk: seq<byte>)
    requires FlashAll(imgs, disk).Some?
    ensures FlashAll(imgs + [img], disk) == FlashSparse(img, FlashAll(imgs, disk).value)
  {
    assert (imgs + [img])[..|imgs|] == imgs;
  }

  /** An image that skips what the earlier ones wrote extends them. */
  lemma AppliesNext(imgs: seq<seq<byte>>, a: seq<Cell>, img: seq<byte>, b: seq<Cell>)
    requires Applies(imgs, a)
    requires WellFormed(img) && ImageCells(img) == Skip(|a|) + b
    ensures Applies(imgs + [img], a + b)
  {
    forall disk: seq<byte> | |disk| >= |a + b|
      ensures FlashAll(imgs + [img], disk) == Some(Overlay(a + b, disk))
    {
      FlashLast(imgs, img, disk);
      FlashNext(a, img, b, disk);
    }
  }
}
