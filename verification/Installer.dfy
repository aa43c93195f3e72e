/** The installer's sparse image splitter (installer.c): a sparse file larger than the
    download buffer is rewritten, inside that buffer, into a series of smaller sparse images. */
module Installer {
  import opened Bytes
  import opened SparseFormat

  // Layout of flash_buffer_t: file header, skip chunk header, first chunk header, its payload.
  const TOTAL_BLKS_AT := 16
  const TOTAL_CHUNKS_AT := 20
  const SKIP_AT := 28
  const D_AT := 40
  const CKH_DATA_AT := 52

  /** The part of the front of the flash buffer that stays the same: the file header but for the totals,
      and the type and size of the skip chunk. */
  ghost predicate Front(d: seq<byte>, file: seq<byte>) {
    && |file| >= HEADER_SZ && |d| >= D_AT
    && d[..16] == file[..16]
    && U16(d, 28) == CHUNK_TYPE_DONT_CARE
    && U32(d, 36) == CHUNK_SZ
  }

  /** The front of the flash buffer: the header of `file` with new totals, then a skip of `skip` blocks. */
  ghost predicate Head(d: seq<byte>, file: seq<byte>, blks: u32, chunks: u32, skip: u32) {
    Front(d, file) && U32(d, 16) == blks && U32(d, 20) == chunks && U32(d, 32) == skip
  }

  /** Copying the first 16 bytes of the file header keeps what identifies the image. */
  lemma SameHeader(e: seq<byte>, file: seq<byte>)
    requires SparseHeader(file) && |e| >= HEADER_SZ && e[..16] == file[..16]
    ensures SparseHeader(e) && BlockSize(e) == BlockSize(file)
  {
    assert e[..16] == e[0..16] && file[..16] == file[0..16];
    FieldsOfSlice(e, 0, 16, 0);
    FieldsOfSlice(file, 0, 16, 0);
    FieldsOfSlice(e, 0, 16, 4);
    FieldsOfSlice(file, 0, 16, 4);
    FieldsOfSlice(e, 0, 16, 8);
    FieldsOfSlice(file, 0, 16, 8);
    FieldsOfSlice(e, 0, 16, 10);
    FieldsOfSlice(file, 0, 16, 10);
    FieldsOfSlice(e, 0, 16, 12);
    FieldsOfSlice(file, 0, 16, 12);
  }

  lemma HeadOfPrefix(d: seq<byte>, file: seq<byte>, blks: u32, chunks: u32, skip: u32, n: nat)
    requires Head(d, file, blks, chunks, skip) && D_AT <= n <= |d|
    ensures Head(d[..n], file, blks, chunks, skip)
  {
    var e := d[..n];
    assert e[..16] == d[..16] && e[16..20] == d[16..20] && e[20..24] == d[20..24];
    assert e[28..30] == d[28..30] && e[32..36] == d[32..36] && e[36..40] == d[36..40];
  }

  lemma SkipChunk(e: seq<byte>, file: seq<byte>, blks: u32, chunks: u32, skip: u32, blkSz: nat)
    requires Head(e, file, blks, chunks, skip)
    ensures var c := e[SKIP_AT..D_AT];
      ValidChunk(c, blkSz) && ChunkBlocks(c) == skip && ChunkCells(c, blkSz) == Skip(Span(skip, blkSz))
  {
    var c := e[SKIP_AT..D_AT];
    FieldsOfSlice(e, SKIP_AT, D_AT, 0);
    FieldsOfSlice(e, SKIP_AT, D_AT, 4);
    FieldsOfSlice(e, SKIP_AT, D_AT, 8);
  }

  /** A buffer with such a front and the chunks `cs` behind it is a well-formed image
      that skips `skip` blocks and then does what `cs` does. */
  lemma SubImage(e: seq<byte>, file: seq<byte>, skip: u32, cs: seq<seq<byte>>, blks: u32, chunks: u32)
    requires SparseHeader(file) && Head(e, file, blks, chunks, skip)
    requires e[D_AT..] == Flatten(cs) && ValidChunks(cs, BlockSize(file))
    requires blks == skip + Blocks(cs) && chunks == 1 + |cs|
    ensures WellFormed(e) && BlockSize(e) == BlockSize(file)
    ensures ImageCells(e) == Skip(Span(skip, BlockSize(file))) + Cells(cs, BlockSize(file))
  {
    var blkSz, c := BlockSize(file), e[SKIP_AT..D_AT];
    SameHeader(e, file);
    SkipChunk(e, file, blks, chunks, skip, blkSz);
    Prepend(c, cs, blkSz);
    DropSplit(e, HEADER_SZ, D_AT);
    Assemble(e, [c] + cs);
  }

  // ----- reading chunk headers through the buffer

  /** The header of chunk `i` found in the concatenation of the chunks. */
  lemma HeaderAt(cs: seq<seq<byte>>, i: nat)
    requires i < |cs| && |cs[i]| >= CHUNK_SZ
    ensures var p, f := |Flatten(cs[..i])|, Flatten(cs);
      && p + |cs[i]| <= |f|
      && U16(f, p) == ChunkType(cs[i]) && U32(f, p + 4) == ChunkBlocks(cs[i]) && U32(f, p + 8) == ChunkTotal(cs[i])
  {
    var p, f := |Flatten(cs[..i])|, Flatten(cs);
    FlattenSplit(cs, i);
    FlattenStep(cs, i);
    assert f[p..p + |cs[i]|] == cs[i];
    FieldsOfSlice(f, p, p + |cs[i]|, 0);
    FieldsOfSlice(f, p, p + |cs[i]|, 4);
    FieldsOfSlice(f, p, p + |cs[i]|, 8);
  }

  /** Fields of a stretch of the buffer that holds the front of `f`. */
  lemma WindowFields(d: seq<byte>, lo: nat, hi: nat, f: seq<byte>, k: nat)
    requires lo <= hi <= |d| && hi - lo <= |f| && d[lo..hi] == f[..hi - lo]
    ensures k + 2 <= hi - lo ==> U16(d, lo + k) == U16(f, k)
    ensures k + 4 <= hi - lo ==> U32(d, lo + k) == U32(f, k)
  {
    FieldsOfSlice(d, lo, hi, k);
    FieldsOfSlice(f, 0, hi - lo, k);
    assert f[0..hi - lo] == f[..hi - lo];
  }

  /** The buffer holds, from the data area up to `end`, the front of the remaining chunks. */
  ghost predicate Window(d: seq<byte>, end: nat, todo: seq<seq<byte>>) {
    D_AT <= end <= |d| && end - D_AT <= |Flatten(todo)| && d[D_AT..end] == Flatten(todo)[..end - D_AT]
  }

  lemma WindowKept(d: seq<byte>, e: seq<byte>, end: nat, todo: seq<seq<byte>>)
    requires Window(d, end, todo) && |d| == |e| && d[D_AT..] == e[D_AT..]
    ensures Window(e, end, todo)
  {
    assert d[D_AT..][..end - D_AT] == d[D_AT..end] && e[D_AT..][..end - D_AT] == e[D_AT..end];
  }

  lemma WindowGrown(d: seq<byte>, at: nat, end: nat, f: seq<byte>, x: seq<byte>)
    requires D_AT <= at <= end <= |d| && end - D_AT <= |f| && |x| == end - at
    requires d[D_AT..at] == f[..at - D_AT] && x == f[at - D_AT..end - D_AT]
    ensures Splice(d, at, x)[D_AT..end] == f[..end - D_AT]
  {
    SpliceAt(d, at, x, D_AT, at);
    var r := Splice(d, at, x);
    assert r[D_AT..end] == r[D_AT..at] + r[at..end];
    assert f[..end - D_AT] == f[..at - D_AT] + f[at - D_AT..end - D_AT];
  }

  /** The complete chunks at the front of a window. */
  lemma WindowFront(d: seq<byte>, end: nat, todo: seq<seq<byte>>, m: nat, ckh: nat)
    requires Window(d, end, todo) && m <= |todo| && ckh == D_AT + |Flatten(todo[..m])| <= end
    ensures d[..ckh][D_AT..] == Flatten(todo[..m])
  {
    FlattenSplit(todo, m);
    var n := ckh - D_AT;
    assert d[..ckh][D_AT..] == d[D_AT..ckh] == d[D_AT..end][..n];
    assert Flatten(todo)[..end - D_AT][..n] == Flatten(todo)[..n] == Flatten(todo[..m]);
  }

  /** What follows the complete chunks in a window is the front of the remaining chunks. */
  lemma WindowRest(d: seq<byte>, end: nat, todo: seq<seq<byte>>, m: nat, ckh: nat)
    requires Window(d, end, todo) && m <= |todo| && ckh == D_AT + |Flatten(todo[..m])| <= end
    ensures end - ckh <= |Flatten(todo[m..])| && d[ckh..end] == Flatten(todo[m..])[..end - ckh]
  {
    FlattenSplit(todo, m);
    var n := ckh - D_AT;
    SliceOfSlice(d, D_AT, end, n, end - D_AT);
    assert Flatten(todo)[..end - D_AT][n..end - D_AT] == Flatten(todo)[n..end - D_AT];
    assert Flatten(todo)[n..end - D_AT] == Flatten(todo[m..])[..end - ckh];
  }

  /** A chunk header read from the buffer after `i` chunks is the one of chunk `i`. */
  lemma HeaderInWindow(d: seq<byte>, end: nat, todo: seq<seq<byte>>, i: nat)
    requires Window(d, end, todo) && i <= |todo| && forall j :: 0 <= j < |todo| ==> Framed(todo[j])
    ensures var at := D_AT + |Flatten(todo[..i])|;
      at + CHUNK_SZ <= end ==>
        && i < |todo| && Framed(todo[i])
        && U32(d, at + 4) == ChunkBlocks(todo[i]) && U32(d, at + 8) == |todo[i]|
  {
    var p, f := |Flatten(todo[..i])|, Flatten(todo);
    if i == |todo| {
      assert todo[..i] == todo;
    } else if D_AT + p + CHUNK_SZ <= end {
      HeaderAt(todo, i);
      WindowFields(d, D_AT, end, f, p + 4);
      WindowFields(d, D_AT, end, f, p + 8);
    }
  }

  lemma {:induction false} FlattenLength(cs: seq<seq<byte>>)
    requires forall i :: 0 <= i < |cs| ==> |cs[i]| >= CHUNK_SZ
    ensures |Flatten(cs)| >= CHUNK_SZ * |cs|
  {
    if cs != [] {
      FlattenLength(cs[1..]);
    }
  }

  lemma BlocksStep(cs: seq<seq<byte>>, i: nat)
    requires i < |cs| && forall j :: 0 <= j < |cs| ==> |cs[j]| >= CHUNK_SZ
    ensures Blocks(cs[..i + 1]) == Blocks(cs[..i]) + ChunkBlocks(cs[i])
    ensures Blocks(cs) == Blocks(cs[..i + 1]) + Blocks(cs[i + 1..])
  {
    TakeStep(cs, i);
    BlocksOne(cs[i]);
    BlocksConcat(cs[..i], [cs[i]]);
    BlocksConcat(cs[..i + 1], cs[i + 1..]);
  }

  /** One more complete chunk of the list lies within the first `n` bytes. */
  lemma ScanStep(cs: seq<seq<byte>>, i: nat)
    requires i < |cs| && forall j :: 0 <= j < |cs| ==> |cs[j]| >= CHUNK_SZ
    ensures |Flatten(cs[..i + 1])| == |Flatten(cs[..i])| + |cs[i]| <= |Flatten(cs)|
    ensures Blocks(cs[..i + 1]) == Blocks(cs[..i]) + ChunkBlocks(cs[i]) <= Blocks(cs)
    ensures CHUNK_SZ * (i + 1) <= |Flatten(cs[..i + 1])|
  {
    FlattenStep(cs, i);
    FlattenSplit(cs, i + 1);
    FlattenLength(cs[..i + 1]);
    BlocksStep(cs, i);
  }

  // ----- updating the front of the buffer

  lemma HeadKept(d: seq<byte>, file: seq<byte>, blks: u32, chunks: u32, skip: u32, at: nat, x: seq<byte>)
    requires Head(d, file, blks, chunks, skip) && D_AT <= at && at + |x| <= |d|
    ensures Head(Splice(d, at, x), file, blks, chunks, skip)
  {
    SpliceAt(d, at, x, 0, 16);
    FieldsOfSplice(d, at, x, 16);
    FieldsOfSplice(d, at, x, 20);
    FieldsOfSplice(d, at, x, 28);
    FieldsOfSplice(d, at, x, 32);
    FieldsOfSplice(d, at, x, 36);
  }

  /** Storing one of the two totals or the skip length. */
  lemma HeadSet(d: seq<byte>, file: seq<byte>, blks: u32, chunks: u32, skip: u32, at: nat, x: seq<byte>)
    requires Head(d, file, blks, chunks, skip) && (at == 16 || at == 20 || at == 32) && |x| == 4
    ensures Head(Splice(d, at, x), file, if at == 16 then U32(x, 0) else blks,
                 if at == 20 then U32(x, 0) else chunks, if at == 32 then U32(x, 0) else skip)
    ensures Splice(d, at, x)[D_AT..] == d[D_AT..]
  {
    SpliceAt(d, at, x, 0, 16);
    SpliceAt(d, at, x, D_AT, |d|);
    FieldsOfSplice(d, at, x, 16);
    FieldsOfSplice(d, at, x, 20);
    FieldsOfSplice(d, at, x, 28);
    FieldsOfSplice(d, at, x, 32);
    FieldsOfSplice(d, at, x, 36);
  }

  /** Overwriting the two size fields of the first chunk header. */
  lemma ChunkSizesSet(d: seq<byte>, x: seq<byte>, y: seq<byte>)
    requires |d| >= CKH_DATA_AT && |x| == |y| == 4
    ensures var e := Splice(Splice(d, D_AT + 4, x), D_AT + 8, y);
      && U16(e, D_AT) == U16(d, D_AT) && U32(e, D_AT + 4) == U32(x, 0) && U32(e, D_AT + 8) == U32(y, 0)
      && e[CKH_DATA_AT..] == d[CKH_DATA_AT..]
  {
    var d1 := Splice(d, D_AT + 4, x);
    FieldsOfSplice(d, D_AT + 4, x, D_AT);
    FieldsOfSplice(d1, D_AT + 8, y, D_AT);
    FieldsOfSplice(d1, D_AT + 8, y, D_AT + 4);
    SpliceAt(d, D_AT + 4, x, CKH_DATA_AT, |d|);
    SpliceAt(d1, D_AT + 8, y, CKH_DATA_AT, |d|);
  }

  /** Overwriting the block total leaves the data area alone. */
  lemma TotalSet(d: seq<byte>, x: seq<byte>)
    requires |d| >= CKH_DATA_AT && |x| == 4
    ensures var e := Splice(d, TOTAL_BLKS_AT, x);
      && U16(e, D_AT) == U16(d, D_AT) && U32(e, D_AT + 4) == U32(d, D_AT + 4)
      && U32(e, D_AT + 8) == U32(d, D_AT + 8) && e[CKH_DATA_AT..] == d[CKH_DATA_AT..]
  {
    FieldsOfSplice(d, TOTAL_BLKS_AT, x, D_AT);
    FieldsOfSplice(d, TOTAL_BLKS_AT, x, D_AT + 4);
    FieldsOfSplice(d, TOTAL_BLKS_AT, x, D_AT + 8);
    SpliceAt(d, TOTAL_BLKS_AT, x, CKH_DATA_AT, |d|);
  }

  /** A RAW chunk read off the buffer is valid and writes its payload. */
  lemma RawChunk(d: seq<byte>, n: u32, end: nat, blkSz: nat)
    requires CKH_DATA_AT <= end <= |d| && end == CKH_DATA_AT + Span(n, blkSz)
    requires U16(d, D_AT) == CHUNK_TYPE_RAW && U32(d, D_AT + 4) == n && U32(d, D_AT + 8) == end - D_AT
    ensures ValidChunk(d[D_AT..end], blkSz) && ChunkBlocks(d[D_AT..end]) == n
    ensures ChunkCells(d[D_AT..end], blkSz) == Puts(d[CKH_DATA_AT..end])
  {
    FieldsOfSlice(d, D_AT, end, 0);
    FieldsOfSlice(d, D_AT, end, 4);
    FieldsOfSlice(d, D_AT, end, 8);
    SliceOfSlice(d, D_AT, end, CHUNK_SZ, end - D_AT);
    assert d[D_AT..end][CHUNK_SZ..] == d[D_AT..end][CHUNK_SZ..end - D_AT];
  }

  /** The buffer flashed for a piece of a big chunk. */
  lemma PieceImage(d: seq<byte>, file: seq<byte>, skip: u32, n: u32, end: nat)
    requires SparseHeader(file) && skip + n < TWO_32 && Head(d, file, skip + n, 2, skip)
    requires CKH_DATA_AT <= end <= |d| && end == CKH_DATA_AT + Span(n, BlockSize(file))
    requires U16(d, D_AT) == CHUNK_TYPE_RAW && U32(d, D_AT + 4) == n && U32(d, D_AT + 8) == end - D_AT
    ensures WellFormed(d[..end]) && BlockSize(d[..end]) == BlockSize(file)
    ensures ImageCells(d[..end]) == Skip(Span(skip, BlockSize(file))) + Puts(d[CKH_DATA_AT..end])
  {
    var c := d[D_AT..end];
    RawChunk(d, n, end, BlockSize(file));
    HeadOfPrefix(d, file, skip + n, 2, skip, end);
    FlattenOne(c);
    BlocksOne(c);
    CellsOne(c, BlockSize(file));
    assert d[..end][D_AT..] == c;
    SubImage(d[..end], file, skip, [c], skip + n, 2);
  }

  /** After the move, bytes `lo..mid` of the payload, not flashed yet, are at the front of the payload area. */
  lemma Moved(d: seq<byte>, dataSize: nat, payload: seq<byte>, off: nat, lo: nat, mid: nat, end: nat)
    requires CKH_DATA_AT + dataSize <= |d| && mid == off + |d| - CKH_DATA_AT <= |payload|
    requires lo == off + dataSize && end == |d| - dataSize
    requires d[CKH_DATA_AT..] == payload[off..mid]
    ensures var e := Splice(d, CKH_DATA_AT, d[CKH_DATA_AT + dataSize..]);
      e[..CKH_DATA_AT] == d[..CKH_DATA_AT] && e[CKH_DATA_AT..end] == payload[lo..mid]
  {
    var x := d[CKH_DATA_AT + dataSize..];
    var e := Splice(d, CKH_DATA_AT, x);
    SpliceAt(d, CKH_DATA_AT, x, 0, CKH_DATA_AT);
    assert e[..CKH_DATA_AT] == e[0..CKH_DATA_AT] && d[..CKH_DATA_AT] == d[0..CKH_DATA_AT];
    assert x == d[CKH_DATA_AT..][dataSize..];
    SliceOfSlice(payload, off, mid, dataSize, mid - off);
  }

  lemma SameTail(d: seq<byte>, e: seq<byte>, lo: nat, hi: nat)
    requires |d| == |e| && lo <= hi <= |d| && d[lo..] == e[lo..]
    ensures d[lo..hi] == e[lo..hi]
  {
    assert d[lo..hi] == d[lo..][..hi - lo] && e[lo..hi] == e[lo..][..hi - lo];
  }

  /** Reading bytes `mid..hi` behind bytes `lo..mid`. */
  lemma Refilled(e: seq<byte>, at: nat, end: nat, payload: seq<byte>, lo: nat, mid: nat, hi: nat, x: seq<byte>)
    requires CKH_DATA_AT <= at <= end <= |e| && lo <= mid <= hi <= |payload| && |x| == end - at
    requires e[CKH_DATA_AT..at] == payload[lo..mid] && x == payload[mid..hi]
    ensures var r := Splice(e, at, x);
      r[..CKH_DATA_AT] == e[..CKH_DATA_AT] && r[CKH_DATA_AT..end] == payload[lo..hi]
  {
    var r := Splice(e, at, x);
    SpliceAt(e, at, x, 0, CKH_DATA_AT);
    SpliceAt(e, at, x, CKH_DATA_AT, at);
    assert r[..CKH_DATA_AT] == r[0..CKH_DATA_AT] && e[..CKH_DATA_AT] == e[0..CKH_DATA_AT];
    assert r[CKH_DATA_AT..end] == r[CKH_DATA_AT..at] + r[at..end];
    assert payload[lo..hi] == payload[lo..mid] + payload[mid..hi];
  }

  /** The file holds, from `pos` on, what follows byte `at` of `payload`. */
  ghost predicate Pending(file: seq<byte>, pos: nat, payload: seq<byte>, at: nat) {
    at <= |payload| && pos + |payload| - at <= |file| && file[pos..pos + |payload| - at] == payload[at..]
  }

  lemma PendingPayload(file: seq<byte>, pos: nat, c: seq<byte>, at: nat)
    requires CHUNK_SZ <= at && Pending(file, pos, c, at)
    ensures Pending(file, pos, c[CHUNK_SZ..], at - CHUNK_SZ)
  {
    assert c[CHUNK_SZ..][at - CHUNK_SZ..] == c[at..];
  }

  lemma PendingStep(file: seq<byte>, pos: nat, payload: seq<byte>, mid: nat, hi: nat, next: nat)
    requires Pending(file, pos, payload, mid) && mid <= hi <= |payload| && next == pos + hi - mid
    ensures next <= |file| && file[pos..next] == payload[mid..hi]
    ensures Pending(file, next, payload, hi)
  {
    var n := |payload| - mid;
    SliceOfSlice(file, pos, pos + n, 0, hi - mid);
    SliceOfSlice(file, pos, pos + n, hi - mid, n);
    assert payload[mid..][0..hi - mid] == payload[mid..hi] && payload[mid..][hi - mid..n] == payload[hi..];
  }

  /** What lies before the payload area decides the front of the buffer. */
  lemma FrontKept(d: seq<byte>, e: seq<byte>, file: seq<byte>, blks: u32, chunks: u32, skip: u32)
    requires Head(d, file, blks, chunks, skip) && |d| == |e| && |d| >= CKH_DATA_AT
             && d[..CKH_DATA_AT] == e[..CKH_DATA_AT]
    ensures Head(e, file, blks, chunks, skip) && U16(e, D_AT) == U16(d, D_AT)
  {
    var n := CKH_DATA_AT;
    assert e == Splice(d, n, e[n..]);
    HeadKept(d, file, blks, chunks, skip, n, e[n..]);
    FieldsOfSplice(d, n, e[n..], D_AT);
  }

  /** The number of whole blocks in `size` bytes. */
  method WholeBlocks(size: nat, blkSz: nat) returns (q: nat)
    requires 0 < blkSz <= size
    ensures 1 <= q && Span(q, blkSz) <= size < Span(q, blkSz) + blkSz
  {
    q := size / blkSz;
    SpanIsProduct(q, blkSz);
    assert size == blkSz * q + size % blkSz;
    assert q >= 1 by {
      assert size / blkSz >= blkSz / blkSz;
    }
  }

  /** A piece takes as many whole blocks as fit; what stays in the buffer is less than a block. */
  lemma PieceSize(maxDataSize: nat, blkSz: nat, maxBlks: nat, ckhBlks: nat, n: nat, left: int)
    requires 1 <= maxBlks && Span(maxBlks, blkSz) <= maxDataSize < Span(maxBlks, blkSz) + blkSz
    requires ckhBlks > 0 && n == Min(maxBlks, ckhBlks) && left == ckhBlks - n
    ensures 0 < n <= ckhBlks && Span(n, blkSz) <= maxDataSize
    ensures Span(ckhBlks, blkSz) == Span(n, blkSz) + Span(left, blkSz)
    ensures left == 0 || maxDataSize - Span(n, blkSz) < blkSz <= Span(left, blkSz)
  {
    hide Span;
    Distribute(n, left, ckhBlks, blkSz);
    Distribute(n, maxBlks - n, maxBlks, blkSz);
    if left > 0 {
      assert n == maxBlks;
      SpanPositive(left, blkSz);
    }
  }

  lemma SpanPositive(blocks: nat, blkSz: nat)
    requires blocks > 0
    ensures Span(blocks, blkSz) >= blkSz
  {
  }

  /** Writes of the first `off` bytes of a payload, on top of `done`, and what the next piece adds. */
  function Written(done: seq<Cell>, payload: seq<byte>, off: nat): (r: seq<Cell>)
    requires off <= |payload|
    ensures |r| == |done| + off
  {
    done + Puts(payload[..off])
  }

  lemma WrittenStep(done: seq<Cell>, payload: seq<byte>, i: nat, j: nat)
    requires i <= j <= |payload|
    ensures Written(done, payload, i) + Puts(payload[i..j]) == Written(done, payload, j)
    ensures done <= Written(done, payload, j) <= done + Puts(payload)
    ensures Written(done, payload, |payload|) == done + Puts(payload)
    ensures Written(done, payload, 0) == done
  {
  }

  /** The payload area of the buffer starts with bytes `off..hi` of the payload. */
  ghost predicate Holds(d: seq<byte>, payload: seq<byte>, off: nat, hi: nat) {
    && off <= hi <= |payload| && CKH_DATA_AT + (hi - off) <= |d|
    && d[CKH_DATA_AT..CKH_DATA_AT + (hi - off)] == payload[off..hi]
  }

  /** The front of the buffer while a big chunk is cut up: skip chunk and RAW chunk. */
  ghost predicate PieceHead(d: seq<byte>, file: seq<byte>, blks: u32, skip: u32) {
    Head(d, file, blks, 2, skip) && |d| >= CKH_DATA_AT && U16(d, D_AT) == CHUNK_TYPE_RAW
  }

  lemma HoldsAll(d: seq<byte>, payload: seq<byte>, off: nat, hi: nat)
    requires |d| >= CKH_DATA_AT && hi == off + |d| - CKH_DATA_AT <= |payload|
    ensures Holds(d, payload, off, hi) <==> d[CKH_DATA_AT..] == payload[off..hi]
  {
    assert d[CKH_DATA_AT..] == d[CKH_DATA_AT..|d|];
  }

  lemma FrontOfWindow(d: seq<byte>, payload: seq<byte>, off: nat, lo: nat, hi: nat)
    requires off <= lo <= hi && Holds(d, payload, off, hi)
    ensures Holds(d, payload, off, lo)
  {
    SliceOfSlice(d, CKH_DATA_AT, CKH_DATA_AT + (hi - off), 0, lo - off);
    SliceOfSlice(payload, off, hi, 0, lo - off);
  }

  lemma BigChunkFields(d: seq<byte>, c: seq<byte>, file: seq<byte>, skip: u32)
    requires |d| >= CKH_DATA_AT && Framed(c) && |c| >= |d| - D_AT && d[D_AT..] == c[..|d| - D_AT]
    requires Head(d, file, skip, 1, skip)
    ensures U32(d, 12) == BlockSize(file) && U16(d, D_AT) == ChunkType(c)
    ensures U32(d, D_AT + 4) == ChunkBlocks(c) && U32(d, D_AT + 8) == |c|
    ensures d[CKH_DATA_AT..] == c[CHUNK_SZ..][..|d| - CKH_DATA_AT]
  {
    assert d[D_AT..] == d[D_AT..|d|];
    WindowFields(d, D_AT, |d|, c, 0);
    WindowFields(d, D_AT, |d|, c, 4);
    WindowFields(d, D_AT, |d|, c, 8);
    WindowFields(d, 0, 16, file, 12);
    assert d[CKH_DATA_AT..] == d[D_AT..][CHUNK_SZ..];
  }

  /** The buffer is filled by the front of a chunk longer than it. */
  lemma BigChunkWindow(d: seq<byte>, todo: seq<seq<byte>>)
    requires todo != [] && Framed(todo[0]) && Window(d, |d|, todo) && CKH_DATA_AT <= |d| && |todo[0]| >= |d| - D_AT
    ensures d[D_AT..] == todo[0][..|d| - D_AT]
    ensures U16(d, D_AT) == ChunkType(todo[0]) && U32(d, D_AT + 8) == |todo[0]|
  {
    var n := |d| - D_AT;
    FlattenStep(todo, 0);
    assert todo[0..] == todo;
    assert d[D_AT..] == d[D_AT..|d|] && (todo[0] + Flatten(todo[1..]))[..n] == todo[0][..n];
    WindowFields(d, D_AT, |d|, todo[0], 0);
    WindowFields(d, D_AT, |d|, todo[0], 8);
  }

  lemma BigChunkPending(file: seq<byte>, pos: nat, todo: seq<seq<byte>>, at: nat)
    requires todo != [] && Pending(file, pos, Flatten(todo), at) && at <= |todo[0]|
    ensures Pending(file, pos, todo[0], at)
  {
    var f, c := Flatten(todo), todo[0];
    FlattenStep(todo, 0);
    assert todo[0..] == todo;
    PendingStep(file, pos, f, at, |c|, pos + |c| - at);
    assert f[at..|c|] == c[at..];
  }

  /** Once the first chunk has been read to its end, the file goes on with the second one. */
  lemma AfterBigChunk(file: seq<byte>, p: nat, pos: nat, todo: seq<seq<byte>>, at: nat)
    requires todo != [] && Pending(file, p, Flatten(todo), at) && at <= |todo[0]| && pos == p + |todo[0]| - at
    ensures Pending(file, pos, Flatten(todo[1..]), 0)
  {
    var f, n := Flatten(todo), |todo[0]|;
    FlattenStep(todo, 0);
    assert todo[0..] == todo;
    PendingStep(file, p, f, at, n, pos);
    assert f[n..] == Flatten(todo[1..]) == Flatten(todo[1..])[0..];
  }

  /** Where the loop of installer_split_and_flash stands: an incomplete chunk, if any, is at the front
      of the data area up to `readPtr`, and the file goes on from there. */
  ghost predicate Ready(d: seq<byte>, file: seq<byte>, pos: nat, readPtr: nat, todo: seq<seq<byte>>) {
    && Window(d, readPtr, todo) && Pending(file, pos, Flatten(todo), readPtr - D_AT)
    && |file| == pos + |Flatten(todo)| - (readPtr - D_AT)
    && (todo == [] || readPtr - D_AT < |todo[0]|)
    && Front(d, file)
  }

  /** The buffer after a read: filled to its end, or up to the end of the file. */
  ghost predicate Loaded(d: seq<byte>, file: seq<byte>, pos: nat, end: nat, todo: seq<seq<byte>>) {
    && Window(d, end, todo) && Pending(file, pos, Flatten(todo), end - D_AT)
    && |file| == pos + |Flatten(todo)| - (end - D_AT)
    && (end == |d| || end == D_AT + |Flatten(todo)|)
  }

  lemma PendingRest(file: seq<byte>, pos: nat, todo: seq<seq<byte>>, m: nat, at: nat, rest: nat)
    requires m <= |todo| && Pending(file, pos, Flatten(todo), at) && at == |Flatten(todo[..m])| + rest
    ensures Pending(file, pos, Flatten(todo[m..]), rest)
    ensures |Flatten(todo)| == |Flatten(todo[..m])| + |Flatten(todo[m..])|
  {
    FlattenSplit(todo, m);
    assert Flatten(todo)[at..] == Flatten(todo[m..])[rest..];
  }

  /** Without a complete chunk in it, the buffer is full. */
  lemma WholeWindow(d: seq<byte>, file: seq<byte>, pos: nat, end: nat, todo: seq<seq<byte>>)
    requires Loaded(d, file, pos, end, todo) && todo != [] && end < D_AT + |todo[0]|
    ensures end == |d|
  {
    assert todo[0..] == todo;
    FlattenStep(todo, 0);
  }

  lemma FirstOfMany(todo: seq<seq<byte>>, blkSz: nat)
    requires todo != [] && ValidChunks(todo, blkSz)
    ensures Flatten(todo[..0]) == [] && Blocks(todo[..0]) == 0 && todo[..1] == [todo[0]]
    ensures Blocks(todo[..1]) == ChunkBlocks(todo[0]) <= Blocks(todo)
    ensures Cells(todo[..1], blkSz) == ChunkCells(todo[0], blkSz)
    ensures |Flatten(todo)| == |todo[0]| + |Flatten(todo[1..])|
  {
    assert todo[..1] == [todo[0]] && todo[0..] == todo;
    BlocksOne(todo[0]);
    CellsOne(todo[0], blkSz);
    FlattenStep(todo, 0);
  }

  /** A chunk that is RAW or fits the data area of the buffer. */
  predicate Fits(c: seq<byte>, size: int) {
    |c| >= CHUNK_SZ && (ChunkType(c) == CHUNK_TYPE_RAW || |c| <= size)
  }

  predicate Fit(cs: seq<seq<byte>>, size: int) {
    forall i :: 0 <= i < |cs| ==> Fits(cs[i], size)
  }

  lemma {:induction false} PartsFit(cs: seq<seq<byte>>, size: int)
    requires forall i :: 0 <= i < |cs| ==> |cs[i]| >= CHUNK_SZ
    requires |Flatten(cs)| <= size
    ensures Fit(cs, size)
  {
    if cs != [] {
      PartsFit(cs[1..], size);
    }
  }

  lemma NoChunks(cs: seq<seq<byte>>, blkSz: nat)
    ensures Blocks(cs[..0]) == 0 && Cells(cs[..0], blkSz) == [] && Span(0, blkSz) == 0 && cs[0..] == cs
  {
  }

  lemma BlocksSplit(cs: seq<seq<byte>>, k: nat, blkSz: nat)
    requires k <= |cs| && ValidChunks(cs, blkSz)
    ensures Blocks(cs) == Blocks(cs[..k]) + Blocks(cs[k..]) && ValidChunks(cs[k..], blkSz)
  {
    assert cs == cs[..k] + cs[k..];
    BlocksConcat(cs[..k], cs[k..]);
  }

  /** Taking `m` more chunks of the list. */
  lemma ListStep(cs: seq<seq<byte>>, k: nat, m: nat, next: nat, blkSz: nat)
    requires next == k + m <= |cs| && ValidChunks(cs, blkSz)
    ensures cs[k..][m..] == cs[next..]
    ensures Blocks(cs[..next]) == Blocks(cs[..k]) + Blocks(cs[k..][..m])
    ensures Cells(cs[..next], blkSz) == Cells(cs[..k], blkSz) + Cells(cs[k..][..m], blkSz)
    ensures Cells(cs[..next], blkSz) <= Cells(cs, blkSz)
  {
    assert cs[..next] == cs[..k] + cs[k..][..m] && cs == cs[..next] + cs[next..];
    BlocksConcat(cs[..k], cs[k..][..m]);
    CellsConcat(cs[..k], cs[k..][..m], blkSz);
    CellsConcat(cs[..next], cs[next..], blkSz);
  }

  lemma FitStep(cs: seq<seq<byte>>, k: nat, m: nat, next: nat, size: int)
    requires next == k + m <= |cs| && Fit(cs[..k], size) && Fit(cs[k..][..m], size)
    ensures Fit(cs[..next], size)
  {
    assert forall i :: k <= i < next ==> cs[i] == cs[k..][..m][i - k];
  }

  lemma StartReady(d: seq<byte>, file: seq<byte>)
    requires WellFormed(file) && Front(d, file)
    ensures Ready(d, file, HEADER_SZ, D_AT, ImageChunks(file))
  {
    hide Split, U16, U32, Blocks;
    var cs := ImageChunks(file);
    assert d[D_AT..D_AT] == [] == Flatten(cs)[..0];
    assert file[HEADER_SZ..|file|] == file[HEADER_SZ..] && Flatten(cs)[0..] == Flatten(cs);
    if cs != [] {
      assert ValidChunk(cs[0], BlockSize(file));
    }
  }

  /** At the end of the file no chunk is left. */
  lemma NothingLeft(d: seq<byte>, file: seq<byte>, pos: nat, readPtr: nat, todo: seq<seq<byte>>)
    requires Ready(d, file, pos, readPtr, todo)
    ensures pos == |file| ==> todo == []
  {
    if todo != [] {
      assert todo[0..] == todo;
      FlattenStep(todo, 0);
    }
  }

  /** A buffer handed to the flash command: a well-formed image that fits the download buffer. */
  ghost predicate Piece(img: seq<byte>, file: seq<byte>, maxSize: nat) {
    |file| >= HEADER_SZ && WellFormed(img) && BlockSize(img) == BlockSize(file) && |img| <= maxSize
  }

  /** Every flashed buffer is such an image, and together they write exactly `cells`. */
  ghost predicate Sound(imgs: seq<seq<byte>>, cells: seq<Cell>, file: seq<byte>, maxSize: nat) {
    Applies(imgs, cells) && forall i :: 0 <= i < |imgs| ==> Piece(imgs[i], file, maxSize)
  }

  /** Images that write what the file writes leave every disk as the file does. */
  lemma SameDisk(imgs: seq<seq<byte>>, file: seq<byte>, maxSize: nat)
    requires WellFormed(file) && Sound(imgs, ImageCells(file), file, maxSize)
    ensures forall disk: seq<byte> :: |disk| >= |ImageCells(file)| ==> FlashAll(imgs, disk) == FlashSparse(file, disk)
  {
    hide WellFormed, ImageCells;
  }

  datatype Outcome = Done | NotSparse | Corrupted | Fault
  datatype Turn = Go | Stop(outcome: Outcome)

  /** The splitter at work on one file. `readOk` and `flashOk` say which of the successive
      file reads and flash commands succeed. */
  class Splitter {
    const data: array<byte>
    const file: seq<byte>
    const readOk: nat -> bool
    const flashOk: nat -> bool
    var pos: nat
    var nbReads: nat
    var flashed: seq<seq<byte>>
    ghost var done: seq<Cell>

    constructor (data: array<byte>, file: seq<byte>, readOk: nat -> bool, flashOk: nat -> bool)
      ensures this.data == data && this.file == file && this.readOk == readOk && this.flashOk == flashOk
      ensures pos == 0 && nbReads == 0 && flashed == [] && done == [] && Sound(flashed, done, file, data.Length)
    {
      this.data, this.file, this.readOk, this.flashOk := data, file, readOk, flashOk;
      pos, nbReads, flashed, done := 0, 0, [], [];
      new;
      AppliesNothing();
    }

    method Put(at: nat, x: seq<byte>)
      requires at + |x| <= data.Length
      modifies data
      ensures data[..] == Splice(old(data[..]), at, x)
    {
      forall i | 0 <= i < |x| {
        data[at + i] := x[i];
      }
    }

    method PutU32(at: nat, v: u32) returns (ghost x: seq<byte>)
      requires at + 4 <= data.Length
      modifies data
      ensures |x| == 4 && U32(x, 0) == v
      ensures data[..] == Splice(old(data[..]), at, x)
    {
      EncodedFields(v);
      x := LE32(v);
      Put(at, LE32(v));
    }

    method ReadFile(at: nat, n: nat) returns (ok: bool)
      requires at + n <= data.Length && pos <= |file|
      modifies `pos, `nbReads, data
      ensures nbReads == old(nbReads) + 1
      ensures ok == (readOk(old(nbReads)) && n <= |file| - old(pos))
      ensures pos == if ok then old(pos) + n else old(pos)
      ensures data[..] == if ok then Splice(old(data[..]), at, file[old(pos)..pos]) else old(data[..])
    {
      ok := readOk(nbReads) && n <= |file| - pos;
      nbReads := nbReads + 1;
      if ok {
        Put(at, file[pos..pos + n]);
        pos := pos + n;
      }
    }

    method FlashBuffer(n: nat, ghost extra: seq<Cell>) returns (ok: bool)
      requires n <= data.Length && Sound(flashed, done, file, data.Length) && Piece(data[..n], file, data.Length)
      requires ImageCells(data[..n]) == Skip(|done|) + extra
      modifies `flashed, `done
      ensures Sound(flashed, done, file, data.Length) && ok == flashOk(|old(flashed)|)
      ensures ok ==> flashed == old(flashed) + [data[..n]] && done == old(done) + extra
      ensures !ok ==> flashed == old(flashed) && done == old(done)
    {
      hide WellFormed, ImageCells, Skip, Applies;
      ok := flashOk(|flashed|);
      if ok {
        AppliesNext(flashed, done, data[..n], extra);
        flashed := flashed + [data[..n]];
        done := done + extra;
      }
    }

    /** Count one more chunk, of `chunkSz` blocks, in the header of the image being built. */
    method CountChunk(chunkSz: u32, ghost blks: u32, ghost chunks: u32, ghost skip: u32)
      requires Head(data[..], file, blks, chunks, skip) && blks + chunkSz < TWO_32 && chunks + 1 < TWO_32
      modifies data
      ensures Head(data[..], file, blks + chunkSz, chunks + 1, skip)
      ensures data[D_AT..] == old(data[D_AT..])
    {
      ghost var d := data[..];
      ghost var x := PutU32(TOTAL_BLKS_AT, U32(data[..], TOTAL_BLKS_AT) + chunkSz);
      HeadSet(d, file, blks, chunks, skip, TOTAL_BLKS_AT, x);
      d := data[..];
      x := PutU32(TOTAL_CHUNKS_AT, U32(data[..], TOTAL_CHUNKS_AT) + 1);
      HeadSet(d, file, blks + chunkSz, chunks, skip, TOTAL_CHUNKS_AT, x);
    }

    /** The inner loop of installer_split_and_flash: count the complete chunks in the buffer. */
    method ScanChunks(end: nat, nbChunks: nat, blkCount: u32, ghost todo: seq<seq<byte>>)
      returns (ckh: nat, nb: nat, blks: u32, ghost m: nat)
      requires D_AT <= end <= data.Length < TWO_32
      requires Head(data[..], file, blkCount, 1, blkCount)
      requires ValidChunks(todo, BlockSize(file)) && nbChunks == |todo| && blkCount + Blocks(todo) < TWO_32
      requires Window(data[..], end, todo)
      modifies data
      ensures nb + m == nbChunks && ckh == D_AT + |Flatten(todo[..m])| <= end
      ensures blks == blkCount + Blocks(todo[..m])
      ensures 1 + m < TWO_32 && Head(data[..], file, blks, 1 + m, blkCount)
      ensures data[D_AT..] == old(data[D_AT..])
      ensures m == |todo| || end < ckh + |todo[m]|
    {
      hide Front, Head, Window, U32;
      ckh, nb, blks := D_AT, nbChunks, blkCount;
      m := 0;
      while ckh + CHUNK_SZ <= end && ckh + U32(data[..], ckh + 8) <= end
        invariant m == nbChunks - nb <= nbChunks && ckh == D_AT + |Flatten(todo[..m])| <= end
        invariant blks == blkCount + Blocks(todo[..m])
        invariant 1 + m < TWO_32 && Head(data[..], file, blks, 1 + m, blkCount)
        invariant data[D_AT..] == old(data[D_AT..])
        decreases nb
      {
        WindowKept(old(data[..]), data[..], end, todo);
        HeaderInWindow(data[..], end, todo, m);
        ScanStep(todo, m);
        var chunkSz, totalSz := U32(data[..], ckh + 4), U32(data[..], ckh + 8);
        CountChunk(chunkSz, blks, 1 + m, blkCount);
        blks := blks + chunkSz;
        nb := nb - 1;
        m := m + 1;
        ckh := ckh + totalSz;
      }
      WindowKept(old(data[..]), data[..], end, todo);
      HeaderInWindow(data[..], end, todo, m);
    }

    method SetPieceHeader(n: u32, size: u32, ghost skip: u32, ghost blks: u32)
      requires Head(data[..], file, blks, 2, skip) && skip + n < TWO_32 && data.Length >= CKH_DATA_AT
      modifies data
      ensures Head(data[..], file, skip + n, 2, skip) && U16(data[..], D_AT) == old(U16(data[..], D_AT))
      ensures U32(data[..], D_AT + 4) == n && U32(data[..], D_AT + 8) == size
      ensures data[CKH_DATA_AT..] == old(data[CKH_DATA_AT..])
    {
      ghost var d := data[..];
      ghost var x := PutU32(D_AT + 4, n);
      HeadKept(d, file, blks, 2, skip, D_AT + 4, x);
      ghost var e := data[..];
      ghost var y := PutU32(D_AT + 8, size);
      HeadKept(e, file, blks, 2, skip, D_AT + 8, y);
      ChunkSizesSet(d, x, y);
      d := data[..];
      x := PutU32(TOTAL_BLKS_AT, U32(data[..], SKIP_AT + 4) + n);
      HeadSet(d, file, blks, 2, skip, TOTAL_BLKS_AT, x);
      TotalSet(d, x);
    }

    method SetTotalChunks(ghost skip: u32)
      requires Head(data[..], file, skip, 1, skip) && data.Length >= CKH_DATA_AT
      modifies data
      ensures Head(data[..], file, skip, 2, skip) && data[CKH_DATA_AT..] == old(data[CKH_DATA_AT..])
      ensures U16(data[..], D_AT) == old(U16(data[..], D_AT))
    {
      ghost var d := data[..];
      ghost var x := PutU32(TOTAL_CHUNKS_AT, 2);
      HeadSet(d, file, skip, 1, skip, TOTAL_CHUNKS_AT, x);
      SpliceAt(d, TOTAL_CHUNKS_AT, x, CKH_DATA_AT, |d|);
      FieldsOfSplice(d, TOTAL_CHUNKS_AT, x, D_AT);
    }

    /** One turn of the big chunk loop: make the front of the buffer a chunk of `n` blocks and flash it. */
    method FlashPiece(n: u32, ghost skip: u32, ghost blks: u32) returns (ok: bool)
      requires SparseHeader(file) && CKH_DATA_AT + Span(n, BlockSize(file)) <= data.Length < TWO_32
      requires Head(data[..], file, blks, 2, skip) && U16(data[..], D_AT) == CHUNK_TYPE_RAW
      requires Sound(flashed, done, file, data.Length) && |done| == Span(skip, BlockSize(file)) && skip + n < TWO_32
      modifies this, data
      ensures Head(data[..], file, skip + n, 2, skip) && U16(data[..], D_AT) == CHUNK_TYPE_RAW
      ensures U32(data[..], D_AT + 4) == n && U32(data[..], D_AT + 8) == CHUNK_SZ + Span(n, BlockSize(file))
      ensures data[CKH_DATA_AT..] == old(data[CKH_DATA_AT..])
      ensures Sound(flashed, done, file, data.Length)
      ensures done == old(done) + if ok then Puts(data[CKH_DATA_AT..CKH_DATA_AT + Span(n, BlockSize(file))]) else []
      ensures pos == old(pos) && nbReads == old(nbReads) && ok == flashOk(|old(flashed)|)
    {
      hide Front, Head, Sound, WellFormed, ImageCells, Skip, Puts, U16, U32, BlockSize, Span;
      var size := CHUNK_SZ + Span(n, BlockSize(file));
      SetPieceHeader(n, size, skip, blks);
      var end := D_AT + size;
      PieceImage(data[..], file, skip, n, end);
      ok := FlashBuffer(end, Puts(data[CKH_DATA_AT..end]));
    }

    /** Flash bytes `off..lo` of the payload, the front of the bytes `off..hi` in the buffer. */
    method FlashFront(n: u32, ghost blkSz: nat, ghost skip: u32, ghost skip': u32, ghost blks: u32,
                      ghost payload: seq<byte>, ghost done0: seq<Cell>, ghost off: nat, ghost lo: nat, ghost hi: nat)
      returns (ok: bool)
      requires SparseHeader(file) && blkSz == BlockSize(file) && data.Length < TWO_32 && skip' == skip + n
      requires lo == off + Span(n, blkSz) <= hi && Holds(data[..], payload, off, hi)
      requires PieceHead(data[..], file, blks, skip)
      requires Sound(flashed, done, file, data.Length) && done == Written(done0, payload, off)
               && |done| == Span(skip, blkSz)
      modifies this, data
      ensures PieceHead(data[..], file, skip', skip) && Holds(data[..], payload, off, hi)
      ensures Sound(flashed, done, file, data.Length) && done == Written(done0, payload, if ok then lo else off)
      ensures ok ==> |done| == Span(skip', blkSz)
      ensures pos == old(pos) && nbReads == old(nbReads) && ok == flashOk(|old(flashed)|)
    {
      hide Front, Head, Sound, Written, Span, U32, BlockSize, Puts;
      FrontOfWindow(data[..], payload, off, lo, hi);
      ghost var d := data[..];
      ok := FlashPiece(n, skip, blks);
      SameTail(d, data[..], CKH_DATA_AT, CKH_DATA_AT + (lo - off));
      SameTail(d, data[..], CKH_DATA_AT, CKH_DATA_AT + (hi - off));
      WrittenStep(done0, payload, off, lo);
      Distribute(skip, n, skip', blkSz);
    }

    /** Move the bytes behind the flashed piece to the front of the payload area. */
    method MoveRest(dataSize: nat, ghost payload: seq<byte>, ghost off: nat, ghost lo: nat, ghost mid: nat)
      returns (end: nat)
      requires CKH_DATA_AT + dataSize <= data.Length && mid == off + data.Length - CKH_DATA_AT <= |payload|
      requires lo == off + dataSize && data[CKH_DATA_AT..] == payload[off..mid]
      modifies data
      ensures end == data.Length - dataSize && data[..CKH_DATA_AT] == old(data[..CKH_DATA_AT])
      ensures data[CKH_DATA_AT..end] == payload[lo..mid]
    {
      end := CKH_DATA_AT;
      var maxDataSize := data.Length - CKH_DATA_AT;
      if dataSize < maxDataSize {
        Moved(data[..], dataSize, payload, off, lo, mid, data.Length - dataSize);
        Put(CKH_DATA_AT, data[CKH_DATA_AT + dataSize..]);
        end := end + (maxDataSize - dataSize);
      }
    }

    /** Prepare the next piece: the rest of the buffer moves to the front and the file is read behind it. */
    method Refill(dataSize: nat, payloadSize: nat, ghost payload: seq<byte>, ghost off: nat, ghost lo: nat,
                  ghost mid: nat, ghost hi: nat)
      returns (ok: bool)
      requires CKH_DATA_AT + dataSize <= data.Length && mid == off + data.Length - CKH_DATA_AT <= |payload|
      requires lo == off + dataSize && payloadSize == |payload| - lo
      requires hi == lo + Min(payloadSize, data.Length - CKH_DATA_AT)
      requires data[CKH_DATA_AT..] == payload[off..mid] && Pending(file, pos, payload, mid)
      modifies `pos, `nbReads, data
      ensures data[..CKH_DATA_AT] == old(data[..CKH_DATA_AT])
      ensures ok ==> data[CKH_DATA_AT..CKH_DATA_AT + (hi - lo)] == payload[lo..hi]
      ensures ok ==> pos == old(pos) + hi - mid && Pending(file, pos, payload, hi)
      ensures !ok ==> !readOk(old(nbReads))
    {
      hide Pending, Splice;
      var readPtr := MoveRest(dataSize, payload, off, lo, mid);
      var readSize := Min(payloadSize, data.Length - CKH_DATA_AT) - (readPtr - CKH_DATA_AT);
      PendingStep(file, pos, payload, mid, hi, pos + readSize);
      Refilled(data[..], readPtr, readPtr + readSize, payload, lo, mid, hi, file[pos..pos + readSize]);
      ok := ReadFile(readPtr, readSize);
    }

    /** Refill the buffer and let the next piece skip the `n` blocks just flashed as well. */
    method NextPiece(n: u32, dataSize: nat, payloadSize: nat, ghost payload: seq<byte>, ghost off: nat,
                     ghost lo: nat, ghost mid: nat, ghost hi: nat, ghost skip: u32, ghost skip': u32)
      returns (ok: bool)
      requires CKH_DATA_AT + dataSize <= data.Length && mid == off + data.Length - CKH_DATA_AT
      requires lo == off + dataSize && payloadSize == |payload| - lo
      requires hi == lo + Min(payloadSize, data.Length - CKH_DATA_AT)
      requires Holds(data[..], payload, off, mid) && Pending(file, pos, payload, mid)
      requires skip' == skip + n && PieceHead(data[..], file, skip', skip)
      modifies `pos, `nbReads, data
      ensures flashed == old(flashed) && done == old(done)
      ensures ok ==> PieceHead(data[..], file, skip', skip') && Holds(data[..], payload, lo, hi)
      ensures ok ==> pos == old(pos) + hi - mid && Pending(file, pos, payload, hi)
      ensures !ok ==> !readOk(old(nbReads))
    {
      hide Front, Pending, U32;
      ghost var d := data[..];
      HoldsAll(d, payload, off, mid);
      ok := Refill(dataSize, payloadSize, payload, off, lo, mid, hi);
      if ok {
        FrontKept(d, data[..], file, skip', 2, skip);
        ghost var e := data[..];
        ghost var x := PutU32(SKIP_AT + 4, U32(data[..], SKIP_AT + 4) + n);
        HeadSet(e, file, skip', 2, skip, SKIP_AT + 4, x);
        SpliceAt(e, SKIP_AT + 4, x, CKH_DATA_AT, CKH_DATA_AT + (hi - lo));
        FieldsOfSplice(e, SKIP_AT + 4, x, D_AT);
      }
    }

    /** The body of the loop of installer_flash_big_chunk: flash bytes `off..lo` of the payload and,
        when more bytes follow, prepare the buffer for them. */
    method FlashTurn(n: u32, payloadSize: nat, blkSz: nat, ghost skip: u32, ghost skip': u32, ghost blks: u32,
                     ghost payload: seq<byte>, ghost done0: seq<Cell>, ghost off: nat, ghost lo: nat, ghost hi: nat,
                     ghost next: nat)
      returns (ok: bool, left: nat)
      requires SparseHeader(file) && blkSz == BlockSize(file) && CKH_DATA_AT <= data.Length < TWO_32
               && skip' == skip + n
      requires payloadSize == |payload| - off && hi == off + Min(payloadSize, data.Length - CKH_DATA_AT)
      requires lo == off + Span(n, blkSz) <= hi && next == lo + Min(|payload| - lo, data.Length - CKH_DATA_AT)
      requires lo < |payload| ==> hi == off + data.Length - CKH_DATA_AT
      requires PieceHead(data[..], file, blks, skip) && Holds(data[..], payload, off, hi)
      requires Pending(file, pos, payload, hi)
      requires Sound(flashed, done, file, data.Length) && done == Written(done0, payload, off)
               && |done| == Span(skip, blkSz)
      modifies this, data
      ensures Sound(flashed, done, file, data.Length)
      ensures done == Written(done0, payload, lo) || (!ok && done == Written(done0, payload, off))
      ensures ok ==> |done| == Span(skip', blkSz)
      ensures ok ==> left == |payload| - lo && pos == old(pos) + next - hi && Pending(file, pos, payload, next)
      ensures ok ==> Front(data[..], file)
      ensures ok && left > 0 ==> PieceHead(data[..], file, skip', skip') && Holds(data[..], payload, lo, next)
      ensures !ok ==> exists k :: !readOk(k) || !flashOk(k)
    {
      hide Front, Sound, Pending, Holds, Written, Span, U16, U32, BlockSize;
      var dataSize := Span(n, blkSz);
      left := payloadSize;
      ok := FlashFront(n, blkSz, skip, skip', blks, payload, done0, off, lo, hi);
      if !ok {
        return;
      }
      left := left - dataSize;
      if left == 0 {
        return;
      }
      ok := NextPiece(n, dataSize, left, payload, off, lo, hi, next, skip, skip');
    }

    /** The loop of installer_flash_big_chunk over the payload of a big chunk, whose first bytes fill the buffer. */
    method FlashPieces(blkSz: nat, chunkSz: u32, ghost payload: seq<byte>, ghost skip0: u32)
      returns (ok: bool, ghost off: nat)
      requires SparseHeader(file) && blkSz == BlockSize(file) && data.Length < TWO_32
      requires 0 < blkSz <= data.Length - CKH_DATA_AT < |payload| == Span(chunkSz, blkSz)
      requires PieceHead(data[..], file, skip0, skip0) && Holds(data[..], payload, 0, data.Length - CKH_DATA_AT)
      requires Pending(file, pos, payload, data.Length - CKH_DATA_AT)
      requires Sound(flashed, done, file, data.Length) && |done| == Span(skip0, blkSz) && skip0 + chunkSz < TWO_32
      modifies this, data
      ensures Sound(flashed, done, file, data.Length) && off <= |payload| && done == Written(old(done), payload, off)
      ensures ok ==> off == |payload| && pos == old(pos) + |payload| - (data.Length - CKH_DATA_AT)
      ensures ok ==> Front(data[..], file)
      ensures !ok ==> exists n :: !readOk(n) || !flashOk(n)
    {
      hide Front, Sound, Holds, Pending, Written, U16, U32, BlockSize;
      var maxDataSize: nat := data.Length - CKH_DATA_AT;
      var maxBlks := WholeBlocks(maxDataSize, blkSz);
      var ckhBlks: nat, payloadSize: nat := chunkSz, Span(chunkSz, blkSz);
      ghost var skip: u32, blks: u32, hi: nat, done0 := skip0, skip0, maxDataSize, done;
      off := 0;
      WrittenStep(done0, payload, 0, 0);
      while ckhBlks != 0
        invariant skip + ckhBlks == skip0 + chunkSz
        invariant payloadSize == Span(ckhBlks, blkSz) == |payload| - off && Span(skip, blkSz) == |done|
        invariant PieceHead(data[..], file, blks, skip) && Holds(data[..], payload, off, hi)
        invariant Sound(flashed, done, file, data.Length) && done == Written(done0, payload, off)
        invariant hi == off + Min(payloadSize, maxDataSize) && pos == old(pos) + hi - maxDataSize
        invariant Pending(file, pos, payload, hi)
        decreases ckhBlks
      {
        var n := Min(maxBlks, ckhBlks);
        var blksLeft := ckhBlks - n;
        PieceSize(maxDataSize, blkSz, maxBlks, ckhBlks, n, blksLeft);
        ghost var lo, skip' := off + Span(n, blkSz), skip + n;
        ghost var next := lo + Min(|payload| - lo, maxDataSize);
        ok, payloadSize := FlashTurn(n, payloadSize, blkSz, skip, skip', blks, payload, done0, off, lo, hi, next);
        if done == Written(done0, payload, lo) {
          off := lo;
        }
        if !ok {
          return;
        }
        if payloadSize == 0 {
          break;
        }
        skip, blks, hi := skip', skip', next;
        ckhBlks := blksLeft;
      }
      ok := true;
    }

    /** installer_flash_big_chunk: cut the RAW chunk `c`, too large for the buffer, into pieces. */
    method FlashBigChunk(ghost c: seq<byte>, ghost skip0: u32) returns (ok: bool)
      requires SparseHeader(file) && 0 < BlockSize(file) <= data.Length - CKH_DATA_AT && data.Length < TWO_32
      requires ValidChunk(c, BlockSize(file)) && ChunkType(c) == CHUNK_TYPE_RAW && |c| > data.Length - D_AT
      requires data[D_AT..] == c[..data.Length - D_AT] && Pending(file, pos, c, data.Length - D_AT)
      requires Head(data[..], file, skip0, 1, skip0) && skip0 + ChunkBlocks(c) < TWO_32
      requires Sound(flashed, done, file, data.Length) && |done| == Span(skip0, BlockSize(file))
      modifies this, data
      ensures Sound(flashed, done, file, data.Length)
      ensures old(done) <= done <= old(done) + ChunkCells(c, BlockSize(file))
      ensures ok ==> done == old(done) + ChunkCells(c, BlockSize(file)) && pos == old(pos) + |c| - (data.Length - D_AT)
      ensures ok ==> Front(data[..], file)
      ensures !ok ==> exists n :: !readOk(n) || !flashOk(n)
    {
      hide Front, Sound, Pending, Span, U16, U32, Puts, Holds, Written;
      BigChunkFields(data[..], c, file, skip0);
      PendingPayload(file, pos, c, data.Length - D_AT);
      var blkSz, chunkSz := U32(data[..], 12), U32(data[..], D_AT + 4);
      SetTotalChunks(skip0);
      HoldsAll(data[..], c[CHUNK_SZ..], 0, data.Length - CKH_DATA_AT);
      ghost var off;
      ok, off := FlashPieces(blkSz, chunkSz, c[CHUNK_SZ..], skip0);
      WrittenStep(old(done), c[CHUNK_SZ..], off, off);
    }

    /** Start a new image: one chunk so far, the skip over the blocks already done. */
    method StartImage(blkCount: u32)
      requires Front(data[..], file)
      modifies data
      ensures Head(data[..], file, blkCount, 1, blkCount) && data[D_AT..] == old(data[D_AT..])
    {
      ghost var d := data[..];
      ghost var b, s := U32(d, 16), U32(d, 32);
      ghost var x := PutU32(TOTAL_CHUNKS_AT, 1);
      HeadSet(d, file, b, U32(d, 20), s, TOTAL_CHUNKS_AT, x);
      d := data[..];
      x := PutU32(SKIP_AT + 4, blkCount);
      HeadSet(d, file, b, 1, s, SKIP_AT + 4, x);
      d := data[..];
      x := PutU32(TOTAL_BLKS_AT, blkCount);
      HeadSet(d, file, b, 1, blkCount, TOTAL_BLKS_AT, x);
    }

    /** The file goes on behind the bytes that were kept. */
    method FillBuffer(readPtr: nat, readSize: nat, ghost end: nat, ghost todo: seq<seq<byte>>,
                      ghost b: u32, ghost c: u32, ghost s: u32)
      returns (ok: bool)
      requires Window(data[..], readPtr, todo) && end == readPtr + readSize <= data.Length
      requires Pending(file, pos, Flatten(todo), readPtr - D_AT) && pos + readSize <= |file|
      requires |file| == pos + |Flatten(todo)| - (readPtr - D_AT) && Head(data[..], file, b, c, s)
      modifies `pos, `nbReads, data
      ensures flashed == old(flashed) && done == old(done)
      ensures ok ==> pos == old(pos) + readSize && Head(data[..], file, b, c, s)
      ensures ok ==> Window(data[..], end, todo) && Pending(file, pos, Flatten(todo), end - D_AT)
      ensures !ok ==> !readOk(old(nbReads))
    {
      hide Head, Pending, Flatten;
      ghost var d, f, p := data[..], Flatten(todo), pos;
      PendingStep(file, pos, f, readPtr - D_AT, end - D_AT, pos + readSize);
      ok := ReadFile(readPtr, readSize);
      if ok {
        HeadKept(d, file, b, c, s, readPtr, file[p..pos]);
        WindowGrown(d, readPtr, end, f, file[p..pos]);
      }
    }

    /** Flash the complete chunks counted in the buffer. */
    method FlashScanned(ckh: nat, ghost todo: seq<seq<byte>>, ghost m: nat, ghost end: nat, ghost blks: u32,
                        ghost skip: u32)
      returns (ok: bool)
      requires SparseHeader(file) && ValidChunks(todo, BlockSize(file)) && m <= |todo| && 1 + m < TWO_32
      requires Window(data[..], end, todo) && ckh == D_AT + |Flatten(todo[..m])| <= end
      requires blks == skip + Blocks(todo[..m]) && Head(data[..], file, blks, 1 + m, skip)
      requires Sound(flashed, done, file, data.Length) && |done| == Span(skip, BlockSize(file))
      modifies `flashed, `done
      ensures Sound(flashed, done, file, data.Length) && ok == flashOk(|old(flashed)|)
      ensures ok ==> done == old(done) + Cells(todo[..m], BlockSize(file)) && |done| == Span(blks, BlockSize(file))
      ensures !ok ==> done == old(done)
    {
      hide Front, Head, Sound, Span, U32, Blocks, Cells, Skip, WellFormed, ImageCells;
      ghost var part, blkSz := todo[..m], BlockSize(file);
      HeadOfPrefix(data[..], file, blks, 1 + m, skip, ckh);
      WindowFront(data[..], end, todo, m, ckh);
      SubImage(data[..ckh], file, skip, part, blks, 1 + m);
      ok := FlashBuffer(ckh, Cells(part, blkSz));
      CellsLength(part, blkSz);
      Distribute(skip, Blocks(part), blks, blkSz);
    }

    /** What was not flashed, the front of a chunk, goes to the front of the data area. */
    method KeepRest(ckh: nat, end: nat, ghost todo: seq<seq<byte>>, ghost m: nat, ghost b: u32, ghost c: u32,
                    ghost s: u32)
      returns (readPtr: nat)
      requires m <= |todo| && Window(data[..], end, todo) && ckh == D_AT + |Flatten(todo[..m])| <= end
      requires Head(data[..], file, b, c, s)
      modifies data
      ensures readPtr == D_AT + (end - ckh) && Window(data[..], readPtr, todo[m..])
      ensures Head(data[..], file, b, c, s)
    {
      WindowRest(data[..], end, todo, m, ckh);
      readPtr := D_AT;
      if ckh < end {
        var alreadyRead := end - ckh;
        ghost var d := data[..];
        var x := data[ckh..end];
        Put(D_AT, x);
        HeadKept(d, file, b, c, s, D_AT, x);
        SpliceAt(d, D_AT, x, 0, 0);
        readPtr := D_AT + alreadyRead;
      }
    }

    /** One turn of the loop of installer_split_and_flash when the buffer holds no complete chunk. */
    method BigTurn(blkCount: u32, ghost todo: seq<seq<byte>>) returns (r: Turn)
      requires SparseHeader(file) && 0 < BlockSize(file) <= data.Length - CKH_DATA_AT && data.Length < TWO_32
      requires todo != [] && ValidChunk(todo[0], BlockSize(file)) && |todo[0]| > data.Length - D_AT
      requires Window(data[..], data.Length, todo) && Pending(file, pos, Flatten(todo), data.Length - D_AT)
      requires Head(data[..], file, blkCount, 1, blkCount) && blkCount + ChunkBlocks(todo[0]) < TWO_32
      requires Sound(flashed, done, file, data.Length) && |done| == Span(blkCount, BlockSize(file))
      modifies this, data
      ensures Sound(flashed, done, file, data.Length)
      ensures old(done) <= done <= old(done) + ChunkCells(todo[0], BlockSize(file))
      ensures r == Go ==>
                done == old(done) + ChunkCells(todo[0], BlockSize(file)) && ChunkType(todo[0]) == CHUNK_TYPE_RAW
      ensures r == Go ==> Front(data[..], file)
      ensures r == Go ==> Pending(file, pos, Flatten(todo[1..]), 0)
      ensures r == Go ==> |file| - pos == |file| - old(pos) + data.Length - D_AT - |todo[0]|
      ensures r == Stop(Corrupted) <==> ChunkType(todo[0]) != CHUNK_TYPE_RAW
      ensures r == Stop(Fault) ==> exists n :: !readOk(n) || !flashOk(n)
      ensures r == Go || r == Stop(Corrupted) || r == Stop(Fault)
    {
      hide Front, Head, Sound, Pending, Cells, ChunkCells, Span, U16, U32, ChunkBlocks, ChunkType, ChunkTotal;
      ghost var c, p := todo[0], pos;
      BigChunkWindow(data[..], todo);
      BigChunkPending(file, pos, todo, data.Length - D_AT);
      if U16(data[..], D_AT) != CHUNK_TYPE_RAW
         || |file| - pos < U32(data[..], D_AT + 8) - (data.Length - D_AT)
      {
        return Stop(Corrupted);
      }
      var ok := FlashBigChunk(c, blkCount);
      if !ok {
        return Stop(Fault);
      }
      AfterBigChunk(file, p, pos, todo, data.Length - D_AT);
      r := Go;
    }

    /** The first half of a turn of installer_split_and_flash: fill the buffer and count its complete chunks. */
    method LoadTurn(nbChunks: nat, blkCount: u32, readPtr: nat, ghost todo: seq<seq<byte>>)
      returns (ok: bool, end: nat, ckh: nat, nb: nat, blks: u32, ghost m: nat)
      requires |file| >= HEADER_SZ && data.Length < TWO_32 && ValidChunks(todo, BlockSize(file))
      requires nbChunks == |todo| && blkCount + Blocks(todo) < TWO_32
      requires Ready(data[..], file, pos, readPtr, todo)
      modifies `pos, `nbReads, data
      ensures flashed == old(flashed) && done == old(done)
      ensures !ok ==> !readOk(old(nbReads))
      ensures ok ==> Loaded(data[..], file, pos, end, todo)
      ensures ok ==> nb + m == nbChunks && ckh == D_AT + |Flatten(todo[..m])| <= end
      ensures ok ==> blks == blkCount + Blocks(todo[..m]) && 1 + m < TWO_32
      ensures ok ==> Head(data[..], file, blks, 1 + m, blkCount)
      ensures ok ==> m == |todo| || end < ckh + |todo[m]|
    {
      hide Front, Head, Pending, Blocks, Flatten, U32, Framed, ValidChunk;
      end, ckh, nb, blks, m := readPtr, D_AT, nbChunks, blkCount, 0;
      ghost var d := data[..];
      StartImage(blkCount);
      WindowKept(d, data[..], readPtr, todo);
      var readSize: nat := data.Length - readPtr;
      if |file| - pos < readSize {
        readSize := |file| - pos;
      }
      end := readPtr + readSize;
      ok := FillBuffer(readPtr, readSize, end, todo, blkCount, 1, blkCount);
      if ok {
        d := data[..];
        ckh, nb, blks, m := ScanChunks(end, nbChunks, blkCount, todo);
        WindowKept(d, data[..], end, todo);
      }
    }

    /** The second half of a turn, when complete chunks were found: flash them and keep the rest. */
    method SmallTurn(ckh: nat, end: nat, blkCount: u32, blks: u32, ghost todo: seq<seq<byte>>, ghost m: nat)
      returns (ok: bool, readPtr: nat)
      requires SparseHeader(file) && ValidChunks(todo, BlockSize(file)) && 0 < m <= |todo| && 1 + m < TWO_32
      requires Loaded(data[..], file, pos, end, todo) && ckh == D_AT + |Flatten(todo[..m])| <= end
      requires m == |todo| || end < ckh + |todo[m]|
      requires blks == blkCount + Blocks(todo[..m]) && Head(data[..], file, blks, 1 + m, blkCount)
      requires Sound(flashed, done, file, data.Length) && |done| == Span(blkCount, BlockSize(file))
      modifies this, data
      ensures Sound(flashed, done, file, data.Length) && (!ok ==> done == old(done))
      ensures ok ==> done == old(done) + Cells(todo[..m], BlockSize(file))
      ensures ok ==> |done| == Span(blks, BlockSize(file)) && Ready(data[..], file, pos, readPtr, todo[m..])
      ensures !ok ==> exists n :: !flashOk(n)
    {
      hide Front, Head, Sound, Pending, Cells, Span, U32, Blocks;
      readPtr := D_AT;
      ok := FlashScanned(ckh, todo, m, end, blks, blkCount);
      if ok {
        readPtr := KeepRest(ckh, end, todo, m, blks, 1 + m, blkCount);
        PendingRest(file, pos, todo, m, end - D_AT, end - ckh);
      }
    }

    /** One turn of the loop of installer_split_and_flash. */
    method NextImage(nbChunks: nat, blkCount: u32, readPtr: nat, ghost todo: seq<seq<byte>>)
      returns (r: Turn, nb: nat, blks: u32, ptr: nat, ghost m: nat)
      requires SparseHeader(file) && 0 < BlockSize(file) <= data.Length - CKH_DATA_AT && data.Length < TWO_32
      requires ValidChunks(todo, BlockSize(file)) && todo != [] && nbChunks == |todo|
      requires blkCount + Blocks(todo) < TWO_32 && Ready(data[..], file, pos, readPtr, todo)
      requires Sound(flashed, done, file, data.Length) && |done| == Span(blkCount, BlockSize(file))
      modifies this, data
      ensures Sound(flashed, done, file, data.Length) && old(done) <= done && m <= |todo|
      ensures done <= old(done) + Cells(todo[..m], BlockSize(file))
      ensures r == Go ==> 0 < m && nb + m == nbChunks && blks == blkCount + Blocks(todo[..m])
      ensures r == Go ==> done == old(done) + Cells(todo[..m], BlockSize(file)) && |done| == Span(blks, BlockSize(file))
      ensures r == Go ==> Ready(data[..], file, pos, ptr, todo[m..]) && Fit(todo[..m], data.Length - D_AT)
      ensures r == Stop(Corrupted) ==> !Fits(todo[0], data.Length - D_AT)
      ensures r == Stop(Fault) ==> exists n :: !readOk(n) || !flashOk(n)
      ensures r == Go || r == Stop(Corrupted) || r == Stop(Fault)
    {
      hide Head, Sound, Span, Cells, U16, U32, Blocks, Pending;
      var ok, end, ckh;
      ok, end, ckh, nb, blks, m := LoadTurn(nbChunks, blkCount, readPtr, todo);
      ptr := D_AT;
      if !ok {
        m := 0;
        return Stop(Fault), nb, blks, ptr, m;
      }
      FlattenLength(todo[..m]);
      if ckh == D_AT {
        WholeWindow(data[..], file, pos, end, todo);
        FirstOfMany(todo, BlockSize(file));
        HeaderInWindow(data[..], end, todo, 0);
        blks := blkCount + U32(data[..], D_AT + 4);
        nb := nbChunks - 1;
        m := 1;
        r := BigTurn(blkCount, todo);
        Distribute(blkCount, ChunkBlocks(todo[0]), blks, BlockSize(file));
        ChunkCellsLength(todo[0], BlockSize(file));
      } else {
        PartsFit(todo[..m], data.Length - D_AT);
        ok, ptr := SmallTurn(ckh, end, blkCount, blks, todo, m);
        r := if ok then Go else Stop(Fault);
      }
    }

    /** New sparse header and skip chunk at the front of the buffer. */
    method InitBuffer()
      requires |file| >= HEADER_SZ && data.Length >= D_AT
      modifies data
      ensures Front(data[..], file)
    {
      ghost var d := data[..];
      var h := file[..HEADER_SZ];
      Put(0, h);
      SpliceAt(d, 0, h, 0, 0);
      assert data[..][..16] == data[..][0..HEADER_SZ][..16] == file[..16];
      var x := LE16(CHUNK_TYPE_DONT_CARE);
      EncodedFields(CHUNK_TYPE_DONT_CARE);
      d := data[..];
      Put(SKIP_AT, x);
      SpliceAt(d, SKIP_AT, x, 0, 16);
      FieldsOfSplice(d, SKIP_AT, x, 28);
      d := data[..];
      ghost var y := PutU32(SKIP_AT + 8, CHUNK_SZ);
      SpliceAt(d, SKIP_AT + 8, y, 0, 16);
      FieldsOfSplice(d, SKIP_AT + 8, y, 28);
      FieldsOfSplice(d, SKIP_AT + 8, y, 36);
    }

    /** The loop of installer_split_and_flash over the chunks of the file. */
    method SplitChunks() returns (r: Outcome)
      requires WellFormed(file) && 0 < BlockSize(file) <= data.Length - CKH_DATA_AT && data.Length < TWO_32
      requires Ready(data[..], file, pos, D_AT, ImageChunks(file))
      requires Sound(flashed, done, file, data.Length) && done == []
      modifies this, data
      ensures Sound(flashed, done, file, data.Length) && done <= ImageCells(file)
      ensures r == Done ==> done == ImageCells(file) && Fit(ImageChunks(file), data.Length - D_AT)
      ensures r == Corrupted ==> !Fit(ImageChunks(file), data.Length - D_AT)
      ensures r == Fault ==> exists n :: !readOk(n) || !flashOk(n)
      ensures r == Done || r == Corrupted || r == Fault
    {
      hide Front, Head, Sound, Span, Pending, Window, U16, U32, Blocks, Split, Cells;
      ghost var cs, blkSz := ImageChunks(file), BlockSize(file);
      ghost var k: nat, todo := 0, cs;
      var nbChunks: nat, readPtr: nat, blkCount: u32 := TotalChunks(file), D_AT, 0;
      NoChunks(cs, blkSz);
      while nbChunks > 0 && |file| - pos > 0
        invariant k <= |cs| && todo == cs[k..] && nbChunks == |todo|
        invariant Ready(data[..], file, pos, readPtr, todo)
        invariant Sound(flashed, done, file, data.Length) && done == Cells(cs[..k], blkSz)
        invariant blkCount == Blocks(cs[..k]) && |done| == Span(blkCount, blkSz) && Fit(cs[..k], data.Length - D_AT)
        decreases nbChunks
      {
        BlocksSplit(cs, k, blkSz);
        var turn;
        ghost var m;
        turn, nbChunks, blkCount, readPtr, m := NextImage(nbChunks, blkCount, readPtr, todo);
        ghost var next := k + m;
        ListStep(cs, k, m, next, blkSz);
        if turn != Go {
          return turn.outcome;
        }
        FitStep(cs, k, m, next, data.Length - D_AT);
        k, todo := next, cs[next..];
      }
      NothingLeft(data[..], file, pos, readPtr, todo);
      assert cs[..k] == cs;
      r := Done;
    }

    /** installer_split_and_flash: whatever the reads and flashes do, the flashed buffers are well-formed
        images that fit the download buffer and write a prefix of what the file writes; unless one of them
        fails, they write all of it, exactly when every chunk that is not RAW fits the buffer. */
    method SplitAndFlash() returns (r: Outcome)
      requires pos == 0 && flashed == [] && done == [] && Sound(flashed, done, file, data.Length)
      requires data.Length < TWO_32
      requires |file| >= HEADER_SZ && IsSparseImage(file) ==>
        WellFormed(file) && 0 < BlockSize(file) <= data.Length - CKH_DATA_AT
      modifies this, data
      ensures Sound(flashed, done, file, data.Length)
      ensures r == NotSparse <==> |file| >= HEADER_SZ && readOk(old(nbReads)) && !IsSparseImage(file)
      ensures r == Done || r == Corrupted ==> WellFormed(file)
      ensures r == Done ==> done == ImageCells(file) && Fit(ImageChunks(file), data.Length - D_AT)
      ensures r == Done ==> forall disk: seq<byte> :: |disk| >= |ImageCells(file)| ==>
        FlashAll(flashed, disk) == FlashSparse(file, disk)
      ensures r == Corrupted ==> done <= ImageCells(file) && !Fit(ImageChunks(file), data.Length - D_AT)
      ensures r == Fault && WellFormed(file) ==> done <= ImageCells(file)
      ensures r == Fault ==> |file| < HEADER_SZ || exists n :: !readOk(n) || !flashOk(n)
    {
      hide Front, Sound, Span, Pending, Window, WellFormed, IsSparseImage, U16, U32, Blocks, Split, Cells;
      var ok := readOk(nbReads) && |file| >= HEADER_SZ;
      nbReads := nbReads + 1;
      if !ok {
        return Fault;
      }
      pos := HEADER_SZ;
      if !IsSparseImage(file) {
        return NotSparse;
      }
      InitBuffer();
      StartReady(data[..], file);
      r := SplitChunks();
      if r == Done {
        SameDisk(flashed, file, data.Length);
      }
    }
  }
}
