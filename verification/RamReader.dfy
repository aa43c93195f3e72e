/** The "ram" reader (libadb/reader.c): a memory range streamed as an Android sparse image. */
module RamReader {
  import opened Bytes
  import opened SparseFormat
  import opened MemoryMap
  import opened MemoryStream

  const MAX_CHUNK_SIZE: int := 0xFFFF_F000

  /** The fields of a chunk_header. */
  datatype Chunk = Chunk(kind: u16, blocks: u32, total: u32)

  /** A stretch of the dumped range, before it is cut into chunks. */
  datatype Extent = Extent(raw: bool, size: nat)

  function Kind(raw: bool): u16 {
    if raw then CHUNK_TYPE_RAW else CHUNK_TYPE_DONT_CARE
  }

  /** The chunk header of a stretch, with the 32-bit truncations of its fields. */
  function ChunkOf(e: Extent): Chunk {
    Chunk(Kind(e.raw), e.size / 4096 % 0x1_0000_0000, if e.raw then (CHUNK_SZ + e.size) % 0x1_0000_0000 else CHUNK_SZ)
  }

  /** A RAW stretch is cut into pieces whose total size fits 32 bits. */
  function Pieces(e: Extent): seq<Extent>
    decreases e.size
  {
    if e.raw && e.size >= 0x1_0000_0000
    then [Extent(true, MAX_CHUNK_SIZE)] + Pieces(Extent(true, e.size - MAX_CHUNK_SIZE))
    else [e]
  }

  function ChunksOf(es: seq<Extent>): seq<Chunk> {
    seq(|es|, i requires 0 <= i < |es| => ChunkOf(es[i]))
  }

  /** Bytes that a list of stretches takes in the stream. */
  function StreamSize(es: seq<Extent>): nat {
    if es == [] then 0 else CHUNK_SZ + (if es[0].raw then es[0].size else 0) + StreamSize(es[1..])
  }

  function BlockCount(es: seq<Extent>): nat {
    if es == [] then 0 else es[0].size / 4096 % 0x1_0000_0000 + BlockCount(es[1..])
  }

  /** Whether each byte of the stretches is dumped. */
  function Raw(es: seq<Extent>): seq<bool> {
    if es == [] then [] else Same(es[0].raw, es[0].size) + Raw(es[1..])
  }

  predicate PageMultiples(es: seq<Extent>) {
    forall i :: 0 <= i < |es| ==> es[i].size % 4096 == 0
  }

  // ----- the 32-bit overflow splitter

  /** The test of ram_add_chunk is the overflow of the 32-bit total_sz field. */
  lemma OverflowTest(size: nat)
    requires size % 4096 == 0
    ensures (size + CHUNK_SZ) % 0x1_0000_0000 <= size <==> size + CHUNK_SZ >= 0x1_0000_0000
    ensures size + CHUNK_SZ >= 0x1_0000_0000 <==> size >= 0x1_0000_0000
  {
  }

  lemma PiecesSome(e: Extent)
    ensures Pieces(e) != []
  {
  }

  lemma PieceOfHole(n: nat)
    ensures Pieces(Extent(false, n)) == [Extent(false, n)]
  {
  }

  lemma SomeSize(es: seq<Extent>)
    ensures StreamSize(es) == 0 <==> es == []
  {
  }

  /** The pieces of a stretch cover it exactly. */
  lemma {:induction false} PiecesCover(e: Extent)
    ensures Raw(Pieces(e)) == Same(e.raw, e.size)
    decreases e.size
  {
    if e.raw && e.size >= 0x1_0000_0000 {
      var rest := Extent(true, e.size - MAX_CHUNK_SIZE);
      PiecesCover(rest);
      assert Pieces(e)[1..] == Pieces(rest);
      assert Same(true, MAX_CHUNK_SIZE) + Same(true, rest.size) == Same(true, e.size);
    } else {
      assert [e][1..] == [];
      assert Same(e.raw, e.size) + [] == Same(e.raw, e.size);
    }
  }

  /** A chunk header whose fields were not truncated. */
  predicate Exact(e: Extent) {
    && e.size % 4096 == 0 && ChunkOf(e).blocks * 4096 == e.size
    && (e.raw ==> ChunkOf(e).total == CHUNK_SZ + e.size)
  }

  lemma SmallExact(e: Extent)
    requires e.size % 4096 == 0 && e.size < 0x1_0000_0000
    ensures Exact(e)
  {
    assert e.size / 4096 * 4096 == e.size && e.size + CHUNK_SZ < 0x1_0000_0000;
  }

  /** Every piece of a RAW stretch fits its 32-bit fields. */
  lemma {:induction false} PiecesExact(e: Extent)
    requires e.raw && e.size % 4096 == 0
    ensures forall i :: 0 <= i < |Pieces(e)| ==> Pieces(e)[i].raw && Exact(Pieces(e)[i])
    decreases e.size
  {
    hide Exact;
    if e.size >= 0x1_0000_0000 {
      SmallExact(Extent(true, MAX_CHUNK_SIZE));
      PiecesExact(Extent(true, e.size - MAX_CHUNK_SIZE));
    } else {
      SmallExact(e);
    }
  }

  lemma {:induction false} Appended(a: seq<Extent>, b: seq<Extent>)
    ensures ChunksOf(a + b) == ChunksOf(a) + ChunksOf(b)
    ensures StreamSize(a + b) == StreamSize(a) + StreamSize(b)
    ensures BlockCount(a + b) == BlockCount(a) + BlockCount(b)
    ensures Raw(a + b) == Raw(a) + Raw(b)
  {
    if a == [] {
      assert a + b == b;
    } else {
      assert (a + b)[1..] == a[1..] + b;
      Appended(a[1..], b);
    }
  }

  lemma WrapAdd(a: nat, b: nat)
    ensures (a % 0x1_0000_0000 + b) % 0x1_0000_0000 == (a + b) % 0x1_0000_0000
  {
  }

  lemma One(e: Extent)
    ensures ChunksOf([e]) == [ChunkOf(e)] && BlockCount([e]) == ChunkOf(e).blocks
    ensures StreamSize([e]) == CHUNK_SZ + (if e.raw then e.size else 0)
  {
    assert [e][1..] == [];
  }

  // ----- the stretches of a range

  /** Where the region before region `i` ends. */
  function PrevEnd(regions: seq<Region>, i: nat): nat
    requires i <= |regions|
  {
    if i == 0 then 0 else regions[i - 1].End()
  }

  /** The length of the hole in front of a region, in the 64-bit arithmetic of ram_build_chunks. */
  function HoleLength(prevEnd: nat, r: Region, start: nat, end: nat): u64 {
    var l := r.start - prevEnd;
    var m := if prevEnd < start < r.start then l - (start - prevEnd) else l;
    (if end != 0 && r.start > end then m - (r.start - end) else m) % 0x1_0000_0000_0000_0000
  }

  /** The length of the part of a region, in the same arithmetic. */
  function PartLength(r: Region, start: nat, end: nat): u64 {
    var l := r.End() - r.start;
    var m := if r.start < start < r.End() then l - (start - r.start) else l;
    (if end != 0 && end < r.End() then m - (r.End() - end) else m) % 0x1_0000_0000_0000_0000
  }

  /** The stretches that region `i` adds: the hole in front of it and its part of the range. */
  function Turn(regions: seq<Region>, start: nat, end: nat, i: nat): seq<Extent>
    requires i < |regions|
  {
    var r, prevEnd := regions[i], PrevEnd(regions, i);
    var hole := Extent(false, HoleLength(prevEnd, r, start, end));
    var part := Extent(r.conventional, PartLength(r, start, end));
    if r.End() <= start then []
    else if prevEnd == r.start then Pieces(part)
    else if end != 0 && end < r.start then [hole]
    else [hole] + Pieces(part)
  }

  /** Region `i` reaches past `start` and up to `end`. */
  predicate Stops(regions: seq<Region>, start: nat, end: nat, i: nat)
    requires i < |regions|
  {
    start < regions[i].End() && end != 0 && end <= regions[i].End()
  }

  predicate Stopped(regions: seq<Region>, start: nat, end: nat, n: nat)
    requires n <= |regions|
  {
    exists j :: 0 <= j < n && Stops(regions, start, end, j)
  }

  /** The stretches of the first `n` regions, as far as `end`. */
  function Layout(regions: seq<Region>, start: nat, end: nat, n: nat): seq<Extent>
    requires n <= |regions|
  {
    if n == 0 then []
    else Layout(regions, start, end, n - 1)
         + if Stopped(regions, start, end, n - 1) then [] else Turn(regions, start, end, n - 1)
  }

  /** The stretches of a range of a memory map. */
  function Stretches(regions: seq<Region>, start: nat, end: nat): seq<Extent> {
    Layout(regions, start, end, |regions|)
  }

  /** Nothing is added after the region that reaches `end`. */
  lemma {:induction false} LayoutStops(regions: seq<Region>, start: nat, end: nat, n: nat)
    requires n <= |regions|
    ensures Layout(regions, start, end, n) <= Stretches(regions, start, end)
    ensures Stopped(regions, start, end, n) ==> Layout(regions, start, end, n) == Stretches(regions, start, end)
    decreases |regions| - n
  {
    hide Turn, Stops;
    if n < |regions| {
      LayoutStops(regions, start, end, n + 1);
      var x, y := Layout(regions, start, end, n), Layout(regions, start, end, n + 1);
      assert x <= y;
      if Stopped(regions, start, end, n) {
        var j :| 0 <= j < n && Stops(regions, start, end, j);
        assert Stopped(regions, start, end, n + 1);
        assert x + [] == x;
      }
    }
  }

  /** Some region reaches past `start`, and up to `end` when there is one. */
  predicate Reachable(regions: seq<Region>, start: nat, end: nat) {
    exists i :: 0 <= i < |regions| && start < regions[i].End() && (end == 0 || end <= regions[i].End())
  }

  predicate Aligned(regions: seq<Region>, start: nat, end: nat) {
    start % 4096 == 0 && end % 4096 == 0 && PageMap(regions)
  }

  predicate PageMap(regions: seq<Region>) {
    forall i :: 0 <= i < |regions| ==> regions[i].start % 4096 == 0
  }

  /** Between page boundaries all lengths are whole pages. */
  lemma TurnAligned(regions: seq<Region>, start: nat, end: nat, i: nat)
    requires i < |regions| && Aligned(regions, start, end)
    ensures HoleLength(PrevEnd(regions, i), regions[i], start, end) % 4096 == 0
    ensures PartLength(regions[i], start, end) % 4096 == 0
  {
    var r, prevEnd := regions[i], PrevEnd(regions, i);
    PageEnd(r);
    if i > 0 {
      PageEnd(regions[i - 1]);
    }
    hide Aligned;
    WholePages(r.start, prevEnd, start, end);
    WholePages(r.End(), r.start, start, end);
  }

  lemma PageEnd(r: Region)
    requires r.start % 4096 == 0
    ensures r.End() % 4096 == 0
  {
  }

  /** What is left of a stretch from `lo` to `hi` after either cut, wrapped to 64 bits, is whole pages. */
  lemma WholePages(hi: nat, lo: nat, start: nat, end: nat)
    requires hi % 4096 == 0 && lo % 4096 == 0 && start % 4096 == 0 && end % 4096 == 0
    ensures (hi - lo) % 0x1_0000_0000_0000_0000 % 4096 == 0
    ensures (hi - lo - (start - lo)) % 0x1_0000_0000_0000_0000 % 4096 == 0
    ensures (hi - lo - (hi - end)) % 0x1_0000_0000_0000_0000 % 4096 == 0
    ensures (hi - lo - (start - lo) - (hi - end)) % 0x1_0000_0000_0000_0000 % 4096 == 0
  {
    var h, l, b, e := hi / 4096, lo / 4096, start / 4096, end / 4096;
    assert hi == 4096 * h && lo == 4096 * l && start == 4096 * b && end == 4096 * e;
    WrapPages(h - l);
    WrapPages(h - b);
    WrapPages(e - l);
    WrapPages(e - b);
  }

  lemma WrapPages(pages: int)
    ensures 4096 * pages % 0x1_0000_0000_0000_0000 % 4096 == 0
  {
    var q := 4096 * pages / 0x1_0000_0000_0000_0000;
    var rest := pages - 0x10_0000_0000_0000 * q;
    assert 4096 * pages % 0x1_0000_0000_0000_0000 == 4096 * rest;
  }

  // ----- which range they cover

  /** The firmware map leaves a hole just before the region where the range starts: the one case in which
      ram_build_chunks adds that hole to the image although it lies before the range. */
  function StrayGap(regions: seq<Region>, start: nat): nat {
    StrayGapFrom(regions, start, 0)
  }

  function StrayGapFrom(regions: seq<Region>, start: nat, i: nat): nat
    decreases |regions| - i
  {
    if i >= |regions| then 0
    else if regions[i].End() <= start then StrayGapFrom(regions, start, i + 1)
    else
      var prevEnd := PrevEnd(regions, i);
      if regions[i].start <= start && prevEnd < regions[i].start then regions[i].start - prevEnd else 0
  }

  /** `to` cut off at `start` from below and at `end`, when there is one, from above. */
  function Clip(start: nat, to: nat, end: nat): nat {
    if to <= start then start else if end != 0 && end < to then end else to
  }

  /** `raw` tells which bytes of [start, to) are dumped, after a stray gap. */
  ghost predicate Covers(raw: seq<bool>, regions: seq<Region>, start: nat, to: nat) {
    start <= to && raw == Same(false, StrayGap(regions, start)) + Usable(regions, start, to)
  }

  /** Before region `i`: nothing kept yet, or everything up to `prevEnd`. */
  ghost predicate Reached(raw: seq<bool>, begun: bool, regions: seq<Region>, start: nat, prevEnd: nat, i: nat) {
    if begun then start < prevEnd && Covers(raw, regions, start, prevEnd)
    else raw == [] && prevEnd <= start && StrayGap(regions, start) == StrayGapFrom(regions, start, i)
  }

  /** In a range that did not wrap, a hole is what lies in the range, or a stray gap. */
  lemma HoleIs(prevEnd: nat, r: Region, start: nat, end: nat)
    requires prevEnd < r.start <= r.End() <= ADDRESS_LIMIT && start < r.End()
    requires end == 0 || (start <= end && (prevEnd < end || prevEnd <= start))
    ensures var to := Clip(start, r.start, end);
            HoleLength(prevEnd, r, start, end)
            == if r.start <= start then r.start - prevEnd else to - if prevEnd < start then start else prevEnd
  {
  }

  lemma HoleCovers(raw: seq<bool>, begun: bool, regions: seq<Region>, start: nat, end: nat, prevEnd: nat, i: nat,
                   length: nat)
    requires Sorted(regions) && i < |regions| && start < regions[i].End()
    requires prevEnd == PrevEnd(regions, i) < regions[i].start
    requires end == 0 || (start <= end && (prevEnd < end || prevEnd <= start))
    requires Reached(raw, begun, regions, start, prevEnd, i) && length == HoleLength(prevEnd, regions[i], start, end)
    ensures Covers(raw + Same(false, length), regions, start, Clip(start, regions[i].start, end))
  {
    var to := Clip(start, regions[i].start, end);
    HoleIs(prevEnd, regions[i], start, end);
    hide HoleLength;
    if begun {
      UsableGap(regions, i, prevEnd, to);
      UsableSplit(regions, start, prevEnd, to);
    } else if start < regions[i].start {
      UsableGap(regions, i, start, to);
    }
  }

  lemma NoHoleCovers(raw: seq<bool>, begun: bool, regions: seq<Region>, start: nat, end: nat, prevEnd: nat, i: nat)
    requires i < |regions| && start < regions[i].End() && (begun ==> end == 0 || prevEnd < end)
    requires prevEnd == PrevEnd(regions, i) == regions[i].start
    requires Reached(raw, begun, regions, start, prevEnd, i)
    ensures Covers(raw, regions, start, Clip(start, regions[i].start, end))
  {
  }

  /** In a range that did not wrap, a part is what lies in the range. */
  lemma PartIs(r: Region, start: nat, end: nat)
    requires start < r.End() <= ADDRESS_LIMIT && (end == 0 || (start <= end && r.start <= end))
    ensures Clip(start, r.start, end) + PartLength(r, start, end) == Clip(start, r.End(), end)
    ensures r.start <= Clip(start, r.start, end) <= Clip(start, r.End(), end) <= r.End()
  {
  }

  lemma EntryCovers(raw: seq<bool>, regions: seq<Region>, start: nat, end: nat, i: nat, length: nat)
    requires Sorted(regions) && Disjoint(regions) && i < |regions| && start < regions[i].End()
    requires end == 0 || (start <= end && regions[i].start <= end)
    requires Covers(raw, regions, start, Clip(start, regions[i].start, end))
             && length == PartLength(regions[i], start, end)
    ensures Covers(raw + Same(regions[i].conventional, length), regions, start, Clip(start, regions[i].End(), end))
  {
    var lo, hi := Clip(start, regions[i].start, end), Clip(start, regions[i].End(), end);
    PartIs(regions[i], start, end);
    hide PartLength;
    UsableInside(regions, i, lo, hi);
    UsableSplit(regions, start, lo, hi);
  }

  /** One region more of the range is covered. */
  lemma TurnCovers(es: seq<Extent>, regions: seq<Region>, start: nat, end: nat, i: nat)
    requires Sorted(regions) && Disjoint(regions) && i < |regions| && start < regions[i].End()
    requires end == 0 || (start <= end && (PrevEnd(regions, i) < end || PrevEnd(regions, i) <= start))
    requires es != [] ==> end == 0 || PrevEnd(regions, i) < end
    requires Reached(Raw(es), es != [], regions, start, PrevEnd(regions, i), i)
    ensures Covers(Raw(es + Turn(regions, start, end, i)), regions, start, Clip(start, regions[i].End(), end))
    ensures Turn(regions, start, end, i) != []
  {
    PiecesSome(Extent(regions[i].conventional, PartLength(regions[i], start, end)));
    hide Raw, Covers, HoleLength, PartLength, Pieces, Reached;
    var r, prevEnd := regions[i], PrevEnd(regions, i);
    assert prevEnd <= r.start;
    var n, m := HoleLength(prevEnd, r, start, end), PartLength(r, start, end);
    var hole, part := Extent(false, n), Extent(r.conventional, m);
    PiecesCover(part);
    var cs := es;
    if prevEnd != r.start {
      HoleCovers(Raw(es), es != [], regions, start, end, prevEnd, i, n);
      OnePiece(n);
      Appended(es, [hole]);
      cs := es + [hole];
      if end != 0 && end < r.start {
        return;
      }
      Associate(es, [hole], Pieces(part));
    } else {
      NoHoleCovers(Raw(es), es != [], regions, start, end, prevEnd, i);
    }
    EntryCovers(Raw(cs), regions, start, end, i, m);
    Appended(cs, Pieces(part));
  }

  lemma OnePiece(n: nat)
    ensures Raw([Extent(false, n)]) == Same(false, n)
  {
    PiecesCover(Extent(false, n));
  }

  /** The stretches of the first `n` regions, none of which reached `end`. */
  lemma {:induction false} LayoutReached(regions: seq<Region>, start: nat, end: nat, n: nat)
    requires Sorted(regions) && Disjoint(regions) && n <= |regions| && (end == 0 || start <= end)
    requires !Stopped(regions, start, end, n)
    ensures var es := Layout(regions, start, end, n);
            && Reached(Raw(es), es != [], regions, start, PrevEnd(regions, n), n)
            && (es != [] ==> end == 0 || PrevEnd(regions, n) < end)
  {
    RawNothing();
    hide Raw, Turn, Covers;
    if n > 0 {
      var i := n - 1;
      assert forall j :: 0 <= j < i ==> !Stops(regions, start, end, j);
      LayoutReached(regions, start, end, i);
      var es := Layout(regions, start, end, i);
      assert !Stops(regions, start, end, i);
      assert Layout(regions, start, end, n) == es + Turn(regions, start, end, i);
      if start < regions[i].End() {
        TurnCovers(es, regions, start, end, i);
        assert Clip(start, regions[i].End(), end) == regions[i].End();
      } else {
        SkippedTurn(regions, start, end, i);
        assert es + [] == es;
      }
    }
  }

  lemma NoLayout(regions: seq<Region>, start: nat, end: nat)
    ensures Layout(regions, start, end, 0) == [] && !Stopped(regions, start, end, 0)
  {
  }

  lemma LayoutStep(regions: seq<Region>, start: nat, end: nat, i: nat)
    requires i < |regions| && !Stopped(regions, start, end, i)
    ensures Layout(regions, start, end, i + 1) == Layout(regions, start, end, i) + Turn(regions, start, end, i)
    ensures Stopped(regions, start, end, i + 1) <==> Stops(regions, start, end, i)
    ensures Stops(regions, start, end, i) ==> Stopped(regions, start, end, |regions|)
  {
  }

  /** A range is reachable exactly when its end is reached or, without an end, when it has some stretch. */
  lemma Reaches(regions: seq<Region>, start: nat, end: nat)
    ensures end != 0 ==> (Stopped(regions, start, end, |regions|) <==> Reachable(regions, start, end))
    ensures end == 0 ==> !Stopped(regions, start, end, |regions|)
    ensures end == 0 ==> (Stretches(regions, start, end) != [] <==> Reachable(regions, start, end))
    ensures Stretches(regions, start, end) == [] ==> !Reachable(regions, start, end)
  {
    hide Turn;
    if end != 0 {
      NotReached(regions, start, end);
    }
    if i :| 0 <= i < |regions| && start < regions[i].End() && (end == 0 || end <= regions[i].End()) {
      if end == 0 {
        SomeStretch(regions, start, end, i);
      } else {
        var j := FirstStop(regions, start, end);
        LayoutStep(regions, start, end, j);
        LayoutStops(regions, start, end, j + 1);
        KeptTurn(regions, start, end, j);
      }
    } else if end == 0 {
      NothingKept(regions, start, end, |regions|);
    }
  }

  lemma KeptTurn(regions: seq<Region>, start: nat, end: nat, i: nat)
    requires i < |regions| && start < regions[i].End()
    ensures Turn(regions, start, end, i) != []
  {
    PiecesSome(Extent(regions[i].conventional, PartLength(regions[i], start, end)));
  }

  lemma {:induction false} NothingKept(regions: seq<Region>, start: nat, end: nat, n: nat)
    requires n <= |regions| && forall i :: 0 <= i < |regions| ==> regions[i].End() <= start
    ensures Layout(regions, start, end, n) == []
  {
    if n > 0 {
      NothingKept(regions, start, end, n - 1);
    }
  }

  lemma NotReached(regions: seq<Region>, start: nat, end: nat)
    requires end != 0
    ensures Stopped(regions, start, end, |regions|) <==> Reachable(regions, start, end)
  {
    if i :| 0 <= i < |regions| && start < regions[i].End() && end <= regions[i].End() {
      assert Stops(regions, start, end, i);
    }
  }

  lemma RawNothing()
    ensures Raw([]) == []
  {
  }

  lemma SkippedTurn(regions: seq<Region>, start: nat, end: nat, i: nat)
    requires i < |regions| && regions[i].End() <= start
    ensures Turn(regions, start, end, i) == [] && !Stops(regions, start, end, i)
  {
  }

  /** Where a dump ends: at `end`, or with the map. */
  function EndOf(regions: seq<Region>, end: nat): nat {
    if end == 0 then PrevEnd(regions, |regions|) else end
  }

  /** The stretches of a range that some region reaches are the bytes of the range, after a stray gap. */
  lemma StretchesCover(regions: seq<Region>, start: nat, end: nat)
    requires Sorted(regions) && Disjoint(regions) && (end == 0 || start <= end) && Reachable(regions, start, end)
    ensures Covers(Raw(Stretches(regions, start, end)), regions, start, EndOf(regions, end))
  {
    hide Raw, Turn, Covers;
    if end == 0 {
      LayoutReached(regions, start, end, |regions|);
      var i :| 0 <= i < |regions| && start < regions[i].End();
      SomeStretch(regions, start, end, i);
    } else {
      var i := FirstStop(regions, start, end);
      LayoutReached(regions, start, end, i);
      LayoutStops(regions, start, end, i + 1);
      assert Stopped(regions, start, end, i + 1) by {
        assert Stops(regions, start, end, i);
      }
      TurnCovers(Layout(regions, start, end, i), regions, start, end, i);
    }
  }

  lemma FirstStop(regions: seq<Region>, start: nat, end: nat) returns (i: nat)
    requires Reachable(regions, start, end) && end != 0
    ensures i < |regions| && Stops(regions, start, end, i) && !Stopped(regions, start, end, i)
  {
    i := 0;
    var last :| 0 <= last < |regions| && start < regions[last].End() && end <= regions[last].End();
    assert Stops(regions, start, end, last);
    while !Stops(regions, start, end, i)
      invariant i <= last && !Stopped(regions, start, end, i)
      decreases last - i
    {
      i := i + 1;
    }
  }

  lemma {:induction false} SomeStretch(regions: seq<Region>, start: nat, end: nat, i: nat)
    requires i < |regions| && start < regions[i].End() && end == 0
    ensures Stretches(regions, start, end) != []
  {
    LayoutStops(regions, start, end, i + 1);
    assert Turn(regions, start, end, i) != [] && !Stopped(regions, start, end, i);
  }

  lemma {:induction false} PiecesMany(e: Extent, k: nat)
    requires e.raw && e.size >= 0x1_0000_0000 * k
    ensures |Pieces(e)| > k
    decreases k
  {
    if k == 0 {
      PiecesSome(e);
    } else {
      PiecesMany(Extent(true, e.size - MAX_CHUNK_SIZE), k - 1);
    }
  }

  /** In a range that wrapped, the part of a region is almost the whole address space. */
  lemma WrappedPart(r: Region, start: nat, end: nat)
    requires start < r.End() <= ADDRESS_LIMIT && 0 < end < start && r.start <= start
    ensures PartLength(r, start, end) == 0x1_0000_0000_0000_0000 - (start - end)
  {
  }

  /** A range whose end wrapped below its start: what fits the chunk table dumps nothing, whatever the map. */
  lemma {:induction false} WrappedRange(regions: seq<Region>, start: nat, end: nat, n: nat)
    requires Sorted(regions) && Disjoint(regions) && 0 < end < start && n <= |regions|
    requires |Layout(regions, start, end, n)| <= MAX_REGIONS
    ensures forall e :: e in Layout(regions, start, end, n) ==> !e.raw
    ensures !Stopped(regions, start, end, n) ==> Layout(regions, start, end, n) == [] && PrevEnd(regions, n) <= start
  {
    hide HoleLength, PartLength, Pieces;
    if n > 0 {
      var i := n - 1;
      var r, prevEnd := regions[i], PrevEnd(regions, i);
      WrappedRange(regions, start, end, i);
      if !Stopped(regions, start, end, i) && start < r.End() {
        assert Stops(regions, start, end, i);
        if prevEnd == r.start || r.start <= end {
          WrappedPart(r, start, end);
          var part := Extent(r.conventional, PartLength(r, start, end));
          if part.raw {
            PiecesMany(part, MAX_REGIONS);
          } else {
            PieceOfHole(part.size);
          }
        }
      }
    }
  }

  // ----- the stream

  function ChunkBytes(c: Chunk): (s: seq<byte>)
    ensures |s| == CHUNK_SZ
  {
    LE16(c.kind) + LE16(0) + LE32(c.blocks) + LE32(c.total)
  }

  function HeaderBytes(totalBlks: u32, totalChunks: u32): (s: seq<byte>)
    ensures |s| == HEADER_SZ
  {
    LE32(SPARSE_HEADER_MAGIC) + LE16(1) + LE16(0) + LE16(HEADER_SZ) + LE16(CHUNK_SZ) + LE32(4096)
    + LE32(totalBlks) + LE32(totalChunks) + LE32(0)
  }

  /** How far ram_read moves through memory for a chunk: a 32-bit product. */
  function Step(c: Chunk): nat {
    c.blocks * 4096 % 0x1_0000_0000
  }

  /** What is sent for `chunks` when the cursor is at `addr`. */
  function Body(chunks: seq<Chunk>, addr: nat): seq<Item> {
    if chunks == [] then []
    else Lits(ChunkBytes(chunks[0]))
         + (if chunks[0].kind == CHUNK_TYPE_RAW then MemRange(addr, Step(chunks[0])) else [])
         + Body(chunks[1..], addr + Step(chunks[0]))
  }

  /** The whole file. */
  function Stream(totalBlks: u32, chunks: seq<Chunk>, start: nat): seq<Item>
    requires |chunks| < 0x1_0000_0000
  {
    Lits(HeaderBytes(totalBlks, |chunks|)) + Body(chunks, start)
  }

  /** A page multiple taken to blocks and back in 32 bits. */
  lemma StepOf(e: Extent)
    requires e.size % 4096 == 0
    ensures Step(ChunkOf(e)) == e.size % 0x1_0000_0000
  {
  }

  lemma {:induction false} BodySize(es: seq<Extent>, addr: nat)
    requires PageMultiples(es) && forall i :: 0 <= i < |es| && es[i].raw ==> es[i].size < 0x1_0000_0000
    ensures |Body(ChunksOf(es), addr)| == StreamSize(es)
  {
    hide ChunkBytes, MemRange, Lits, Step;
    if es != [] {
      assert ChunksOf(es)[1..] == ChunksOf(es[1..]);
      StepOf(es[0]);
      BodySize(es[1..], addr + Step(ChunkOf(es[0])));
    }
  }

  /** What is left of `file` at `at`: the rest of the current chunk, then the chunks from `k` on. */
  ghost predicate Left(file: seq<Item>, at: nat, cur: nat, curEnd: nat, chunks: seq<Chunk>, k: nat) {
    && at <= |file| && cur <= curEnd && k <= |chunks|
    && file[at..] == MemRange(cur, curEnd - cur) + Body(chunks[k..], curEnd)
  }

  lemma SendHeader(file: seq<Item>, totalBlks: u32, chunks: seq<Chunk>, start: nat)
    requires |chunks| < 0x1_0000_0000 && file == Stream(totalBlks, chunks, start)
    ensures HEADER_SZ <= |file| && file[0..HEADER_SZ] == Lits(HeaderBytes(totalBlks, |chunks|))
    ensures Left(file, HEADER_SZ, start, start, chunks, 0)
  {
    hide HeaderBytes, Body, Lits;
    assert file[0..] == file && chunks[0..] == chunks;
    TakeFront(file, 0, Lits(HeaderBytes(totalBlks, |chunks|)), Body(chunks, start), HEADER_SZ);
    assert MemRange(start, 0) + Body(chunks, start) == Body(chunks, start);
  }

  /** Sending a chunk header moves the cursor to the chunk. */
  lemma SendChunk(file: seq<Item>, at: nat, addr: nat, chunks: seq<Chunk>, k: nat, from: nat, end: nat)
    requires k < |chunks| && Left(file, at, addr, addr, chunks, k) && end == addr + Step(chunks[k])
    requires from == if chunks[k].kind == CHUNK_TYPE_RAW then addr else end
    ensures at + CHUNK_SZ <= |file| && file[at..at + CHUNK_SZ] == Lits(ChunkBytes(chunks[k]))
    ensures Left(file, at + CHUNK_SZ, from, end, chunks, k + 1)
  {
    hide Step, ChunkBytes, Lits;
    var rest := MemRange(from, end - from) + Body(chunks[k + 1..], end);
    assert chunks[k..][1..] == chunks[k + 1..] && chunks[k..][0] == chunks[k];
    assert file[at..] == Lits(ChunkBytes(chunks[k])) + rest;
    TakeFront(file, at, Lits(ChunkBytes(chunks[k])), rest, at + CHUNK_SZ);
  }

  lemma SendMemory(file: seq<Item>, at: nat, cur: nat, curEnd: nat, chunks: seq<Chunk>, k: nat, n: nat)
    requires Left(file, at, cur, curEnd, chunks, k) && cur + n <= curEnd
    ensures at + n <= |file| && file[at..at + n] == MemRange(cur, n)
    ensures Left(file, at + n, cur + n, curEnd, chunks, k)
  {
    hide Body;
    var rest := MemRange(cur + n, curEnd - (cur + n)) + Body(chunks[k..], curEnd);
    assert MemRange(cur, curEnd - cur) == MemRange(cur, n) + MemRange(cur + n, curEnd - (cur + n));
    assert file[at..] == MemRange(cur, n) + rest;
    TakeFront(file, at, MemRange(cur, n), rest, at + n);
  }

  /** At the end of the file all chunks have been sent. */
  lemma AllSent(file: seq<Item>, at: nat, cur: nat, curEnd: nat, chunks: seq<Chunk>, k: nat)
    requires Left(file, at, cur, curEnd, chunks, k)
    ensures cur <= curEnd && at <= |file| && (at == |file| ==> cur == curEnd && k == |chunks|)
    ensures at < |file| && cur == curEnd ==> k < |chunks| && at + CHUNK_SZ <= |file|
  {
    if k < |chunks| {
      assert |Body(chunks[k..], curEnd)| >= CHUNK_SZ;
    }
  }

  /** The reader's record: sparse header totals, chunk table, cursors, and the generic reader context. */
  class Ram {
    var start: nat
    var end: nat
    var chunks: seq<Chunk>
    var totalChunks: u32
    var totalBlks: u32
    var cur: nat
    var curEnd: nat
    var curChunk: nat
    var ctxLen: nat
    var ctxCur: nat
    ghost var extents: seq<Extent>

    /** The chunk table and the totals are those of `extents`. */
    ghost predicate Built()
      reads this
    {
      && chunks == ChunksOf(extents) && |chunks| <= MAX_REGIONS && PageMultiples(extents)
      && totalChunks == |chunks| && totalBlks == BlockCount(extents) % 0x1_0000_0000
      && forall i :: 0 <= i < |extents| && extents[i].raw ==> extents[i].size + CHUNK_SZ < 0x1_0000_0000
    }

    method AddChunk(raw: bool, size: nat) returns (r: Status)
      requires Built() && ctxLen == StreamSize(extents)
      modifies `chunks, `totalChunks, `totalBlks, `ctxLen, `extents
      ensures Built() && ctxLen == StreamSize(extents)
      ensures r == Success ==> size % 4096 == 0 && extents == old(extents) + Pieces(Extent(raw, size))
      ensures |extents| <= MAX_REGIONS && (r == InvalidParameter <==> size % 4096 != 0)
      ensures r == OutOfResources ==> |chunks| == MAX_REGIONS < |old(extents) + Pieces(Extent(raw, size))|
      decreases size
    {
      hide StreamSize, BlockCount, PageMultiples;
      if size % 4096 != 0 {
        return InvalidParameter;
      }
      var left: nat := size;
      ghost var all := old(extents) + Pieces(Extent(raw, size));
      if raw {
        while (left + CHUNK_SZ) % 0x1_0000_0000 <= left
          invariant left % 4096 == 0 && left <= size
          invariant Built() && ctxLen == StreamSize(extents)
          invariant extents + Pieces(Extent(true, left)) == all
          decreases left
        {
          OverflowTest(left);
          ghost var before := extents;
          r := AddChunk(true, MAX_CHUNK_SIZE);
          if r != Success {
            return;
          }
          left := left - MAX_CHUNK_SIZE;
          Associate(before, [Extent(true, MAX_CHUNK_SIZE)], Pieces(Extent(true, left)));
        }
        OverflowTest(left);
      }
      if |chunks| == MAX_REGIONS {
        return OutOfResources;
      }
      StoreChunk(raw, left);
      r := Success;
    }

    /** The end of ram_add_chunk: one more entry in the chunk table. */
    method StoreChunk(raw: bool, size: nat)
      requires Built() && ctxLen == StreamSize(extents) && |chunks| < MAX_REGIONS
      requires size % 4096 == 0 && (raw ==> size + CHUNK_SZ < 0x1_0000_0000)
      modifies `chunks, `totalChunks, `totalBlks, `ctxLen, `extents
      ensures Built() && ctxLen == StreamSize(extents) && extents == old(extents) + [Extent(raw, size)]
    {
      hide BlockCount, StreamSize;
      ghost var e := Extent(raw, size);
      Appended(extents, [e]);
      One(e);
      WrapAdd(BlockCount(extents), ChunkOf(e).blocks);
      var blocks := size / 4096 % 0x1_0000_0000;
      var total := CHUNK_SZ;
      ctxLen := ctxLen + CHUNK_SZ;
      if raw {
        total := total + size;
        ctxLen := ctxLen + size;
      }
      chunks := chunks + [Chunk(Kind(raw), blocks, total)];
      totalChunks := totalChunks + 1;
      totalBlks := (totalBlks + blocks) % 0x1_0000_0000;
      extents := extents + [e];
    }

    /** One turn of ram_build_chunks, for a region that reaches past `start`; `stop` when it reaches `end`. */
    method AddRegion(regions: seq<Region>, i: nat, prevEnd: nat) returns (r: Status, stop: bool)
      requires i < |regions| && start < regions[i].End() && prevEnd == PrevEnd(regions, i)
      requires Built() && ctxLen == StreamSize(extents)
      modifies `chunks, `totalChunks, `totalBlks, `ctxLen, `extents
      ensures Built() && ctxLen == StreamSize(extents)
      ensures r == Success ==> extents != [] && |extents| <= MAX_REGIONS
      ensures r == Success ==>
                extents == old(extents) + Turn(regions, start, end, i) && (stop <==> Stops(regions, start, end, i))
      ensures r == InvalidParameter ==> prevEnd > regions[i].start || !Aligned(regions, start, end)
      ensures r == OutOfResources ==> |old(extents) + Turn(regions, start, end, i)| > MAX_REGIONS
    {
      hide StreamSize, Aligned, Ram.Built, HoleLength, PartLength, Pieces;
      stop := false;
      var entry := regions[i];
      var hole, part := HoleLength(prevEnd, entry, start, end), PartLength(entry, start, end);
      if Aligned(regions, start, end) {
        TurnAligned(regions, start, end, i);
      }
      PieceOfHole(hole);
      PiecesSome(Extent(entry.conventional, part));
      if prevEnd != entry.start {
        if prevEnd > entry.start {
          return InvalidParameter, stop;
        }
        r := AddChunk(false, hole);
        if r != Success {
          return;
        }
        if end != 0 && end < entry.start {
          return Success, true;
        }
        Associate(old(extents), [Extent(false, hole)], Pieces(Extent(entry.conventional, part)));
      }
      r := AddChunk(entry.conventional, part);
      if r == Success && end != 0 && end <= entry.End() {
        stop := true;
      }
    }

    /** The loop of ram_build_chunks; it leaves off before the end of the map exactly when `end` is reached. */
    method FillTable(regions: seq<Region>) returns (r: Status, i: nat, prevEnd: nat)
      requires Built() && extents == [] && ctxLen == StreamSize(extents)
      modifies `chunks, `totalChunks, `totalBlks, `ctxLen, `extents
      ensures Built() && ctxLen == StreamSize(extents)
      ensures r == Success ==> extents == Stretches(regions, start, end) && |extents| <= MAX_REGIONS
      ensures r == Success ==> i <= |regions| && prevEnd == PrevEnd(regions, i)
      ensures r == Success ==> (i < |regions| <==> Stopped(regions, start, end, |regions|))
      ensures r == OutOfResources ==> |Stretches(regions, start, end)| > MAX_REGIONS
      ensures r == InvalidParameter ==> !Disjoint(regions) || !Aligned(regions, start, end)
    {
      hide StreamSize, Aligned, Ram.Built, Turn, Stops, Stopped, Layout;
      prevEnd, i := 0, 0;
      NoLayout(regions, start, end);
      while i < |regions|
        invariant i <= |regions| && prevEnd == PrevEnd(regions, i)
        invariant Built() && ctxLen == StreamSize(extents) && |extents| <= MAX_REGIONS
        invariant extents == Layout(regions, start, end, i) && !Stopped(regions, start, end, i)
      {
        LayoutStep(regions, start, end, i);
        LayoutStops(regions, start, end, i + 1);
        var entryEnd := regions[i].End();
        if start < entryEnd {
          var stop;
          r, stop := AddRegion(regions, i, prevEnd);
          if r != Success {
            return;
          }
          if stop {
            return;
          }
        } else {
          SkippedTurn(regions, start, end, i);
          assert extents + [] == extents;
        }
        prevEnd := entryEnd;
        i := i + 1;
      }
      r := Success;
    }

    /** ram_build_chunks: the stretches of the range go to the chunk table. */
    method BuildChunks(regions: seq<Region>) returns (r: Status)
      requires Sorted(regions)
      modifies this
      ensures start == old(start) && ctxCur == 0
      ensures r == Success ==> Built() && Streaming() && ctxLen == HEADER_SZ + StreamSize(extents)
      ensures r == Success ==> extents == Stretches(regions, start, old(end)) && end == EndOf(regions, old(end))
      ensures r == Success ==> Reachable(regions, start, old(end)) && |extents| <= MAX_REGIONS
      ensures r == OutOfResources ==> |Stretches(regions, start, old(end))| > MAX_REGIONS
      ensures r == InvalidParameter && Disjoint(regions) && Aligned(regions, start, old(end)) ==>
                !Reachable(regions, start, old(end)) && |Stretches(regions, start, old(end))| <= MAX_REGIONS
    {
      hide StreamSize, Aligned, Ram.Built, Ram.Streaming, Turn, Stops, Stopped, Layout, Stretches, Reachable;
      Reset();
      var i, prevEnd;
      r, i, prevEnd := FillTable(regions);
      if r != Success {
        return;
      }
      Reaches(regions, start, end);
      if end != 0 && i == |regions| {
        return InvalidParameter;
      }
      SomeSize(extents);
      if ctxLen == 0 {
        return InvalidParameter;
      }
      Finish(prevEnd);
      r := Success;
    }

    /** memory_open, once the arguments are parsed: where to start and, perhaps, a length. */
    method Open(first: u64, length: Option<u64>, regions: seq<Region>) returns (r: Status)
      requires Sorted(regions)
      modifies this
      ensures r == Success ==> start == first && ctxCur == 0 && Built() && Streaming()
      ensures r == Success ==> ctxLen == HEADER_SZ + StreamSize(extents)
      ensures r == Success ==>
                var to := RangeEnd(first, length);
                extents == Stretches(regions, first, to) && end == EndOf(regions, to)
      ensures Disjoint(regions) && PageMap(regions) ==>
                var to := RangeEnd(first, length);
                var pages, n := first % 4096 == 0 && to % 4096 == 0, |Stretches(regions, first, to)|;
                && (r == Success <==> pages && n <= MAX_REGIONS && Reachable(regions, first, to))
                && (r == OutOfResources <==> pages && n > MAX_REGIONS)
    {
      hide StreamSize, Ram.Built, Ram.Streaming, Stretches, Reachable;
      start, end := first, RangeEnd(first, length);
      if start % 4096 != 0 || end % 4096 != 0 {
        return InvalidParameter;
      }
      r := BuildChunks(regions);
    }

    method Reset()
      modifies `totalChunks, `totalBlks, `chunks, `extents, `curChunk, `ctxCur, `ctxLen
      ensures Built() && extents == [] && Raw(extents) == [] && ctxLen == StreamSize(extents) == 0
      ensures ctxCur == 0 && curChunk == 0
    {
      totalChunks, totalBlks, chunks, extents := 0, 0, [], [];
      curChunk, ctxCur, ctxLen := 0, 0, 0;
    }

    method Finish(prevEnd: nat)
      requires Built() && ctxLen == StreamSize(extents) && ctxCur == 0 && curChunk == 0
      modifies `end, `ctxLen
      ensures Built() && end == (if old(end) == 0 then prevEnd else old(end)) && ctxLen == old(ctxLen) + HEADER_SZ
      ensures Streaming()
    {
      BodySize(extents, start);
      if end == 0 {
        end := prevEnd;
      }
      ctxLen := ctxLen + HEADER_SZ;
    }

    /** The whole file that this reader streams. */
    ghost function File(): seq<Item>
      requires |chunks| < 0x1_0000_0000
      reads `totalBlks, `chunks, `start
    {
      Stream(totalBlks, chunks, start)
    }

    /** Where the cursors stand in the file. */
    ghost predicate Streaming()
      reads this
    {
      && |chunks| <= MAX_REGIONS && totalChunks == |chunks| && ctxLen == |File()| && curChunk < MAX_REGIONS
      && if ctxCur == 0 then curChunk == 0 else Left(File(), ctxCur, cur, curEnd, chunks, curChunk)
    }

    /** ram_read. */
    method ReadRam(len: nat) returns (r: Status, data: seq<Item>)
      requires Streaming() && 0 < len <= ctxLen - ctxCur
      modifies `cur, `curEnd, `curChunk
      ensures r == Success ==> 0 < |data| <= len && data == File()[ctxCur..ctxCur + |data|]
      ensures r == Success ==> Left(File(), ctxCur + |data|, cur, curEnd, chunks, curChunk) && curChunk < MAX_REGIONS
      ensures r != Success ==> data == [] && cur == old(cur) && curEnd == old(curEnd) && curChunk == old(curChunk)
      ensures r != OutOfResources
      ensures r != Success <==>
        || (ctxCur == 0 && len < HEADER_SZ)
        || (ctxCur != 0 && old(cur) == old(curEnd) && (len < CHUNK_SZ || old(curChunk) == MAX_REGIONS - 1))
    {
      hide Left, Body, Stream, HeaderBytes, ChunkBytes, Step, Lits, MemRange;
      data := [];
      ghost var file := File();
      if ctxCur == 0 {
        if len < HEADER_SZ {
          return InvalidParameter, data;
        }
        data := Lits(HeaderBytes(totalBlks, totalChunks));
        cur, curEnd := start, start;
        SendHeader(file, totalBlks, chunks, start);
        return Success, data;
      }
      AllSent(file, ctxCur, cur, curEnd, chunks, curChunk);
      if cur == curEnd {
        if curChunk == |chunks| || len < CHUNK_SZ {
          return InvalidParameter, data;
        }
        if curChunk >= MAX_REGIONS - 1 {
          return InvalidParameter, data;
        }
        var chunk := chunks[curChunk];
        curChunk := curChunk + 1;
        data := Lits(ChunkBytes(chunk));
        curEnd := cur + Step(chunk);
        if chunk.kind != CHUNK_TYPE_RAW {
          cur := curEnd;
        }
        SendChunk(file, ctxCur, old(cur), chunks, old(curChunk), cur, curEnd);
        return Success, data;
      }
      var n := Min(len, curEnd - cur);
      SendMemory(file, ctxCur, cur, curEnd, chunks, curChunk, n);
      data := MemRange(cur, n);
      cur := cur + n;
      r := Success;
    }

    /** reader_read: every successful call returns the next bytes of the file. */
    method Read(len: nat) returns (r: Status, data: seq<Item>)
      requires Streaming() && ctxCur <= ctxLen
      modifies `cur, `curEnd, `curChunk, `ctxCur
      ensures Streaming() && ctxCur == old(ctxCur) + |data| <= ctxLen && data == File()[old(ctxCur)..ctxCur]
      ensures r == Success ==> |data| <= len && (data == [] <==> old(ctxCur) == ctxLen)
      ensures r != Success ==> data == [] && cur == old(cur) && curEnd == old(curEnd) && curChunk == old(curChunk)
      ensures r != OutOfResources && (len >= HEADER_SZ ==> (r != Success <==> old(Stuck())))
    {
      hide Left, Stream;
      data := [];
      if ctxCur == 0 {
        SendHeader(File(), totalBlks, chunks, start);
      } else {
        AllSent(File(), ctxCur, cur, curEnd, chunks, curChunk);
      }
      if len == 0 {
        return InvalidParameter, data;
      }
      var n := Min(len, ctxLen - ctxCur);
      if n == 0 {
        return Success, data;
      }
      r, data := ReadRam(n);
      ctxCur := ctxCur + |data|;
    }

    /** The chunk table's last entry is next, which ram_read never sends. */
    ghost predicate Stuck()
      reads this
    {
      ctxCur != 0 && ctxCur < ctxLen && cur == curEnd && curChunk == MAX_REGIONS - 1
    }

    /** Reading to the end with requests of at least 28 bytes yields the whole file, whatever the requests,
        exactly when the chunk table is not full. */
    method ReadAll(request: nat -> nat) returns (r: Status, out: seq<Item>)
      requires Streaming() && ctxCur == 0 && forall k :: request(k) >= HEADER_SZ
      modifies `cur, `curEnd, `curChunk, `ctxCur
      ensures Streaming() && out == File()[..ctxCur]
      ensures r == Success ==> out == File()
      ensures r != OutOfResources && (r == Success <==> |chunks| < MAX_REGIONS)
    {
      hide Left, Stream;
      out := [];
      var k := 0;
      SendHeader(File(), totalBlks, chunks, start);
      while true
        invariant Streaming() && ctxCur <= ctxLen && out == File()[..ctxCur]
        decreases ctxLen - ctxCur
      {
        ghost var at := ctxCur;
        var data;
        r, data := Read(request(k));
        k := k + 1;
        assert File()[..ctxCur] == File()[..at] + File()[at..ctxCur];
        out := out + data;
        if ctxCur != 0 {
          AllSent(File(), ctxCur, cur, curEnd, chunks, curChunk);
        }
        if r != Success || data == [] {
          return;
        }
      }
    }
  }
}
