/** The "vmcore" reader (libadb/reader.c): the conventional memory of a range streamed as an ELF64 core file. */
module VmcoreReader {
  import opened Bytes
  import opened MemoryMap
  import opened MemoryStream

  const EHDR_SZ := 64
  const PHDR_SZ := 56
  const KERNEL_PAGE_OFFSET: int := 0xffff_8800_0000_0000
  const PT_LOAD := 1
  const PT_NOTE := 4

  /** A PT_LOAD program header: offset in the file, physical address, size. */
  datatype Segment = Segment(offset: nat, paddr: nat, size: nat)

  // ----- which memory is dumped

  function From(r: Region, start: nat): nat {
    if r.start < start then start else r.start
  }

  /** The length that vmcore_build_header computes, in 64-bit arithmetic. */
  function Length(r: Region, start: nat, end: nat): u64
    requires start < r.End() <= ADDRESS_LIMIT
  {
    var length := r.End() - From(r, start);
    if end != 0 && r.End() > end then (length - (r.End() - end)) % TWO_64 else length
  }

  /** The length is that of the region's part of the range exactly when that part does not start after its end. */
  lemma LengthExact(r: Region, start: nat, end: nat)
    requires start < r.End() <= ADDRESS_LIMIT
    ensures end == 0 || From(r, start) <= end ==>
      Length(r, start, end) == (if end != 0 && r.End() > end then end else r.End()) - From(r, start)
    ensures end != 0 && From(r, start) > end ==> Length(r, start, end) == TWO_64 - (From(r, start) - end)
  {
  }

  /** The regions that get a segment. */
  function Kept(regions: seq<Region>, start: nat): seq<Region> {
    if regions == [] then []
    else
      var rest, r := Kept(regions[..|regions| - 1], start), regions[|regions| - 1];
      if r.conventional && start < r.End() then rest + [r] else rest
  }

  /** No conventional region has its part of the range after the end: none starts there and the end did not wrap. */
  predicate NoneAfter(regions: seq<Region>, start: nat, end: nat) {
    || end == 0
    || forall i :: 0 <= i < |regions| && regions[i].conventional && start < regions[i].End() ==>
         From(regions[i], start) <= end
  }

  /** Address `a` is dumped by one of the segments. */
  predicate Dumps(segs: seq<Segment>, a: nat) {
    exists i :: 0 <= i < |segs| && segs[i].paddr <= a < segs[i].paddr + segs[i].size
  }

  /** Segment list computed for a list of kept regions. */
  predicate SegmentsOf(segs: seq<Segment>, kept: seq<Region>, start: nat, end: nat) {
    && |segs| == |kept|
    && forall i :: 0 <= i < |segs| ==>
      start < kept[i].End() <= ADDRESS_LIMIT
      && segs[i].paddr == From(kept[i], start) && segs[i].size == Length(kept[i], start, end)
  }

  lemma NoSegments(regions: seq<Region>, start: nat, end: nat)
    ensures Kept(regions[..0], start) == [] && SegmentsOf([], [], start, end)
  {
  }

  lemma SegmentsSnoc(segs: seq<Segment>, kept: seq<Region>, r: Region, start: nat, end: nat)
    requires SegmentsOf(segs, kept, start, end) && start < r.End() <= ADDRESS_LIMIT
    ensures SegmentsOf(segs + [Segment(0, From(r, start), Length(r, start, end))], kept + [r], start, end)
  {
    hide Length;
  }

  lemma KeptStep(regions: seq<Region>, i: nat, start: nat)
    requires i < |regions|
    ensures Kept(regions[..i + 1], start) ==
      if regions[i].conventional && start < regions[i].End() then Kept(regions[..i], start) + [regions[i]]
      else Kept(regions[..i], start)
  {
    assert regions[..i + 1][..i] == regions[..i];
  }

  lemma {:induction false} KeptGrows(regions: seq<Region>, i: nat, start: nat)
    requires i <= |regions|
    ensures |Kept(regions[..i], start)| <= |Kept(regions, start)|
    decreases |regions| - i
  {
    if i == |regions| {
      assert regions[..i] == regions;
    } else {
      KeptStep(regions, i, start);
      KeptGrows(regions, i + 1, start);
    }
  }

  lemma {:induction false} KeptMembers(regions: seq<Region>, start: nat)
    ensures forall r :: r in Kept(regions, start) <==> r in regions && r.conventional && start < r.End()
  {
    if regions != [] {
      var n := |regions| - 1;
      KeptMembers(regions[..n], start);
      assert regions == regions[..n] + [regions[n]];
    }
  }

  /** Address `a` belongs to what the dump of a range should hold. */
  predicate Wanted(regions: seq<Region>, start: nat, end: nat, a: nat) {
    Conventional(regions, a) && start <= a && (end == 0 || a < end)
  }

  /** Exactly the conventional memory of the range is dumped, if and only if no conventional region starts
      after its end. */
  lemma DumpExact(segs: seq<Segment>, regions: seq<Region>, start: nat, end: nat)
    requires Sorted(regions) && SegmentsOf(segs, Kept(regions, start), start, end)
    ensures NoneAfter(regions, start, end) <==> forall a: nat :: Dumps(segs, a) <==> Wanted(regions, start, end, a)
  {
    hide Dumps, Wanted, SegmentsOf, Kept;
    if NoneAfter(regions, start, end) {
      forall a: nat
        ensures Dumps(segs, a) <==> Wanted(regions, start, end, a)
      {
        DumpedAddress(segs, regions, start, end, a);
      }
    } else {
      var i :| 0 <= i < |regions| && regions[i].conventional && start < regions[i].End()
            && From(regions[i], start) > end;
      DumpedAfter(segs, regions, start, end, i);
    }
  }

  /** A region past the end of the range gets a segment as long as the address space. */
  lemma AfterEndExample(r: seq<Region>)
    requires r == [Region(true, 0, 1), Region(true, 0x3000, 1)]
    ensures Sorted(r) && Disjoint(r) && !NoneAfter(r, 0, 0x1000) && Length(r[1], 0, 0x1000) == TWO_64 - 0x2000
  {
    assert From(r[1], 0) > 0x1000;
  }

  /** A length whose sum with the start wraps: the one segment gets almost the whole address space. */
  lemma WrappedExample(r: seq<Region>)
    requires r == [Region(true, 0, 4)]
    ensures Sorted(r) && RangeEnd(0x2000, Some(TWO_64 - 0x1000)) == 0x1000 && !NoneAfter(r, 0x2000, 0x1000)
    ensures Length(r[0], 0x2000, 0x1000) == TWO_64 - 0x1000
  {
    assert From(r[0], 0x2000) == 0x2000;
  }

  lemma DumpedAfter(segs: seq<Segment>, regions: seq<Region>, start: nat, end: nat, i: nat)
    requires Sorted(regions) && 0 < end && SegmentsOf(segs, Kept(regions, start), start, end)
    requires i < |regions| && regions[i].conventional && start < regions[i].End() && From(regions[i], start) > end
    ensures Dumps(segs, From(regions[i], start)) && !Wanted(regions, start, end, From(regions[i], start))
  {
    hide Length, Kept;
    var kept := Kept(regions, start);
    KeptMembers(regions, start);
    assert regions[i] in kept;
    var k :| 0 <= k < |kept| && kept[k] == regions[i];
    LengthExact(kept[k], start, end);
  }

  lemma DumpedAddress(segs: seq<Segment>, regions: seq<Region>, start: nat, end: nat, a: nat)
    requires Sorted(regions) && SegmentsOf(segs, Kept(regions, start), start, end) && NoneAfter(regions, start, end)
    ensures Dumps(segs, a) <==> Wanted(regions, start, end, a)
  {
    hide Length, Kept;
    var kept := Kept(regions, start);
    KeptMembers(regions, start);
    if Dumps(segs, a) {
      var i :| 0 <= i < |segs| && segs[i].paddr <= a < segs[i].paddr + segs[i].size;
      assert kept[i] in kept;
      var j :| 0 <= j < |regions| && regions[j] == kept[i];
      SegmentHolds(segs[i], regions[j], start, end, a);
      assert regions[j].Contains(a);
    }
    if Wanted(regions, start, end, a) {
      var j :| 0 <= j < |regions| && regions[j].conventional && regions[j].Contains(a);
      assert regions[j] in kept;
      var i :| 0 <= i < |kept| && kept[i] == regions[j];
      SegmentHolds(segs[i], regions[j], start, end, a);
    }
  }

  /** The segment of a region holds the region's part of the range. */
  lemma SegmentHolds(g: Segment, r: Region, start: nat, end: nat, a: nat)
    requires start < r.End() <= ADDRESS_LIMIT && (end == 0 || From(r, start) <= end)
    requires g.paddr == From(r, start) && g.size == Length(r, start, end)
    ensures g.paddr <= a < g.paddr + g.size <==> r.Contains(a) && start <= a && (end == 0 || a < end)
  {
    hide Length;
    LengthExact(r, start, end);
  }

  // ----- the file

  function ElfHeader(phnum: u16): (s: seq<byte>)
    ensures |s| == EHDR_SZ
  {
    [0x7f, 0x45, 0x4c, 0x46, 2, 1, 1] + Zeros(9) + LE16(4) + LE16(62) + LE32(1) + LE64(0) + LE64(EHDR_SZ) + LE64(0)
    + LE32(0) + LE16(EHDR_SZ) + LE16(PHDR_SZ) + LE16(phnum) + LE16(0) + LE16(0) + LE16(0)
  }

  function NoteHeader(): (s: seq<byte>)
    ensures |s| == PHDR_SZ
  {
    LE32(PT_NOTE) + Zeros(52)
  }

  predicate Fits64(g: Segment) {
    g.offset < TWO_64 && g.paddr < TWO_64 && g.size < TWO_64
  }

  /** The bytes of an elf64_phdr. */
  function LoadHeader(g: Segment): (s: seq<byte>)
    requires Fits64(g)
    ensures |s| == PHDR_SZ
  {
    LE32(PT_LOAD) + LE32(7) + LE64(g.offset) + LE64((KERNEL_PAGE_OFFSET + g.paddr) % TWO_64) + LE64(g.paddr)
    + LE64(g.size) + LE64(g.size) + LE64(0)
  }

  predicate AllFit(segs: seq<Segment>) {
    forall i :: 0 <= i < |segs| ==> Fits64(segs[i])
  }

  function LoadHeaders(segs: seq<Segment>): (s: seq<byte>)
    requires AllFit(segs)
    ensures |s| == PHDR_SZ * |segs|
  {
    if segs == [] then [] else LoadHeader(segs[0]) + LoadHeaders(segs[1..])
  }

  function HeaderSize(n: nat): nat {
    EHDR_SZ + PHDR_SZ + PHDR_SZ * n
  }

  function Headers(segs: seq<Segment>): (s: seq<byte>)
    requires AllFit(segs) && |segs| < 0xFFFF
    ensures |s| == HeaderSize(|segs|)
  {
    ElfHeader(|segs| + 1) + NoteHeader() + LoadHeaders(segs)
  }

  /** The memory behind the headers. */
  function Memory(segs: seq<Segment>): seq<Item> {
    if segs == [] then [] else MemRange(segs[0].paddr, segs[0].size) + Memory(segs[1..])
  }

  function CoreFile(segs: seq<Segment>): seq<Item>
    requires AllFit(segs) && |segs| < 0xFFFF
  {
    Lits(Headers(segs)) + Memory(segs)
  }

  /** The segments follow each other in the file, from `at` on, without a gap. */
  predicate Tiled(segs: seq<Segment>, at: nat) {
    segs == [] || (segs[0].offset == at && Tiled(segs[1..], at + segs[0].size))
  }

  function TotalSize(segs: seq<Segment>): nat {
    if segs == [] then 0 else segs[0].size + TotalSize(segs[1..])
  }

  lemma {:induction false} MemorySize(segs: seq<Segment>)
    ensures |Memory(segs)| == TotalSize(segs)
  {
    if segs != [] {
      MemorySize(segs[1..]);
    }
  }

  /** Byte `k` of segment `i`, found at its offset. */
  lemma {:induction false} SegmentAt(segs: seq<Segment>, at: nat, i: nat, k: nat)
    requires Tiled(segs, at) && i < |segs| && k < segs[i].size
    ensures at <= segs[i].offset && segs[i].offset - at + k < |Memory(segs)|
    ensures Memory(segs)[segs[i].offset - at + k] == Mem(segs[i].paddr + k)
    decreases i
  {
    if i > 0 {
      SegmentAt(segs[1..], at + segs[0].size, i - 1, k);
    }
  }

  /** Where program header `i` lies among the headers. */
  lemma {:induction false} LoadHeaderAt(segs: seq<Segment>, i: nat)
    requires AllFit(segs) && i < |segs|
    ensures LoadHeaders(segs)[PHDR_SZ * i..PHDR_SZ * i + PHDR_SZ] == LoadHeader(segs[i])
  {
    hide LoadHeader;
    var first, rest := LoadHeader(segs[0]), LoadHeaders(segs[1..]);
    if i == 0 {
      assert (first + rest)[0..PHDR_SZ] == first;
    } else {
      LoadHeaderAt(segs[1..], i - 1);
      var p := PHDR_SZ * (i - 1);
      assert PHDR_SZ * i == p + PHDR_SZ;
      assert (first + rest)[p + PHDR_SZ..p + PHDR_SZ + PHDR_SZ] == rest[p..p + PHDR_SZ];
    }
  }

  /** The fields of an encoded program header. */
  lemma LoadFields(g: Segment)
    requires Fits64(g)
    ensures var h := LoadHeader(g);
      U32(h, 0) == PT_LOAD && U64(h, 8) == g.offset && U64(h, 24) == g.paddr && U64(h, 32) == g.size
      && U64(h, 40) == g.size
  {
    hide Word, Encode;
    var h := LoadHeader(g);
    EncodedFields(PT_LOAD);
    EncodedField64(g.offset);
    EncodedField64(g.paddr);
    EncodedField64(g.size);
    assert h[0..4] == LE32(PT_LOAD) == LE32(PT_LOAD)[0..4];
    assert h[8..16] == LE64(g.offset) == LE64(g.offset)[0..8];
    assert h[24..32] == LE64(g.paddr) == LE64(g.paddr)[0..8];
    assert h[32..40] == h[40..48] == LE64(g.size) == LE64(g.size)[0..8];
  }

  /** Offset of program header `i + 1` (header 0 is the note) in the file. */
  function PhdrAt(i: nat): nat {
    EHDR_SZ + PHDR_SZ + PHDR_SZ * i
  }

  lemma HeaderPart(segs: seq<Segment>, i: nat)
    requires AllFit(segs) && |segs| < 0xFFFF && i < |segs|
    ensures PhdrAt(i) + PHDR_SZ <= |Headers(segs)|
    ensures Headers(segs)[PhdrAt(i)..PhdrAt(i) + PHDR_SZ] == LoadHeader(segs[i])
  {
    hide LoadHeader, ElfHeader, NoteHeader, LoadHeaders;
    LoadHeaderAt(segs, i);
    var front, loads, p := ElfHeader(|segs| + 1) + NoteHeader(), LoadHeaders(segs), PHDR_SZ * i;
    assert p + PHDR_SZ <= PHDR_SZ * |segs|;
    assert (front + loads)[PhdrAt(i)..PhdrAt(i) + PHDR_SZ] == loads[p..p + PHDR_SZ];
  }

  /** A reader of the core file finds, through the offset, address and size fields of every program header,
      the memory it announces. */
  lemma CoreFileSound(segs: seq<Segment>, i: nat, k: nat)
    requires AllFit(segs) && |segs| < 0xFFFF && Tiled(segs, HeaderSize(|segs|)) && i < |segs|
    ensures var h, file, p := Headers(segs), CoreFile(segs), PhdrAt(i);
      && p + PHDR_SZ <= |h| && file[..|h|] == Lits(h)
      && U32(h, p) == PT_LOAD
      && U64(h, p + 32) == U64(h, p + 40) == segs[i].size
      && (k < U64(h, p + 32) ==> U64(h, p + 8) + k < |file| && file[U64(h, p + 8) + k] == Mem(U64(h, p + 24) + k))
  {
    hide LoadHeader, Headers, Memory, Word;
    var h, file, p := Headers(segs), CoreFile(segs), PhdrAt(i);
    HeaderPart(segs, i);
    LoadFields(segs[i]);
    FieldsOfSlice(h, p, p + PHDR_SZ, 0);
    Field64OfSlice(h, p, p + PHDR_SZ, 8);
    Field64OfSlice(h, p, p + PHDR_SZ, 24);
    Field64OfSlice(h, p, p + PHDR_SZ, 32);
    Field64OfSlice(h, p, p + PHDR_SZ, 40);
    if k < segs[i].size {
      SegmentAt(segs, |h|, i, k);
    }
  }

  // ----- building the headers

  /** Segments that no 64-bit computation wrapped. */
  predicate Small(segs: seq<Segment>) {
    forall i :: 0 <= i < |segs| ==> segs[i].size <= ADDRESS_LIMIT && segs[i].paddr <= ADDRESS_LIMIT
  }

  lemma {:induction false} TotalSizeStep(segs: seq<Segment>, i: nat)
    requires i < |segs|
    ensures TotalSize(segs[..i + 1]) == TotalSize(segs[..i]) + segs[i].size
  {
    if i == 0 {
      assert segs[..1][1..] == [] && segs[..0] == [];
    } else {
      TotalSizeStep(segs[1..], i - 1);
      assert segs[..i + 1][1..] == segs[1..][..i] && segs[..i][1..] == segs[1..][..i - 1];
    }
  }

  lemma {:induction false} TotalSizeBound(segs: seq<Segment>)
    requires Small(segs)
    ensures TotalSize(segs) <= ADDRESS_LIMIT * |segs|
  {
    if segs != [] {
      TotalSizeBound(segs[1..]);
    }
  }

  /** Offsets that are running sums tile the file. */
  lemma {:induction false} TiledFrom(segs: seq<Segment>, at: nat)
    requires forall i :: 0 <= i < |segs| ==> segs[i].offset == at + TotalSize(segs[..i])
    ensures Tiled(segs, at)
  {
    if segs != [] {
      assert segs[..0] == [];
      forall i | 0 <= i < |segs| - 1
        ensures segs[1..][i].offset == at + segs[0].size + TotalSize(segs[1..][..i])
      {
        assert segs[..i + 1][1..] == segs[1..][..i];
      }
      TiledFrom(segs[1..], at + segs[0].size);
    }
  }

  /** What decides the segment of a region: nothing but its address and size. */
  lemma SizesKept(a: seq<Segment>, b: seq<Segment>, i: nat)
    requires |a| == |b| && i <= |a| && forall j :: 0 <= j < i ==> a[j].size == b[j].size
    ensures TotalSize(a[..i]) == TotalSize(b[..i])
  {
    if i > 0 {
      SizesKept(a, b, i - 1);
      TotalSizeStep(a, i - 1);
      TotalSizeStep(b, i - 1);
    }
  }

  lemma OffsetsSet(segs: seq<Segment>, segs0: seq<Segment>, len: nat)
    requires |segs| == |segs0| && |segs| < 0xFFFF && Small(segs0) && |segs| < MAX_REGIONS
    requires forall j :: 0 <= j < |segs| ==> segs[j].paddr == segs0[j].paddr && segs[j].size == segs0[j].size
    requires len == HeaderSize(|segs|) + TotalSize(segs0[..|segs|])
    requires forall j :: 0 <= j < |segs| ==> segs[j].offset == HeaderSize(|segs|) + TotalSize(segs0[..j])
    ensures Tiled(segs, HeaderSize(|segs|)) && AllFit(segs) && len == |CoreFile(segs)|
  {
    hide TotalSize, Headers, Memory, Tiled;
    forall j | 0 <= j <= |segs|
      ensures TotalSize(segs[..j]) == TotalSize(segs0[..j]) <= ADDRESS_LIMIT * j
    {
      SizesKept(segs, segs0, j);
      TotalSizeBound(segs0[..j]);
    }
    TiledFrom(segs, HeaderSize(|segs|));
    assert segs[..|segs|] == segs;
    MemorySize(segs);
  }

  lemma KeptSmall(segs: seq<Segment>, regions: seq<Region>, start: nat, end: nat)
    requires Sorted(regions) && SegmentsOf(segs, Kept(regions, start), start, end) && NoneAfter(regions, start, end)
    ensures Small(segs)
  {
    hide Length, Kept;
    KeptMembers(regions, start);
    forall i | 0 <= i < |segs|
      ensures segs[i].size <= ADDRESS_LIMIT && segs[i].paddr <= ADDRESS_LIMIT
    {
      var r := Kept(regions, start)[i];
      assert r in Kept(regions, start);
      LengthExact(r, start, end);
    }
  }

  // ----- streaming

  ghost predicate Left(file: seq<Item>, at: nat, cur: nat, curEnd: nat, segs: seq<Segment>, k: nat) {
    && at <= |file| && cur <= curEnd && k <= |segs|
    && file[at..] == MemRange(cur, curEnd - cur) + Memory(segs[k..])
  }

  lemma SendHeaders(segs: seq<Segment>, file: seq<Item>)
    requires AllFit(segs) && |segs| < 0xFFFF && file == CoreFile(segs)
    ensures HeaderSize(|segs|) <= |file| && file[0..HeaderSize(|segs|)] == Lits(Headers(segs))
    ensures Left(file, HeaderSize(|segs|), 0, 0, segs, 0)
  {
    hide Headers, Memory, Lits;
    assert file[0..] == file && segs[0..] == segs;
    TakeFront(file, 0, Lits(Headers(segs)), Memory(segs), HeaderSize(|segs|));
    assert MemRange(0, 0) + Memory(segs) == Memory(segs);
  }

  lemma NextSegment(file: seq<Item>, at: nat, addr: nat, segs: seq<Segment>, k: nat)
    requires k < |segs| && Left(file, at, addr, addr, segs, k)
    ensures Left(file, at, segs[k].paddr, segs[k].paddr + segs[k].size, segs, k + 1)
  {
    assert segs[k..][1..] == segs[k + 1..] && segs[k..][0] == segs[k];
  }

  lemma SendPart(file: seq<Item>, at: nat, cur: nat, curEnd: nat, segs: seq<Segment>, k: nat, n: nat)
    requires Left(file, at, cur, curEnd, segs, k) && cur + n <= curEnd
    ensures at + n <= |file| && file[at..at + n] == MemRange(cur, n)
    ensures Left(file, at + n, cur + n, curEnd, segs, k)
  {
    hide Memory;
    var rest := MemRange(cur + n, curEnd - (cur + n)) + Memory(segs[k..]);
    assert MemRange(cur, curEnd - cur) == MemRange(cur, n) + MemRange(cur + n, curEnd - (cur + n));
    assert file[at..] == MemRange(cur, n) + rest;
    TakeFront(file, at, MemRange(cur, n), rest, at + n);
  }

  /** No segment before the last one is empty. */
  predicate Solid(segs: seq<Segment>) {
    forall i :: 0 <= i < |segs| - 1 ==> segs[i].size > 0
  }

  lemma MoreToSend(file: seq<Item>, at: nat, cur: nat, curEnd: nat, segs: seq<Segment>, k: nat)
    requires Left(file, at, cur, curEnd, segs, k) && Solid(segs)
    ensures cur <= curEnd && (at < |file| && cur == curEnd ==> k < |segs| && segs[k].size > 0)
  {
    if at < |file| && cur == curEnd && k < |segs| {
      assert |Memory(segs[k..])| == segs[k].size + |Memory(segs[k..][1..])|;
      if k == |segs| - 1 {
        assert segs[k..][1..] == [];
      }
    }
  }

  lemma {:induction false} KeptDisjoint(regions: seq<Region>, start: nat)
    requires Disjoint(regions)
    ensures Disjoint(Kept(regions, start))
  {
    if regions != [] {
      var n := |regions| - 1;
      KeptDisjoint(regions[..n], start);
      KeptMembers(regions[..n], start);
      var kept := Kept(regions[..n], start);
      forall i | 0 <= i < |kept|
        ensures kept[i].End() <= regions[n].start
      {
        assert kept[i] in kept;
      }
    }
  }

  /** For a real memory map, streaming can start once the headers are built. */
  lemma SegmentsSolid(segs: seq<Segment>, regions: seq<Region>, start: nat, end: nat)
    requires Sorted(regions) && Disjoint(regions) && forall i :: 0 <= i < |regions| ==> regions[i].pages > 0
    requires SegmentsOf(segs, Kept(regions, start), start, end) && NoneAfter(regions, start, end)
    ensures Solid(segs)
  {
    hide Length, Kept;
    var kept := Kept(regions, start);
    KeptDisjoint(regions, start);
    KeptMembers(regions, start);
    forall i | 0 <= i < |segs| - 1
      ensures segs[i].size > 0
    {
      assert kept[i] in kept && kept[i + 1] in kept;
      LengthExact(kept[i], start, end);
    }
  }

  class Vmcore {
    var start: nat
    var end: nat
    var segs: seq<Segment>
    var cur: nat
    var curEnd: nat
    var curPhdr: nat
    var ctxLen: nat
    var ctxCur: nat

    /** The first loop of vmcore_build_header: one program header per region to dump. */
    method CollectSegments(regions: seq<Region>) returns (ok: bool)
      requires Sorted(regions)
      modifies `segs
      ensures ok ==> SegmentsOf(segs, Kept(regions, start), start, end) && |segs| + 1 < MAX_REGIONS
      ensures !ok <==> |Kept(regions, start)| + 2 > MAX_REGIONS
    {
      hide Length, SegmentsOf, Kept;
      segs := [];
      NoSegments(regions, start, end);
      for i := 0 to |regions|
        invariant |segs| + 1 < MAX_REGIONS && |segs| == |Kept(regions[..i], start)|
        invariant SegmentsOf(segs, Kept(regions[..i], start), start, end)
      {
        var entry := regions[i];
        KeptStep(regions, i, start);
        if !entry.conventional || entry.End() <= start {
          continue;
        }
        if |segs| + 2 == MAX_REGIONS {
          KeptGrows(regions, i + 1, start);
          return false;
        }
        SegmentsSnoc(segs, Kept(regions[..i], start), entry, start, end);
        segs := segs + [Segment(0, From(entry, start), Length(entry, start, end))];
      }
      assert regions[..|regions|] == regions;
      ok := true;
    }

    /** vmcore_build_header. */
    method BuildHeader(regions: seq<Region>) returns (r: Status)
      requires Sorted(regions)
      modifies `segs, `ctxLen, `ctxCur
      ensures r == Success ==>
                SegmentsOf(segs, Kept(regions, start), start, end) && segs != [] && |segs| + 1 < MAX_REGIONS
      ensures r == Success && NoneAfter(regions, start, end) ==>
        Tiled(segs, HeaderSize(|segs|)) && AllFit(segs) && ctxLen == |CoreFile(segs)| && ctxCur == 0
      ensures r == InvalidParameter <==> Kept(regions, start) == []
      ensures r == OutOfResources <==> |Kept(regions, start)| + 2 > MAX_REGIONS
    {
      hide Length, Kept, Tiled, NoneAfter;
      ctxCur := 0;
      var ok := CollectSegments(regions);
      if !ok {
        return OutOfResources;
      }
      if segs == [] {
        return InvalidParameter;
      }
      SetOffsets(regions);
      r := Success;
    }

    /** memory_open, once the arguments are parsed: where to start and, perhaps, a length. */
    method Open(first: u64, length: Option<u64>, regions: seq<Region>) returns (r: Status)
      requires Sorted(regions)
      modifies this
      ensures start == first && end == RangeEnd(first, length)
      ensures r == Success ==>
                SegmentsOf(segs, Kept(regions, start), start, end) && segs != [] && |segs| + 1 < MAX_REGIONS
      ensures r == Success && NoneAfter(regions, start, end) ==>
        Tiled(segs, HeaderSize(|segs|)) && AllFit(segs) && ctxLen == |CoreFile(segs)| && ctxCur == 0
      ensures var pages := first % 4096 == 0 && end % 4096 == 0;
              && (r == InvalidParameter <==> !pages || Kept(regions, start) == [])
              && (r == OutOfResources <==> pages && |Kept(regions, start)| + 2 > MAX_REGIONS)
    {
      hide Kept, Tiled, NoneAfter, SegmentsOf, CoreFile;
      start, end := first, RangeEnd(first, length);
      if start % 4096 != 0 || end % 4096 != 0 {
        return InvalidParameter;
      }
      r := BuildHeader(regions);
    }

    method SetOffsets(ghost regions: seq<Region>)
      requires Sorted(regions)
      requires SegmentsOf(segs, Kept(regions, start), start, end) && |segs| + 1 < MAX_REGIONS
      modifies `segs, `ctxLen
      ensures SegmentsOf(segs, Kept(regions, start), start, end) && |segs| == |old(segs)|
      ensures NoneAfter(regions, start, end) ==>
        Tiled(segs, HeaderSize(|segs|)) && AllFit(segs) && ctxLen == |CoreFile(segs)|
    {
      hide Length, Kept, Tiled;
      ghost var segs0, small := segs, NoneAfter(regions, start, end);
      if small {
        KeptSmall(segs, regions, start, end);
      }
      ctxLen := HeaderSize(|segs|);
      for i := 0 to |segs|
        invariant |segs| == |segs0|
        invariant forall j :: 0 <= j < |segs| ==> segs[j].paddr == segs0[j].paddr && segs[j].size == segs0[j].size
        invariant small ==> ctxLen == HeaderSize(|segs|) + TotalSize(segs0[..i])
        invariant small ==> forall j :: 0 <= j < i ==> segs[j].offset == HeaderSize(|segs|) + TotalSize(segs0[..j])
      {
        TotalSizeStep(segs0, i);
        if small {
          TotalSizeBound(segs0[..i + 1]);
        }
        segs := segs[i := segs[i].(offset := ctxLen)];
        ctxLen := (ctxLen + segs[i].size) % 0x1_0000_0000_0000_0000;
      }
      if small {
        OffsetsSet(segs, segs0, ctxLen);
      }
    }

    ghost function File(): seq<Item>
      requires AllFit(segs) && |segs| < 0xFFFF
      reads `segs
    {
      CoreFile(segs)
    }

    /** Where the cursors stand in the file. */
    ghost predicate Streaming()
      reads this
    {
      && AllFit(segs) && |segs| < 0xFFFF && Solid(segs) && ctxLen == |File()|
      && (ctxCur == 0 || Left(File(), ctxCur, cur, curEnd, segs, curPhdr))
    }

    /** vmcore_read. */
    method ReadCore(len: nat) returns (r: Status, data: seq<Item>)
      requires Streaming() && 0 < len <= ctxLen - ctxCur
      modifies `cur, `curEnd, `curPhdr
      ensures r == Success ==> 0 < |data| <= len && data == File()[ctxCur..ctxCur + |data|]
      ensures r == Success ==> Left(File(), ctxCur + |data|, cur, curEnd, segs, curPhdr)
      ensures r != Success ==> data == [] && cur == old(cur) && curEnd == old(curEnd) && curPhdr == old(curPhdr)
      ensures r != Success <==> ctxCur == 0 && len < HeaderSize(|segs|)
    {
      hide Left, CoreFile, Headers, Lits, MemRange, Solid;
      data := [];
      ghost var file := File();
      if ctxCur == 0 {
        if len < HeaderSize(|segs|) {
          return InvalidParameter, data;
        }
        data := Lits(Headers(segs));
        cur, curEnd, curPhdr := 0, 0, 0;
        SendHeaders(segs, file);
        return Success, data;
      }
      MoreToSend(file, ctxCur, cur, curEnd, segs, curPhdr);
      if cur == curEnd {
        NextSegment(file, ctxCur, cur, segs, curPhdr);
        curPhdr := curPhdr + 1;
        cur := segs[curPhdr - 1].paddr;
        curEnd := cur + segs[curPhdr - 1].size;
      }
      var n: nat := Min(len, curEnd - cur);
      SendPart(file, ctxCur, cur, curEnd, segs, curPhdr, n);
      data := MemRange(cur, n);
      cur := cur + n;
      r := Success;
    }

    /** reader_read. */
    method Read(len: nat) returns (r: Status, data: seq<Item>)
      requires Streaming() && ctxCur <= ctxLen
      modifies `cur, `curEnd, `curPhdr, `ctxCur
      ensures Streaming() && ctxCur == old(ctxCur) + |data| <= ctxLen && data == File()[old(ctxCur)..ctxCur]
      ensures r == Success ==> |data| <= len && (data == [] <==> old(ctxCur) == ctxLen)
      ensures r != Success ==> data == []
      ensures len >= HeaderSize(|segs|) ==> r == Success
    {
      hide Left, CoreFile;
      data := [];
      SendHeaders(segs, File());
      if len == 0 {
        return InvalidParameter, data;
      }
      var n := Min(len, ctxLen - ctxCur);
      if n == 0 {
        return Success, data;
      }
      r, data := ReadCore(n);
      ctxCur := ctxCur + |data|;
    }

    /** Reading to the end with requests that the headers fit in yields the whole core file. */
    method ReadAll(request: nat -> nat) returns (out: seq<Item>)
      requires Streaming() && ctxCur == 0 && forall k :: request(k) >= HeaderSize(|segs|)
      modifies `cur, `curEnd, `curPhdr, `ctxCur
      ensures out == File() && ctxCur == ctxLen
    {
      hide Left, CoreFile;
      out := [];
      var k, r, data := 0, Success, [];
      while true
        invariant Streaming() && ctxCur <= ctxLen && out == File()[..ctxCur]
        decreases ctxLen - ctxCur
      {
        ghost var at := ctxCur;
        r, data := Read(request(k));
        k := k + 1;
        assert File()[..ctxCur] == File()[..at] + File()[at..ctxCur];
        out := out + data;
        if data == [] {
          return;
        }
      }
    }
  }

  /**
   * A whole core dump, read with any requests that hold the headers: the core file with, at the offset of each
   * segment, the memory it announces, and together exactly the conventional memory of the range.
   */
  method DumpCore(v: Vmcore, first: u64, length: Option<u64>, regions: seq<Region>, request: nat -> nat)
    returns (r: Status, out: seq<Item>)
    requires Sorted(regions) && Disjoint(regions) && forall i :: 0 <= i < |regions| ==> regions[i].pages > 0
    requires NoneAfter(regions, first, RangeEnd(first, length)) && forall k :: request(k) >= HeaderSize(MAX_REGIONS)
    modifies v
    ensures v.start == first && v.end == RangeEnd(first, length)
    ensures var pages := first % 4096 == 0 && v.end % 4096 == 0;
            && (r == InvalidParameter <==> !pages || Kept(regions, first) == [])
            && (r == OutOfResources <==> pages && |Kept(regions, first)| + 2 > MAX_REGIONS)
    ensures r == Success ==> AllFit(v.segs) && |v.segs| < 0xFFFF && out == CoreFile(v.segs) && |out| == v.ctxLen
    ensures r == Success ==> forall a: nat :: Dumps(v.segs, a) <==> Wanted(regions, first, v.end, a)
    ensures r == Success ==> forall i :: 0 <= i < |v.segs| ==> Announced(out, v.segs[i])
  {
    hide Kept, NoneAfter, Dumps, Wanted, SegmentsOf, Tiled, CoreFile, Left, Solid, Disjoint, Sorted, AllFit;
    out := [];
    r := v.Open(first, length, regions);
    if r != Success {
      return;
    }
    SegmentsSolid(v.segs, regions, v.start, v.end);
    DumpExact(v.segs, regions, v.start, v.end);
    out := v.ReadAll(request);
    forall i | 0 <= i < |v.segs|
      ensures Announced(out, v.segs[i])
    {
      SegmentInFile(v.segs, i);
    }
  }

  /** The memory of a segment lies at its offset. */
  predicate Announced(file: seq<Item>, g: Segment) {
    g.offset + g.size <= |file| && file[g.offset..g.offset + g.size] == MemRange(g.paddr, g.size)
  }

  lemma SegmentInFile(segs: seq<Segment>, i: nat)
    requires AllFit(segs) && |segs| < 0xFFFF && Tiled(segs, HeaderSize(|segs|)) && i < |segs|
    ensures Announced(CoreFile(segs), segs[i])
  {
    hide Headers, Lits, Tiled, Memory;
    var h, g, m := HeaderSize(|segs|), segs[i], Memory(segs);
    SegmentEnds(segs, h, i);
    var part, want := m[g.offset - h..g.offset - h + g.size], MemRange(g.paddr, g.size);
    assert |want| == g.size;
    forall k | 0 <= k < g.size
      ensures part[k] == want[k]
    {
      SegmentAt(segs, h, i, k);
    }
    assert part == want;
    assert CoreFile(segs)[g.offset..g.offset + g.size] == part;
  }

  lemma {:induction false} SegmentEnds(segs: seq<Segment>, at: nat, i: nat)
    requires Tiled(segs, at) && i < |segs|
    ensures at <= segs[i].offset && segs[i].offset - at + segs[i].size <= |Memory(segs)|
    decreases i
  {
    if i > 0 {
      SegmentEnds(segs[1..], at + segs[0].size, i - 1);
    }
  }
}
