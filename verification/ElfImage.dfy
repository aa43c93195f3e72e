/**
 * What loading an ELF64 file means (libelfloader/elf64_ld.c), without reference to where it is loaded:
 * an image of placed segments and a list of 8-byte slots whose value moves with the load address.
 */
module ElfImage {
  import opened Bytes

  /** The file as it lies in memory: `load(i)` is the byte at offset `i`. */
  type Load = nat -> byte

  const PT_LOAD := 1
  const PT_DYNAMIC := 2
  const RSIZE_MAX_MEM := 0x1000_0000

  /** 64-bit arithmetic. */
  function Wrap(x: int): u64 {
    x % 0x1_0000_0000_0000_0000
  }

  function F16(load: Load, off: nat): u16 {
    U16(Part(load, off, 2), 0)
  }

  function F32(load: Load, off: nat): u32 {
    U32(Part(load, off, 4), 0)
  }

  function F64(load: Load, off: nat): u64 {
    U64(Part(load, off, 8), 0)
  }

  /** A program header. */
  datatype Phdr = Phdr(kind: u32, offset: u64, paddr: u64, filesz: u64, memsz: u64)

  /** GET_PHDR: the rows of the program header table are `e_phentsize` apart. */
  function Row(phoff: nat, entSize: nat, i: nat): nat {
    phoff + i * entSize
  }

  function PhdrAt(load: Load, at: nat): Phdr {
    Phdr(F32(load, at), F64(load, at + 8), F64(load, at + 24), F64(load, at + 32), F64(load, at + 40))
  }

  function Phdrs(load: Load): seq<Phdr> {
    seq(F16(load, 56), i requires 0 <= i => PhdrAt(load, Row(F64(load, 32), F16(load, 54), i)))
  }

  predicate Loadable(p: Phdr) {
    p.kind == PT_LOAD && p.memsz != 0
  }

  /** The first loop: lowest and highest address of the loadable segments. */
  function Low(ps: seq<Phdr>): u64 {
    if ps == [] then TWO_64 - 1
    else
      var p, l := ps[|ps| - 1], Low(ps[..|ps| - 1]);
      if Loadable(p) && p.paddr < l then p.paddr else l
  }

  function High(ps: seq<Phdr>): u64 {
    if ps == [] then 0
    else
      var p, h := ps[|ps| - 1], High(ps[..|ps| - 1]);
      if Loadable(p) && Wrap(p.paddr + p.memsz) > h then Wrap(p.paddr + p.memsz) else h
  }

  function AlignUp(x: u64): u64 {
    Wrap(x + 4095) / 4096 * 4096
  }

  /** runtime_image_size. */
  function ImageSize(ps: seq<Phdr>): u64 {
    AlignUp(Wrap(High(ps) - Low(ps)))
  }

  /** No loadable segment runs over the end of the address space. */
  predicate NoWrap(ps: seq<Phdr>) {
    forall i :: 0 <= i < |ps| && Loadable(ps[i]) ==> ps[i].paddr + ps[i].memsz < TWO_64
  }

  /** Two loadable segments share no address. */
  predicate DisjointSegments(ps: seq<Phdr>) {
    forall i, j :: 0 <= i < j < |ps| && Loadable(ps[i]) && Loadable(ps[j]) ==>
      ps[i].paddr + ps[i].memsz <= ps[j].paddr || ps[j].paddr + ps[j].memsz <= ps[i].paddr
  }

  /** The loadable segments lie in `n` bytes from `low`. */
  predicate Inside(ps: seq<Phdr>, low: nat, n: nat) {
    forall i :: 0 <= i < |ps| && Loadable(ps[i]) ==> low <= ps[i].paddr && ps[i].paddr - low + ps[i].memsz <= n
  }

  lemma {:induction false} BoundsHold(ps: seq<Phdr>)
    requires NoWrap(ps)
    ensures forall i :: 0 <= i < |ps| && Loadable(ps[i]) ==>
              Low(ps) <= ps[i].paddr && ps[i].paddr + ps[i].memsz <= High(ps)
  {
    if ps != [] {
      var init := ps[..|ps| - 1];
      BoundsHold(init);
      forall i | 0 <= i < |ps| && Loadable(ps[i])
        ensures Low(ps) <= ps[i].paddr && ps[i].paddr + ps[i].memsz <= High(ps)
      {
        if i < |init| {
          assert init[i] == ps[i];
        }
      }
    }
  }

  /** The image size holds every loadable segment. */
  lemma SegmentsInside(ps: seq<Phdr>)
    requires NoWrap(ps) && ImageSize(ps) != 0
    ensures Inside(ps, Low(ps), ImageSize(ps))
  {
    BoundsHold(ps);
    forall i | 0 <= i < |ps| && Loadable(ps[i])
      ensures Low(ps) <= ps[i].paddr && ps[i].paddr - Low(ps) + ps[i].memsz <= ImageSize(ps)
    {
      AlignedAbove(High(ps) - Low(ps));
    }
  }

  lemma AlignedAbove(x: nat)
    requires x < TWO_64 && AlignUp(x) != 0
    ensures x <= AlignUp(Wrap(x))
  {
  }

  /** Bytes of a segment taken from the file. */
  function FileSize(p: Phdr): u64 {
    if p.filesz > p.memsz then p.memsz else p.filesz
  }

  /** Its file bytes, then zeros; memset_s leaves more than RSIZE_MAX_MEM of them out. */
  function SegmentBytes(load: Load, p: Phdr): (s: seq<byte>)
    ensures |s| <= p.memsz
    ensures p.memsz - FileSize(p) <= RSIZE_MAX_MEM ==> |s| == p.memsz
  {
    var rest := p.memsz - FileSize(p);
    Part(load, p.offset, FileSize(p)) + if rest <= RSIZE_MAX_MEM then Zeros(rest) else []
  }

  /** Memory `d` once the segments are placed, the first one first. */
  function Placed(load: Load, ps: seq<Phdr>, low: nat, d: seq<byte>): (r: seq<byte>)
    requires Inside(ps, low, |d|)
    ensures |r| == |d|
  {
    if ps == [] then d
    else
      var p := ps[|ps| - 1];
      var q := Placed(load, ps[..|ps| - 1], low, d);
      if Loadable(p) then Splice(q, p.paddr - low, SegmentBytes(load, p)) else q
  }

  /** Disjoint segments all show in the image, each at its shifted address. */
  lemma {:induction false} PlacedSegment(load: Load, ps: seq<Phdr>, low: nat, d: seq<byte>, k: nat)
    requires Inside(ps, low, |d|) && DisjointSegments(ps) && k < |ps| && Loadable(ps[k])
    ensures var at, b := ps[k].paddr - low, SegmentBytes(load, ps[k]);
            Placed(load, ps, low, d)[at..at + |b|] == b
  {
    hide Splice, SegmentBytes;
    var n := |ps| - 1;
    var init := ps[..n];
    SegmentsInit(ps, low, |d|, k);
    hide Inside, DisjointSegments;
    var q := Placed(load, init, low, d);
    var at, b := ps[k].paddr - low, SegmentBytes(load, ps[k]);
    if Loadable(ps[n]) {
      SpliceAt(q, ps[n].paddr - low, SegmentBytes(load, ps[n]), at, at + |b|);
    }
    if k < n {
      PlacedSegment(load, init, low, d, k);
    }
  }

  lemma SegmentsInit(ps: seq<Phdr>, low: nat, n: nat, k: nat)
    requires Inside(ps, low, n) && DisjointSegments(ps) && k < |ps| && Loadable(ps[k])
    ensures Inside(ps[..|ps| - 1], low, n) && DisjointSegments(ps[..|ps| - 1])
    ensures low <= ps[k].paddr && ps[k].paddr - low + ps[k].memsz <= n
    ensures var p := ps[|ps| - 1];
            Loadable(p) ==>
              && low <= p.paddr && p.paddr - low + p.memsz <= n
              && (k < |ps| - 1 ==> ps[k].paddr + ps[k].memsz <= p.paddr || p.paddr + p.memsz <= ps[k].paddr)
  {
  }

  /** Nothing else is written. */
  lemma {:induction false} PlacedElsewhere(load: Load, ps: seq<Phdr>, low: nat, d: seq<byte>, x: nat)
    requires Inside(ps, low, |d|) && x < |d|
    requires forall i :: 0 <= i < |ps| && Loadable(ps[i]) ==>
               x < ps[i].paddr - low || ps[i].paddr - low + |SegmentBytes(load, ps[i])| <= x
    ensures Placed(load, ps, low, d)[x] == d[x]
  {
    if ps != [] {
      PlacedElsewhere(load, ps[..|ps| - 1], low, d, x);
    }
  }

  /** The memory of a segment past its file bytes is zero, unless it is too long for memset_s: then it is as before. */
  lemma BssExact(load: Load, ps: seq<Phdr>, low: nat, d: seq<byte>, k: nat, x: nat)
    requires Inside(ps, low, |d|) && DisjointSegments(ps) && k < |ps| && Loadable(ps[k])
    requires ps[k].paddr - low + FileSize(ps[k]) <= x < ps[k].paddr - low + ps[k].memsz
    ensures Placed(load, ps, low, d)[x] == if ps[k].memsz - FileSize(ps[k]) <= RSIZE_MAX_MEM then 0 else d[x]
  {
    hide Placed;
    var at, b := ps[k].paddr - low, SegmentBytes(load, ps[k]);
    if ps[k].memsz - FileSize(ps[k]) <= RSIZE_MAX_MEM {
      PlacedSegment(load, ps, low, d, k);
      assert Placed(load, ps, low, d)[x] == Placed(load, ps, low, d)[at..at + |b|][x - at];
    } else {
      forall i | 0 <= i < |ps| && Loadable(ps[i])
        ensures x < ps[i].paddr - low || ps[i].paddr - low + |SegmentBytes(load, ps[i])| <= x
      {
        assert i < k || i == k || k < i;
      }
      PlacedElsewhere(load, ps, low, d, x);
    }
  }

  /** A file of one program header: its byte 64 is loaded at address 0, into `memsz` bytes. */
  function TinyFile(memsz: u64): (s: seq<byte>)
    ensures |s| == 120
  {
    Zeros(32) + LE64(64) + Zeros(14) + LE16(56) + LE16(1) + Zeros(6)
    + LE32(PT_LOAD) + LE32(0) + LE64(64) + LE64(0) + LE64(0) + LE64(1) + LE64(memsz) + LE64(0)
  }

  function TinyLoad(memsz: u64): Load {
    var s := TinyFile(memsz);
    i => if 0 <= i < 120 then s[i] else 0
  }

  lemma TinyField(memsz: u64, off: nat, n: nat)
    requires off + n <= 120
    ensures Part(TinyLoad(memsz), off, n) == TinyFile(memsz)[off..off + n]
  {
  }

  lemma TinyHeader(memsz: u64)
    ensures var load := TinyLoad(memsz); F64(load, 32) == 64 && F16(load, 54) == 56 && F16(load, 56) == 1
  {
    hide Encode, Word;
    var s := TinyFile(memsz);
    TinyField(memsz, 32, 8);
    TinyField(memsz, 54, 2);
    TinyField(memsz, 56, 2);
    assert s[32..40] == LE64(64) && s[54..56] == LE16(56) && s[56..58] == LE16(1);
    EncodedField64(64);
    EncodedFields(56);
    EncodedFields(1);
  }

  lemma TinyRow(memsz: u64)
    ensures PhdrAt(TinyLoad(memsz), 64) == Phdr(PT_LOAD, 64, 0, 1, memsz)
  {
    hide F32, F64, TinyLoad;
    TinyPlace(memsz);
    TinySizes(memsz);
  }

  lemma TinyPlace(memsz: u64)
    ensures var load := TinyLoad(memsz); F32(load, 64) == PT_LOAD && F64(load, 72) == 64 && F64(load, 88) == 0
  {
    hide Encode, Word;
    var s := TinyFile(memsz);
    TinyField(memsz, 64, 4);
    TinyField(memsz, 72, 8);
    TinyField(memsz, 88, 8);
    assert s[64..68] == LE32(PT_LOAD) && s[72..80] == LE64(64) && s[88..96] == LE64(0);
    EncodedFields(PT_LOAD);
    EncodedField64(0);
    EncodedField64(64);
  }

  lemma TinySizes(memsz: u64)
    ensures F64(TinyLoad(memsz), 96) == 1 && F64(TinyLoad(memsz), 104) == memsz
  {
    hide Encode, Word;
    var s := TinyFile(memsz);
    TinyField(memsz, 96, 8);
    TinyField(memsz, 104, 8);
    assert s[96..104] == LE64(1) && s[104..112] == LE64(memsz);
    EncodedField64(1);
    EncodedField64(memsz);
  }

  lemma TinyTable(memsz: u64)
    ensures Phdrs(TinyLoad(memsz)) == [Phdr(PT_LOAD, 64, 0, 1, memsz)]
  {
    hide TinyLoad, F16, F64, PhdrAt;
    TinyHeader(memsz);
    TinyRow(memsz);
    assert Row(64, 56, 0) == 64;
  }

  /** Eight bytes at `at` whose value is `base` plus the load address. */
  datatype Slot = Slot(at: nat, base: u64)

  predicate Hits(s: Slot, at: nat, n: nat) {
    s.at < at + n && at < s.at + 8
  }

  predicate Misses(slots: seq<Slot>, at: nat, n: nat) {
    forall i :: 0 <= i < |slots| ==> !Hits(slots[i], at, n)
  }

  /** The slots lie in `n` bytes. */
  predicate Fit(slots: seq<Slot>, n: nat) {
    forall i :: 0 <= i < |slots| ==> slots[i].at + 8 <= n
  }

  /** The slots lie in `n` bytes and share none. */
  predicate Apart(slots: seq<Slot>, n: nat) {
    && Fit(slots, n)
    && (forall i, j :: 0 <= i < j < |slots| ==> !Hits(slots[i], slots[j].at, 8))
  }

  /** The image `d` with its slots filled for the load address `rt`. */
  function Patched(d: seq<byte>, slots: seq<Slot>, rt: nat): (r: seq<byte>)
    requires Fit(slots, |d|)
    ensures |r| == |d|
  {
    if slots == [] then d
    else
      var s := slots[|slots| - 1];
      Splice(Patched(d, slots[..|slots| - 1], rt), s.at, LE64(Wrap(s.base + rt)))
  }

  /** Bytes no slot holds stay as they are. */
  lemma {:induction false} PatchedMisses(d: seq<byte>, slots: seq<Slot>, rt: nat, at: nat, n: nat)
    requires Fit(slots, |d|)
    requires Misses(slots, at, n) && at + n <= |d| && 0 < n
    ensures Patched(d, slots, rt)[at..at + n] == d[at..at + n]
  {
    hide Splice, Wrap, Patched, Hits, Encode;
    if slots == [] {
      NonePatched(d, rt);
    } else {
      var init, s := slots[..|slots| - 1], slots[|slots| - 1];
      PatchedLast(d, slots, rt);
      PatchedMisses(d, init, rt, at, n);
      HitsNot(s, at, n);
      SpliceAt(Patched(d, init, rt), s.at, LE64(Wrap(s.base + rt)), at, at + n);
    }
  }

  lemma NonePatched(d: seq<byte>, rt: nat)
    ensures Fit([], |d|) && Patched(d, [], rt) == d
  {
  }

  /** A stored word is read back, and the words apart from it are kept. */
  lemma StoreField(d: seq<byte>, at: nat, v: u64, off: nat)
    requires at + 8 <= |d| && off + 8 <= |d|
    ensures U64(Splice(d, at, LE64(v)), at) == v
    ensures off + 8 <= at || at + 8 <= off ==> U64(Splice(d, at, LE64(v)), off) == U64(d, off)
  {
    SpliceAt(d, at, LE64(v), off, off + 8);
    EncodedField64(v);
    assert LE64(v)[0..8] == LE64(v);
  }

  lemma ApartInit(slots: seq<Slot>, n: nat)
    requires Apart(slots, n) && slots != []
    ensures Apart(slots[..|slots| - 1], n) && slots[|slots| - 1].at + 8 <= n
    ensures forall k :: 0 <= k < |slots| - 1 ==> !Hits(slots[k], slots[|slots| - 1].at, 8)
  {
  }

  /** A slot holds its base plus the load address. */
  lemma {:induction false} PatchedSlot(d: seq<byte>, slots: seq<Slot>, rt: nat, k: nat)
    requires Apart(slots, |d|) && k < |slots|
    ensures U64(Patched(d, slots, rt), slots[k].at) == Wrap(slots[k].base + rt)
  {
    hide Wrap, U64, LE64, Splice, Apart, Patched, Hits, Fit;
    var n := |slots| - 1;
    var init, s := slots[..n], slots[n];
    ApartInit(slots, |d|);
    FitAt(slots, |d|, k);
    PatchedLast(d, slots, rt);
    StoreField(Patched(d, init, rt), s.at, Wrap(s.base + rt), slots[k].at);
    if k < n {
      HitsNot(slots[k], s.at, 8);
      PatchedSlot(d, init, rt, k);
    }
  }

  lemma FitAt(slots: seq<Slot>, n: nat, k: nat)
    requires Apart(slots, n) && k < |slots|
    ensures Fit(slots, n) && slots[k].at + 8 <= n
  {
  }

  lemma HitsNot(s: Slot, at: nat, n: nat)
    requires !Hits(s, at, n)
    ensures at + n <= s.at || s.at + 8 <= at
  {
  }

  /** The last slot is filled last. */
  lemma PatchedLast(d: seq<byte>, slots: seq<Slot>, rt: nat)
    requires slots != [] && Fit(slots, |d|)
    ensures var init, s := slots[..|slots| - 1], slots[|slots| - 1];
            Fit(init, |d|) && s.at + 8 <= |d|
            && Patched(d, slots, rt) == Splice(Patched(d, init, rt), s.at, LE64(Wrap(s.base + rt)))
  {
    hide Splice, LE64, Wrap;
  }

  /** Two load addresses: the images differ in the slots alone, and there by the distance of the addresses. */
  lemma PatchedTwice(d: seq<byte>, slots: seq<Slot>, a: nat, b: nat)
    requires Apart(slots, |d|)
    ensures var x, y := Patched(d, slots, a), Patched(d, slots, b);
            && (forall k :: 0 <= k < |slots| ==> U64(y, slots[k].at) == Wrap(U64(x, slots[k].at) + (b - a)))
            && (forall i :: 0 <= i < |d| && Misses(slots, i, 1) ==> x[i] == y[i])
  {
    hide Patched, U64, Wrap;
    var x, y := Patched(d, slots, a), Patched(d, slots, b);
    forall k | 0 <= k < |slots|
      ensures U64(y, slots[k].at) == Wrap(U64(x, slots[k].at) + (b - a))
    {
      PatchedSlot(d, slots, a, k);
      PatchedSlot(d, slots, b, k);
      WrapMoves(slots[k].base, a, b);
    }
    forall i | 0 <= i < |d| && Misses(slots, i, 1)
      ensures x[i] == y[i]
    {
      PatchedMisses(d, slots, a, i, 1);
      PatchedMisses(d, slots, b, i, 1);
      assert x[i..i + 1][0] == y[i..i + 1][0];
    }
  }

  lemma WrapSmall(x: nat)
    ensures x < TWO_64 ==> Wrap(x) == x
  {
  }

  lemma WrapMoves(base: nat, a: nat, b: nat)
    ensures Wrap(Wrap(base + a) + (b - a)) == Wrap(base + b)
  {
  }

  /** Both ways to add a relocation offset agree. */
  lemma WrapShifts(x: nat, rt: nat, low: nat)
    ensures Wrap(x + Wrap(rt - low)) == Wrap(Wrap(x - low) + rt)
  {
  }

  /** The address of an image offset. */
  lemma ShiftedAddress(x: nat, rt: nat, low: nat, total: nat)
    requires rt + total < TWO_64
    ensures Wrap(x - low) < total ==> Wrap(x + Wrap(rt - low)) == rt + Wrap(x - low)
  {
    WrapShifts(x, rt, low);
  }

  /** The slots of a row of the program header table: p_paddr, then p_vaddr, unless the segment is empty. */
  function RowSlots(d: seq<byte>, low: nat, at: nat): seq<Slot>
    requires at + 48 <= |d|
  {
    if U64(d, at + 40) == 0 then []
    else [Slot(at + 24, Wrap(U64(d, at + 24) - low)), Slot(at + 16, Wrap(U64(d, at + 16) - low))]
  }

  /** The header of the image lies in it with the first `n` rows of its program header table. */
  predicate RowsFit(d: seq<byte>, n: nat) {
    |d| >= 64 && forall i :: 0 <= i < n ==> Row(U64(d, 32), U16(d, 54), i) + 48 <= |d|
  }

  /** elf64_update_segment_table moves the first `n` rows. */
  function TableSlots(d: seq<byte>, low: nat, n: nat): seq<Slot>
    requires RowsFit(d, n)
  {
    if n == 0 then []
    else TableSlots(d, low, n - 1) + RowSlots(d, low, Row(U64(d, 32), U16(d, 54), n - 1))
  }

  const RELA_SIZE := 24
  const SYM_SIZE := 24

  /** The entries of a relocation table are 24 bytes apart. */
  function Entry(rela: nat, i: nat): nat {
    rela + 24 * i
  }

  /** The symbol a relocation refers to. */
  function SymbolAt(d: seq<byte>, at: nat, sym: nat): nat
    requires at + 24 <= |d|
  {
    sym + 24 * (U64(d, at + 8) / 0x1_0000_0000)
  }

  predicate UsesSymbol(d: seq<byte>, at: nat)
    requires at + 24 <= |d|
  {
    U64(d, at + 8) % 256 == 1 || U64(d, at + 8) % 256 == 10
  }

  predicate Supported(d: seq<byte>, at: nat)
    requires at + 24 <= |d|
  {
    UsesSymbol(d, at) || U64(d, at + 8) % 256 == 8 || U64(d, at + 8) % 256 == 0
  }

  /** The slot of the relocation at `at`: its addend, plus its symbol for R_X86_64_64 and R_X86_64_32. */
  function RelaSlot(d: seq<byte>, low: nat, at: nat, sym: nat): seq<Slot>
    requires at + 24 <= |d| && (UsesSymbol(d, at) ==> SymbolAt(d, at, sym) + 16 <= |d|)
  {
    var target, addend := Wrap(U64(d, at) - low), U64(d, at + 16);
    if UsesSymbol(d, at) then [Slot(target, Wrap(addend + U64(d, SymbolAt(d, at, sym) + 8) - low))]
    else if U64(d, at + 8) % 256 == 8 then [Slot(target, Wrap(addend - low))]
    else []
  }

  /** The first `n` relocations at `rela` lie in the image with the symbols they use. */
  predicate RelaFit(d: seq<byte>, rela: nat, sym: nat, n: nat) {
    && Entry(rela, n) <= |d|
    && forall i :: 0 <= i < n && UsesSymbol(d, Entry(rela, i)) ==> SymbolAt(d, Entry(rela, i), sym) + 16 <= |d|
  }

  function RelaSlots(d: seq<byte>, low: nat, rela: nat, sym: nat, n: nat): seq<Slot>
    requires RelaFit(d, rela, sym, n)
  {
    if n == 0 then []
    else RelaSlots(d, low, rela, sym, n - 1) + RelaSlot(d, low, Entry(rela, n - 1), sym)
  }

  /** The reads of elf64_update_segment_table miss every slot. */
  predicate TableClean(d: seq<byte>, slots: seq<Slot>) {
    && |d| >= 64 && RowsFit(d, U16(d, 56))
    && Misses(slots, 32, 8) && Misses(slots, 54, 4)
    && forall i :: 0 <= i < U16(d, 56) ==> Misses(slots, Row(U64(d, 32), U16(d, 54), i) + 40, 8)
  }

  /** The reads of elf64_update_rela_section miss every slot. */
  predicate RelaClean(d: seq<byte>, rela: nat, sym: nat, n: nat, slots: seq<Slot>) {
    && RelaFit(d, rela, sym, n) && rela < |d| && sym < |d|
    && Misses(slots, rela, 24 * n)
    && forall i :: 0 <= i < n && UsesSymbol(d, Entry(rela, i)) ==>
         Misses(slots, SymbolAt(d, Entry(rela, i), sym) + 8, 8)
  }

  /** What a partly patched image still holds. */
  lemma Untouched(d: seq<byte>, slots: seq<Slot>, q: seq<Slot>, rt: nat, at: nat)
    requires q <= slots && Fit(slots, |d|) && Misses(slots, at, 8) && at + 8 <= |d|
    ensures Fit(q, |d|) && U64(Patched(d, q, rt), at) == U64(d, at)
  {
    PatchedMisses(d, q, rt, at, 8);
  }

  lemma MissesNext(d: seq<byte>, q: seq<Slot>, rt: nat, at: nat)
    requires Fit(q, |d|) && Misses(q, at, 8) && at + 8 <= |d|
    ensures U64(Patched(d, q, rt), at) == U64(d, at)
  {
    PatchedMisses(d, q, rt, at, 8);
  }

  /** The next slot still holds what the image held, and filling it is one more patch. */
  lemma NextSlot(d: seq<byte>, slots: seq<Slot>, q: seq<Slot>, s: Slot, rt: nat)
    requires q + [s] <= slots && Apart(slots, |d|)
    ensures Fit(q + [s], |d|) && Fit(q, |d|) && s.at + 8 <= |d|
    ensures U64(Patched(d, q, rt), s.at) == U64(d, s.at)
    ensures Patched(d, q + [s], rt) == Splice(Patched(d, q, rt), s.at, LE64(Wrap(s.base + rt)))
  {
    hide U64, LE64, Wrap;
    var k := |q|;
    assert slots[k] == (q + [s])[k] == s;
    forall i | 0 <= i < k
      ensures q[i] == slots[i] && !Hits(q[i], s.at, 8)
    {
      assert (q + [s])[i] == q[i];
    }
    MissesNext(d, q, rt, s.at);
    assert (q + [s])[..k] == q;
  }

  /** A row of the table once its addresses are moved. */
  function MovedRow(m: seq<byte>, at: nat, reloc: u64): (r: seq<byte>)
    requires at + 48 <= |m|
    ensures |r| == |m|
  {
    if U64(m, at + 40) == 0 then m
    else
      var x := Splice(m, at + 24, LE64(Wrap(U64(m, at + 24) + reloc)));
      Splice(x, at + 16, LE64(Wrap(U64(x, at + 16) + reloc)))
  }

  /** A word of the image moved by the relocation offset fills its slot. */
  lemma MoveWord(d: seq<byte>, low: nat, slots: seq<Slot>, q: seq<Slot>, at: nat, rt: nat, s: Slot)
    requires q + [s] <= slots && Apart(slots, |d|)
    requires at + 8 <= |d| && s == Slot(at, Wrap(U64(d, at) - low))
    ensures Fit(q, |d|) && Fit(q + [s], |d|)
    ensures var m := Patched(d, q, rt);
            Splice(m, at, LE64(Wrap(U64(m, at) + Wrap(rt - low)))) == Patched(d, q + [s], rt)
  {
    hide U64, LE64, Wrap, Splice, Patched, Apart, Fit;
    NextSlot(d, slots, q, s, rt);
    WrapShifts(U64(d, at), rt, low);
  }

  lemma RowStep(d: seq<byte>, low: nat, slots: seq<Slot>, q: seq<Slot>, at: nat, rt: nat)
    requires at + 48 <= |d| && Apart(slots, |d|) && q + RowSlots(d, low, at) <= slots && Misses(slots, at + 40, 8)
    ensures Fit(q, |d|) && Fit(q + RowSlots(d, low, at), |d|)
    ensures MovedRow(Patched(d, q, rt), at, Wrap(rt - low)) == Patched(d, q + RowSlots(d, low, at), rt)
  {
    hide U64, LE64, Wrap, Splice, Patched, Misses;
    Prefix(slots, q, RowSlots(d, low, at));
    Untouched(d, slots, q, rt, at + 40);
    if U64(d, at + 40) == 0 {
      assert q + [] == q;
    } else {
      hide Apart, Fit;
      var s, t := RowSlots(d, low, at)[0], RowSlots(d, low, at)[1];
      assert q + [s, t] == (q + [s]) + [t];
      Prefix(slots, q + [s], [t]);
      MoveWord(d, low, slots, q, at + 24, rt, s);
      MoveWord(d, low, slots, q + [s], at + 16, rt, t);
    }
  }

  /** A relocation entry is still as the file gave it. */
  lemma EntryKept(d: seq<byte>, rela: nat, n: nat, i: nat, slots: seq<Slot>, q: seq<Slot>, rt: nat)
    requires q <= slots && Fit(slots, |d|) && i < n && Entry(rela, n) <= |d| && Misses(slots, rela, 24 * n)
    ensures Fit(q, |d|)
    ensures var at, m := Entry(rela, i), Patched(d, q, rt);
            U64(m, at) == U64(d, at) && U64(m, at + 8) == U64(d, at + 8) && U64(m, at + 16) == U64(d, at + 16)
  {
    hide U64, Patched;
    var at := Entry(rela, i);
    Untouched(d, slots, q, rt, at);
    Untouched(d, slots, q, rt, at + 8);
    Untouched(d, slots, q, rt, at + 16);
  }

  /** A relative relocation fills its slot. */
  lemma RelativeStep(d: seq<byte>, low: nat, slots: seq<Slot>, q: seq<Slot>, s: Slot, addend: u64, rt: nat)
    requires q + [s] <= slots && Apart(slots, |d|) && s.base == Wrap(addend - low)
    ensures Fit(q, |d|) && Fit(q + [s], |d|) && s.at + 8 <= |d|
    ensures Splice(Patched(d, q, rt), s.at, LE64(Wrap(addend + Wrap(rt - low)))) == Patched(d, q + [s], rt)
  {
    hide U64, LE64, Wrap, Splice, Patched, Apart, Fit;
    NextSlot(d, slots, q, s, rt);
    WrapShifts(addend, rt, low);
  }

  /** A relocation with a symbol fills its slot in two stores. */
  lemma SymbolStep(d: seq<byte>, low: nat, slots: seq<Slot>, q: seq<Slot>, s: Slot, addend: u64, symbol: nat, rt: nat)
    requires q + [s] <= slots && Apart(slots, |d|) && symbol + 8 <= |d| && Misses(slots, symbol, 8)
    requires s.base == Wrap(addend + U64(d, symbol) - low)
    ensures Fit(q, |d|) && Fit(q + [s], |d|) && s.at + 8 <= |d|
    ensures var x := Splice(Patched(d, q, rt), s.at, LE64(Wrap(addend + Wrap(rt - low))));
            Splice(x, s.at, LE64(Wrap(U64(x, s.at) + U64(x, symbol)))) == Patched(d, q + [s], rt)
  {
    hide U64, Encode, Wrap, Splice, Patched, Apart, Fit, Misses;
    SymbolKept(d, slots, q, s, symbol, rt);
    NextSlot(d, slots, q, s, rt);
    var m, v := Patched(d, q, rt), Wrap(addend + Wrap(rt - low));
    StoreField(m, s.at, v, symbol);
    WrapTwice(addend, U64(d, symbol), rt, low);
    SpliceTwice(m, s.at, LE64(v), LE64(Wrap(v + U64(d, symbol))));
  }

  lemma SymbolKept(d: seq<byte>, slots: seq<Slot>, q: seq<Slot>, s: Slot, symbol: nat, rt: nat)
    requires q + [s] <= slots && Apart(slots, |d|) && symbol + 8 <= |d| && Misses(slots, symbol, 8)
    ensures Fit(q, |d|) && !Hits(s, symbol, 8) && U64(Patched(d, q, rt), symbol) == U64(d, symbol)
  {
    Prefix(slots, q, [s]);
    assert slots[|q|] == (q + [s])[|q|] == s;
    Untouched(d, slots, q, rt, symbol);
  }

  lemma WrapTwice(addend: nat, value: nat, rt: nat, low: nat)
    ensures Wrap(Wrap(addend + Wrap(rt - low)) + value) == Wrap(Wrap(addend + value - low) + rt)
  {
  }

  lemma SpliceTwice(d: seq<byte>, at: nat, x: seq<byte>, y: seq<byte>)
    requires |x| == |y| && at + |x| <= |d|
    ensures Splice(Splice(d, at, x), at, y) == Splice(d, at, y)
  {
  }

  lemma {:induction false} TablePrefix(d: seq<byte>, low: nat, i: nat, n: nat)
    requires i <= n && RowsFit(d, n)
    ensures TableSlots(d, low, i) <= TableSlots(d, low, n)
    decreases n - i
  {
    hide U64, U16, RowSlots;
    if i < n {
      TablePrefix(d, low, i + 1, n);
      Prefix(TableSlots(d, low, n), TableSlots(d, low, i), RowSlots(d, low, Row(U64(d, 32), U16(d, 54), i)));
    }
  }

  lemma {:induction false} RelaPrefix(d: seq<byte>, low: nat, rela: nat, sym: nat, i: nat, n: nat)
    requires i <= n && RelaFit(d, rela, sym, n) && RelaFit(d, rela, sym, i)
    ensures RelaSlots(d, low, rela, sym, i) <= RelaSlots(d, low, rela, sym, n)
    decreases n - i
  {
    hide U64, RelaSlot;
    if i < n {
      RelaPrefix(d, low, rela, sym, i + 1, n);
      var x, y := RelaSlots(d, low, rela, sym, i), RelaSlot(d, low, Entry(rela, i), sym);
      assert RelaSlots(d, low, rela, sym, i + 1) == x + y;
      Prefix(RelaSlots(d, low, rela, sym, n), x, y);
    }
  }

  lemma Prefix<T>(s: seq<T>, x: seq<T>, y: seq<T>)
    requires x + y <= s
    ensures x <= s
  {
    assert forall i :: 0 <= i < |x| ==> (x + y)[i] == s[i];
  }
}
