/** The ELF64 loader (libelfloader/elf64_ld.c, libelfloader/elf_ld.c) over the memory it loads into. */
module Elf64 {
  import opened Bytes
  import opened ElfImage

  /** `Wild` stands for an access outside the memory given to the loader, which the code does not rule out. */
  datatype Step = Ok | Rejected | Wild

  /** image_offset accepts these bytes of a file of `size` bytes. */
  predicate InFile(off: nat, n: nat, size: nat) {
    off < Wrap(off + n) <= size
  }

  /** Every loadable segment has its bytes in the file. */
  predicate AllInFile(ps: seq<Phdr>, size: nat) {
    forall i :: 0 <= i < |ps| && Loadable(ps[i]) ==> InFile(ps[i].offset, FileSize(ps[i]), size)
  }

  /** The segment that carries the ELF header, the last one when there are several. */
  function HeaderAddress(ps: seq<Phdr>): Option<u64> {
    if ps == [] then None
    else
      var p := ps[|ps| - 1];
      if Loadable(p) && p.offset == 0 then Some(p.paddr) else HeaderAddress(ps[..|ps| - 1])
  }

  /** The dynamic segment, the last one when there are several. */
  function DynamicSegment(ps: seq<Phdr>): Option<Phdr> {
    if ps == [] then None
    else
      var p := ps[|ps| - 1];
      if p.kind == PT_DYNAMIC then Some(p) else DynamicSegment(ps[..|ps| - 1])
  }

  const DT_SYMTAB := 6
  const DT_RELA := 7
  const DT_RELASZ := 8
  const DT_RELAENT := 9
  const DT_SYMENT := 11
  const DT_RELSZ := 18
  const ET_DYN := 3

  /** The entries of the dynamic segment the loader looks at; the last one of a tag counts. */
  datatype Dynamic = Dynamic(rela: Option<u64>, relaSize: u64, relaEnt: u64, sym: Option<u64>, symEnt: u64)

  function DynamicOf(load: Load, off: nat, n: nat): Dynamic {
    if n == 0 then Dynamic(None, 0, 0, None, 0)
    else
      var t := DynamicOf(load, off, n - 1);
      var tag, val := F64(load, off + 16 * (n - 1)), F64(load, off + 16 * (n - 1) + 8);
      if tag == DT_RELA then t.(rela := Some(val))
      else if tag == DT_RELASZ || tag == DT_RELSZ then t.(relaSize := val)
      else if tag == DT_RELAENT then t.(relaEnt := val)
      else if tag == DT_SYMTAB then t.(sym := Some(val))
      else if tag == DT_SYMENT then t.(symEnt := val)
      else t
  }

  /** Where the image has a table; zero stands for none. */
  function Moved(address: Option<u64>, reloc: u64): u64 {
    match address
    case None => 0
    case Some(x) => Wrap(x + reloc)
  }

  /** The relocations of a file: none, a fault, or `n` of them at offset `rela` with symbols at offset `sym`. */
  datatype Plan = NoTable | Fault | Table(rela: nat, sym: nat, n: nat)

  function RelaPlan(load: Load, size: nat, low: nat): Plan {
    match DynamicSegment(Phdrs(load))
    case None => NoTable
    case Some(p) =>
      var t := DynamicOf(load, p.offset, p.filesz / 16);
      if !InFile(p.offset, p.filesz, size) then Fault
      else if t.rela == None || t.relaSize == 0 || t.sym == None || t.relaEnt != RELA_SIZE || t.symEnt != SYM_SIZE then
        if F16(load, 16) == ET_DYN then NoTable else Fault
      else Table(Wrap(t.rela.value - low), Wrap(t.sym.value - low), t.relaSize / 24)
  }

  predicate AllSupported(d: seq<byte>, rela: nat, n: nat)
    requires Entry(rela, n) <= |d|
  {
    forall i :: 0 <= i < n ==> Supported(d, Entry(rela, i))
  }

  /** The slots filled once `i` relocations of `t` are made after the slots `q`. */
  function Filled(d: seq<byte>, low: nat, t: Plan, q: seq<Slot>, i: nat): seq<Slot>
    requires t.Table? && RelaFit(d, t.rela, t.sym, i)
  {
    q + RelaSlots(d, low, t.rela, t.sym, i)
  }

  /** The relocations of `t` can be made after the slots `q`: their slots complete `slots`, and no slot is read. */
  predicate Movable(d: seq<byte>, low: nat, t: Plan, q: seq<Slot>, slots: seq<Slot>) {
    && t.Table? && RelaClean(d, t.rela, t.sym, t.n, slots) && Apart(slots, |d|)
    && Filled(d, low, t, q, t.n) == slots
  }

  predicate Relocatable(d: seq<byte>, low: nat, t: Plan, q: seq<Slot>, slots: seq<Slot>, rt: nat, m: seq<byte>) {
    Movable(d, low, t, q, slots) && Fit(q, |d|) && m == Patched(d, q, rt)
  }

  /** The ELF header is part of the image; an address of all ones stands for no such segment. */
  predicate HasHeader(load: Load) {
    var header := HeaderAddress(Phdrs(load));
    header.Some? && header.value != TWO_64 - 1
  }

  /** The memory `d` once the segments of the file are placed, before anything is moved. */
  ghost function Image(load: Load, d: seq<byte>): (r: seq<byte>)
    requires Inside(Phdrs(load), Low(Phdrs(load)), |d|)
    ensures |r| == |d|
  {
    Placed(load, Phdrs(load), Low(Phdrs(load)), d)
  }

  /** The slots of the segment table of an image. */
  ghost function HeaderSlots(load: Load, d: seq<byte>): seq<Slot>
    requires HasHeader(load) ==> |d| >= 64 && RowsFit(d, U16(d, 56))
  {
    if HasHeader(load) then TableSlots(d, Low(Phdrs(load)), U16(d, 56)) else []
  }

  /** The tables of the image `d` lie in it. */
  ghost predicate TablesFit(load: Load, size: nat, d: seq<byte>) {
    var t := RelaPlan(load, size, Low(Phdrs(load)));
    && |d| >= 64 && (HasHeader(load) ==> RowsFit(d, U16(d, 56)))
    && (t.Table? ==> RelaFit(d, t.rela, t.sym, t.n))
  }

  /** All that moves with the load address. */
  ghost function Slots(load: Load, size: nat, d: seq<byte>): seq<Slot>
    requires TablesFit(load, size, d)
  {
    var t := RelaPlan(load, size, Low(Phdrs(load)));
    HeaderSlots(load, d) + if t.Table? then RelaSlots(d, Low(Phdrs(load)), t.rela, t.sym, t.n) else []
  }

  /** The slots of the image `d` are apart and the tables the loader reads have none in them. */
  ghost predicate Regular(load: Load, size: nat, d: seq<byte>) {
    var t := RelaPlan(load, size, Low(Phdrs(load)));
    && TablesFit(load, size, d) && Apart(Slots(load, size, d), |d|)
    && (HasHeader(load) ==> TableClean(d, Slots(load, size, d)))
    && (t.Table? ==> RelaClean(d, t.rela, t.sym, t.n, Slots(load, size, d)))
  }

  /** The checks on the file and the memory size, before anything is written. */
  predicate HeadersAccepted(load: Load, size: nat, total: nat) {
    && InFile(0, 64, size) && InFile(F64(load, 32), 56 * F16(load, 56), size) && F16(load, 56) != 0xFFFF
    && Low(Phdrs(load)) % 4096 == 0 && 0 < ImageSize(Phdrs(load)) <= total
  }

  /** The checks made while loading, on the image `d`. */
  ghost predicate ImageAccepted(load: Load, size: nat, d: seq<byte>)
    requires TablesFit(load, size, d)
  {
    var t := RelaPlan(load, size, Low(Phdrs(load)));
    && AllInFile(Phdrs(load), size) && !t.Fault?
    && (HasHeader(load) ==> HeaderAddress(Phdrs(load)) == Some(Low(Phdrs(load))))
    && (t.Table? ==> AllSupported(d, t.rela, t.n))
  }

  datatype Outcome = Loaded(entry: u64) | NotLoaded(why: Step)

  class Loader {
    const load: Load
    const size: nat
    const rt: nat
    const mem: array<byte>
    var imageSize: nat

    /** The memory lies inside the address space, not at zero. */
    ghost predicate Valid()
      reads this
    {
      0 < rt && rt + mem.Length < TWO_64 && imageSize <= mem.Length
    }

    constructor (load: Load, size: nat, rt: nat, mem: array<byte>)
      requires 0 < rt && rt + mem.Length < TWO_64
      ensures Valid() && this.load == load && this.size == size && this.rt == rt && this.mem == mem
    {
      this.load, this.size, this.rt, this.mem, imageSize := load, size, rt, mem, 0;
    }

    /** The offset of `n` bytes at an address. */
    function Locate(address: nat, n: nat): (r: Option<nat>)
      ensures r.Some? <==> rt <= address <= address + n <= rt + mem.Length
      ensures r.Some? ==> rt + r.value == address
    {
      if rt <= address && address + n <= rt + mem.Length then Some(address - rt) else None
    }

    method Write(at: nat, x: seq<byte>)
      requires at + |x| <= mem.Length
      modifies mem
      ensures mem[..] == Splice(old(mem[..]), at, x)
    {
      forall i | 0 <= i < |x| {
        mem[at + i] := x[i];
      }
    }

    /** image_copy. */
    method ImageCopy(dest: u64, off: u64, n: u64) returns (r: Step)
      requires Valid()
      modifies mem
      ensures r != Ok ==> mem[..] == old(mem[..])
      ensures !InFile(off, n, size) || dest < rt || Wrap(dest + n) > rt + imageSize <==> r == Rejected
      ensures r == Ok ==> Locate(dest, n).Some? && mem[..] == Splice(old(mem[..]), dest - rt, Part(load, off, n))
      ensures InFile(off, n, size) && rt <= dest && dest + n <= rt + imageSize ==> r == Ok
    {
      if !InFile(off, n, size) {
        return Rejected;
      }
      if dest < rt || Wrap(dest + n) > rt + imageSize {
        return Rejected;
      }
      var at := Locate(dest, n);
      if at == None {
        return Wild;
      }
      Write(at.value, Part(load, off, n));
      r := Ok;
    }

    /** memset_s over the rest of a segment. */
    method ZeroFill(dest: u64, n: nat) returns (r: Step)
      requires Valid()
      modifies mem
      ensures r != Rejected && (r == Wild ==> mem[..] == old(mem[..]))
      ensures 0 == n || n > RSIZE_MAX_MEM ==> r == Ok && mem[..] == old(mem[..])
      ensures 0 < n <= RSIZE_MAX_MEM ==> (r == Ok <==> Locate(dest, n).Some?)
      ensures 0 < n <= RSIZE_MAX_MEM && r == Ok ==> mem[..] == Splice(old(mem[..]), dest - rt, Zeros(n))
    {
      if n == 0 || n > RSIZE_MAX_MEM {
        return Ok;
      }
      var at := Locate(dest, n);
      if at == None {
        return Wild;
      }
      Write(at.value, Zeros(n));
      r := Ok;
    }

    /** One turn of the copy loop, for a loadable segment. */
    method LoadSegment(p: Phdr, low: u64) returns (r: Step)
      requires Valid() && Loadable(p)
      modifies mem
      ensures low <= p.paddr && p.paddr - low + p.memsz <= imageSize ==>
                && (r == Ok <==> InFile(p.offset, FileSize(p), size)) && r != Wild
                && (r == Ok ==> mem[..] == Splice(old(mem[..]), p.paddr - low, SegmentBytes(load, p)))
    {
      hide InFile, Splice, SegmentBytes;
      var reloc := Wrap(rt - low);
      var n := FileSize(p);
      ghost var was := mem[..];
      Shifts(p, low, n);
      r := ImageCopy(Wrap(p.paddr + reloc), p.offset, n);
      if r != Ok {
        return;
      }
      r := ZeroFill(Wrap(p.paddr + n + reloc), p.memsz - n);
      if low <= p.paddr && p.paddr - low + p.memsz <= imageSize {
        Joined(load, p, was, p.paddr - low);
      }
    }

    /** The first loop of elf64_load_executable. */
    method Bounds(ps: seq<Phdr>) returns (low: u64, high: u64)
      ensures low == Low(ps) && high == High(ps)
    {
      low, high := TWO_64 - 1, 0;
      for i := 0 to |ps|
        invariant low == Low(ps[..i]) && high == High(ps[..i])
      {
        assert ps[..i + 1][..i] == ps[..i];
        if ps[i].kind != PT_LOAD || ps[i].memsz == 0 {
          continue;
        }
        if ps[i].paddr < low {
          low := ps[i].paddr;
        }
        if Wrap(ps[i].paddr + ps[i].memsz) > high {
          high := Wrap(ps[i].paddr + ps[i].memsz);
        }
      }
      assert ps[..|ps|] == ps;
    }

    /** The copy loop: the loadable segments, the address of the ELF header and the dynamic segment. */
    method CopySegments(ps: seq<Phdr>, low: u64) returns (r: Step, header: Option<u64>, dynamic: Option<Phdr>)
      requires Valid()
      modifies mem
      ensures Inside(ps, low, imageSize) ==>
                && Inside(ps, low, mem.Length) && r != Wild && (r == Ok <==> AllInFile(ps, size))
                && (r == Ok ==> mem[..] == Placed(load, ps, low, old(mem[..])))
      ensures r == Ok ==> header == HeaderAddress(ps) && dynamic == DynamicSegment(ps)
    {
      hide SegmentBytes, InFile, Splice;
      ghost var was := mem[..];
      header, dynamic := None, None;
      for i := 0 to |ps|
        invariant header == HeaderAddress(ps[..i]) && dynamic == DynamicSegment(ps[..i])
        invariant Inside(ps, low, imageSize) ==>
                    && Inside(ps[..i], low, mem.Length) && AllInFile(ps[..i], size)
                    && mem[..] == Placed(load, ps[..i], low, was)
      {
        ghost var next := ps[..i + 1];
        assert next[..i] == ps[..i] && next[i] == ps[i];
        if ps[i].kind == PT_DYNAMIC {
          dynamic := Some(ps[i]);
          continue;
        }
        if ps[i].kind != PT_LOAD || ps[i].memsz == 0 {
          continue;
        }
        if ps[i].offset == 0 {
          header := Some(ps[i].paddr);
        }
        r := LoadSegment(ps[i], low);
        if r != Ok {
          return;
        }
      }
      assert ps[..|ps|] == ps;
      r := Ok;
    }

    method Store(at: nat, v: u64)
      requires at + 8 <= mem.Length
      modifies mem
      ensures mem[..] == Splice(old(mem[..]), at, LE64(v))
    {
      Write(at, LE64(v));
    }

    /** One turn of elf64_update_segment_table. */
    method MoveRow(at: nat, reloc: u64)
      requires at + 48 <= mem.Length
      modifies mem
      ensures mem[..] == MovedRow(old(mem[..]), at, reloc)
    {
      hide U64, LE64, Wrap, Splice;
      if U64(mem[..], at + 40) != 0 {
        Store(at + 24, Wrap(U64(mem[..], at + 24) + reloc));
        Store(at + 16, Wrap(U64(mem[..], at + 16) + reloc));
      }
    }

    /** Before turn `i` the header is as the file gave it, and the row moves by its slots. */
    lemma TableTurn(d: seq<byte>, low: u64, slots: seq<Slot>, i: nat)
      requires MovesTable(d, low, slots) && RowsFit(d, i) && i <= U16(d, 56) && Fit(TableSlots(d, low, i), |d|)
      ensures var m := Patched(d, TableSlots(d, low, i), rt);
              && U64(m, 32) == U64(d, 32) && U16(m, 54) == U16(d, 54) && U16(m, 56) == U16(d, 56)
      ensures i < U16(d, 56) ==>
                var at := Row(U64(d, 32), U16(d, 54), i);
                && at + 48 <= |d| && RowsFit(d, i + 1) && Fit(TableSlots(d, low, i + 1), |d|)
                && MovedRow(Patched(d, TableSlots(d, low, i), rt), at, Wrap(rt - low))
                   == Patched(d, TableSlots(d, low, i + 1), rt)
    {
      hide U64, U16, Patched, MovedRow, RowSlots, Misses, Apart, Fit, Wrap, Row;
      var n := U16(d, 56);
      var q := TableSlots(d, low, i);
      TablePrefix(d, low, i, n);
      HeaderKept(d, slots, q, rt);
      if i < n {
        TablePrefix(d, low, i + 1, n);
        RowStep(d, low, slots, q, Row(U64(d, 32), U16(d, 54), i), rt);
      }
    }

    /** elf64_update_segment_table, on the header at the start of the image. */
    method UpdateSegmentTable(low: u64, ghost slots: seq<Slot>) returns (r: Step)
      requires Valid() && 64 <= mem.Length
      modifies mem
      ensures r != Rejected
      ensures old(MovesTable(mem[..], low, slots)) ==>
                r == Ok && mem[..] == old(Patched(mem[..], TableSlots(mem[..], low, U16(mem[..], 56)), rt))
    {
      hide U64, U16, Patched, MovedRow, TableSlots, MovesTable, Fit, Wrap, Row;
      ghost var d := mem[..];
      ghost var clean := MovesTable(d, low, slots);
      var phoff := U64(mem[..], 32);
      var i := 0;
      NonePatched(d, rt);
      assert TableSlots(d, low, 0) == [] by {
        NoRows(d, low);
      }
      while i < U16(mem[..], 56)
        invariant i <= 0x1_0000
        invariant clean ==> i <= U16(d, 56) && RowsFit(d, i)
        invariant clean ==> Fit(TableSlots(d, low, i), |d|) && mem[..] == Patched(d, TableSlots(d, low, i), rt)
        decreases 0x1_0000 - i
      {
        if clean {
          TableTurn(d, low, slots, i);
        }
        var at := Row(phoff, U16(mem[..], 54), i);
        if at + 48 > mem.Length {
          return Wild;
        }
        MoveRow(at, Wrap(rt - low));
        i := i + 1;
      }
      if clean {
        TableTurn(d, low, slots, i);
      }
      r := Ok;
    }

    /** One relocation of elf64_update_rela_section, at offset `at` of the memory. */
    method Relocate(at: nat, symbols: u64, low: u64, ghost d: seq<byte>, ghost sym: nat, ghost q: seq<Slot>,
                    ghost slots: seq<Slot>)
      returns (r: Step)
      requires Valid() && at + 24 <= mem.Length == |d|
      modifies mem
      ensures old(EntryReady(d, low, at, sym, q, slots, rt, mem[..])) && symbols == rt + sym ==>
                && r != Wild && (r == Ok <==> Supported(d, at))
                && (r == Ok ==> mem[..] == Patched(d, q + RelaSlot(d, low, at, sym), rt))
    {
      hide U64, LE64, Splice, Patched, Wrap, EntryReady, SymbolAt;
      var reloc := Wrap(rt - low);
      var info, addend: nat := U64(mem[..], at + 8), U64(mem[..], at + 16);
      var target := Locate(Wrap(U64(mem[..], at) + reloc), 8);
      ghost var ready := EntryReady(d, low, at, sym, q, slots, rt, mem[..]) && symbols == rt + sym;
      if ready {
        EntryTurn(d, low, at, sym, q, slots, mem[..]);
        if U64(d, at + 8) % 256 == 8 {
          RelativeTurn(d, low, at, sym, q, slots, mem[..]);
        } else if UsesSymbol(d, at) {
          SymbolTurn(d, low, at, sym, q, slots, mem[..]);
        }
      }
      if info % 256 == 10 || info % 256 == 1 {
        if target == None {
          return Wild;
        }
        Store(target.value, Wrap(addend + reloc));
        var value := Locate(Wrap(symbols + 24 * (info / 0x1_0000_0000) + 8), 8);
        if value == None {
          return Wild;
        }
        Store(target.value, Wrap(U64(mem[..], target.value) + U64(mem[..], value.value)));
        r := Ok;
      } else if info % 256 == 8 {
        if target == None {
          return Wild;
        }
        Store(target.value, Wrap(addend + reloc));
        r := Ok;
      } else if info % 256 == 0 {
        r := Ok;
      } else {
        r := Rejected;
      }
    }

    /** What a relocation finds in an image that can be moved. */
    lemma EntryTurn(d: seq<byte>, low: u64, at: nat, sym: nat, q: seq<Slot>, slots: seq<Slot>, m: seq<byte>)
      requires Valid() && |d| == mem.Length && EntryReady(d, low, at, sym, q, slots, rt, m)
      ensures at + 24 <= |d| == |m| && Fit(q, |d|) && m == Patched(d, q, rt)
      ensures U64(m, at) == U64(d, at) && U64(m, at + 8) == U64(d, at + 8) && U64(m, at + 16) == U64(d, at + 16)
      ensures UsesSymbol(d, at) ==> SymbolAt(d, at, sym) + 16 <= |d|
      ensures RelaSlot(d, low, at, sym) == [] ==> q + RelaSlot(d, low, at, sym) == q
      ensures RelaSlot(d, low, at, sym) != [] ==>
                var s := RelaSlot(d, low, at, sym)[0];
                && Fit(q + [s], |d|) && s.at + 8 <= |d|
                && Locate(Wrap(U64(d, at) + Wrap(rt - low)), 8) == Some(s.at)
    {
      hide U64, Patched, Wrap, Splice, LE64, SymbolAt;
      var t := RelaSlot(d, low, at, sym);
      if t == [] {
        assert q + t == q;
      } else {
        var s := t[0];
        assert t == [s];
        hide Apart, Misses, Fit;
        NextSlot(d, slots, q, s, rt);
        ShiftedAddress(U64(d, at), rt, low, mem.Length);
      }
    }

    lemma RelativeTurn(d: seq<byte>, low: u64, at: nat, sym: nat, q: seq<Slot>, slots: seq<Slot>, m: seq<byte>)
      requires Valid() && |d| == mem.Length && EntryReady(d, low, at, sym, q, slots, rt, m)
      requires U64(d, at + 8) % 256 == 8
      ensures Fit(q + RelaSlot(d, low, at, sym), |d|) && RelaSlot(d, low, at, sym)[0].at + 8 <= |m|
      ensures var t := RelaSlot(d, low, at, sym);
              Splice(m, t[0].at, LE64(Wrap(U64(d, at + 16) + Wrap(rt - low)))) == Patched(d, q + t, rt)
    {
      hide U64, Patched, Wrap, Splice, LE64, SymbolAt, Apart, Misses, Fit;
      var t := RelaSlot(d, low, at, sym);
      assert t == [t[0]];
      RelativeStep(d, low, slots, q, t[0], U64(d, at + 16), rt);
    }

    lemma SymbolTurn(d: seq<byte>, low: u64, at: nat, sym: nat, q: seq<Slot>, slots: seq<Slot>, m: seq<byte>)
      requires Valid() && |d| == mem.Length && EntryReady(d, low, at, sym, q, slots, rt, m) && UsesSymbol(d, at)
      ensures SymbolAt(d, at, sym) + 16 <= |d|
      ensures Fit(q + RelaSlot(d, low, at, sym), |d|) && RelaSlot(d, low, at, sym)[0].at + 8 <= |m|
      ensures var t, symbol := RelaSlot(d, low, at, sym), SymbolAt(d, at, sym) + 8;
              var x := Splice(m, t[0].at, LE64(Wrap(U64(d, at + 16) + Wrap(rt - low))));
              Splice(x, t[0].at, LE64(Wrap(U64(x, t[0].at) + U64(x, symbol)))) == Patched(d, q + t, rt)
      ensures Locate(Wrap(rt + sym + 24 * (U64(d, at + 8) / 0x1_0000_0000) + 8), 8) == Some(SymbolAt(d, at, sym) + 8)
    {
      hide U64, Patched, Wrap, Splice, LE64, Apart, Misses, Fit;
      var t := RelaSlot(d, low, at, sym);
      assert t == [t[0]];
      SymbolStep(d, low, slots, q, t[0], U64(d, at + 16), SymbolAt(d, at, sym) + 8, rt);
      WrapSmall(rt + SymbolAt(d, at, sym) + 8);
    }

    /** The first loop of elf64_update_rela_section: addresses moved to where the image is. */
    method ReadDynamic(off: nat, n: nat, reloc: u64)
      returns (rela: u64, relaSize: u64, relaEnt: u64, sym: u64, symEnt: u64)
      ensures var t := DynamicOf(load, off, n);
              && rela == Moved(t.rela, reloc) && relaSize == t.relaSize && relaEnt == t.relaEnt
              && sym == Moved(t.sym, reloc) && symEnt == t.symEnt
    {
      rela, relaSize, relaEnt, sym, symEnt := 0, 0, 0, 0, 0;
      for i := 0 to n
        invariant var t := DynamicOf(load, off, i);
                  && rela == Moved(t.rela, reloc) && relaSize == t.relaSize && relaEnt == t.relaEnt
                  && sym == Moved(t.sym, reloc) && symEnt == t.symEnt
      {
        hide F64, Wrap;
        var tag, val := F64(load, off + 16 * i), F64(load, off + 16 * i + 8);
        if tag == DT_RELA {
          rela := Wrap(val + reloc);
        } else if tag == DT_RELASZ || tag == DT_RELSZ {
          relaSize := val;
        } else if tag == DT_RELAENT {
          relaEnt := val;
        } else if tag == DT_SYMTAB {
          sym := Wrap(val + reloc);
        } else if tag == DT_SYMENT {
          symEnt := val;
        }
      }
    }

    /** The second loop: `n` relocations at address `rela`. */
    method RelocateAll(rela: u64, symbols: u64, n: nat, low: u64, ghost d: seq<byte>, ghost t: Plan,
                       ghost q: seq<Slot>, ghost slots: seq<Slot>)
      returns (r: Step)
      requires Valid() && |d| == mem.Length && t.Table?
      modifies mem
      ensures old(Relocatable(d, low, t, q, slots, rt, mem[..])) && rela == rt + t.rela && symbols == rt + t.sym
              && n == t.n ==>
                && r != Wild && (r == Ok <==> AllSupported(d, t.rela, t.n))
                && (r == Ok ==> mem[..] == Patched(d, slots, rt))
    {
      hide Patched, Movable, RelaSlots, RelaSlot, EntryReady, Apart, Fit, Wrap, RelaFit, Filled, Entry, Supported;
      ghost var ready :=
        Relocatable(d, low, t, q, slots, rt, mem[..]) && rela == rt + t.rela && symbols == rt + t.sym && n == t.n;
      if ready {
        FilledEnds(d, low, t, q, slots);
      }
      for i := 0 to n
        invariant ready ==> RelaFit(d, t.rela, t.sym, i) && Fit(Filled(d, low, t, q, i), |d|)
        invariant ready ==> mem[..] == Patched(d, Filled(d, low, t, q, i), rt)
        invariant ready ==> Entry(t.rela, i) <= |d| && AllSupported(d, t.rela, i)
      {
        var address: nat := rela + 24 * i;
        var at := Locate(Wrap(address), 24);
        ghost var done: seq<Slot> := [];
        if ready {
          done := Filled(d, low, t, q, i);
          RelocationTurn(d, low, t, q, slots, i, address);
        }
        if at == None {
          return Wild;
        }
        r := Relocate(at.value, symbols, low, d, t.sym, done, slots);
        if r != Ok {
          return;
        }
      }
      r := Ok;
    }

    /** Relocation `i` finds its entry and fills the next slot. */
    lemma RelocationTurn(d: seq<byte>, low: u64, t: Plan, q: seq<Slot>, slots: seq<Slot>, i: nat, address: nat)
      requires Valid() && |d| == mem.Length && Movable(d, low, t, q, slots) && i < t.n
               && address == rt + t.rela + 24 * i
      requires RelaFit(d, t.rela, t.sym, i) && Fit(Filled(d, low, t, q, i), |d|)
      ensures Entry(t.rela, i) + 24 <= |d| && Entry(t.rela, i + 1) <= |d| && Entry(t.rela, t.n) <= |d|
      ensures Locate(Wrap(address), 24) == Some(Entry(t.rela, i)) && RelaFit(d, t.rela, t.sym, i + 1)
      ensures var done := Filled(d, low, t, q, i);
              && EntryReady(d, low, Entry(t.rela, i), t.sym, done, slots, rt, Patched(d, done, rt))
              && Filled(d, low, t, q, i + 1) == done + RelaSlot(d, low, Entry(t.rela, i), t.sym)
      ensures Fit(Filled(d, low, t, q, i + 1), |d|)
    {
      hide Patched, Apart, Fit, Wrap, U64, UsesSymbol, SymbolAt, RelaSlot, Misses;
      var at, done := Entry(t.rela, i), Filled(d, low, t, q, i);
      FilledNext(d, low, t, q, slots, i);
      WrapSmall(address);
      EntryKept(d, t.rela, t.n, i, slots, done, rt);
    }

    /** elf64_update_rela_section. */
    method UpdateRela(p: Phdr, low: u64, ghost d: seq<byte>, ghost q: seq<Slot>, ghost slots: seq<Slot>)
      returns (r: Step)
      requires Valid() && |d| == mem.Length && DynamicSegment(Phdrs(load)) == Some(p)
      modifies mem
      ensures var t := RelaPlan(load, size, low);
              && (t.Fault? ==> r == Rejected) && (t.NoTable? ==> r == Ok && mem[..] == old(mem[..]))
              && (t.Table? && old(Relocatable(d, low, t, q, slots, rt, mem[..])) ==>
                    && r != Wild && (r == Ok <==> AllSupported(d, t.rela, t.n))
                    && (r == Ok ==> mem[..] == Patched(d, slots, rt)))
    {
      hide Phdrs, F16, Wrap, DynamicOf, AllSupported, Patched, Fit, Apart, Misses, RelaFit, Filled;
      ghost var t := RelaPlan(load, size, low);
      if !InFile(p.offset, p.filesz, size) {
        return Rejected;
      }
      var reloc := Wrap(rt - low);
      var rela, relaSize, relaEnt, sym, symEnt := ReadDynamic(p.offset, p.filesz / 16, reloc);
      ghost var y := DynamicOf(load, p.offset, p.filesz / 16);
      if t.Table? {
        ShiftedAddress(y.rela.value, rt, low, mem.Length);
        ShiftedAddress(y.sym.value, rt, low, mem.Length);
      }
      if rela == 0 || relaSize == 0 || sym == 0 || relaEnt != RELA_SIZE || symEnt != SYM_SIZE {
        return if F16(load, 16) == ET_DYN then Ok else Rejected;
      }
      r := RelocateAll(rela, sym, relaSize / 24, low, d, t, q, slots);
    }

    /** The checks of elf64_load_executable that come before the copy. */
    method CheckHeaders() returns (ok: bool, low: u64)
      requires Valid()
      modifies `imageSize
      ensures Valid() && (ok <==> HeadersAccepted(load, size, mem.Length))
      ensures ok ==> low == Low(Phdrs(load)) && 4096 <= imageSize == ImageSize(Phdrs(load)) <= mem.Length
    {
      hide Phdrs, Wrap, F16, F64, Low, High;
      low := 0;
      if !InFile(0, 64, size) || !InFile(F64(load, 32), 56 * F16(load, 56), size) || F16(load, 56) == 0xFFFF {
        return false, low;
      }
      var high;
      low, high := Bounds(Phdrs(load));
      if low % 4096 != 0 {
        return false, low;
      }
      var need := AlignUp(Wrap(high - low));
      if mem.Length < need || need == 0 {
        return false, low;
      }
      imageSize := need;
      ok := true;
    }

    /** The end of elf64_load_executable, on the copied segments. */
    method MoveImage(low: u64, header: Option<u64>, dynamic: Option<Phdr>) returns (r: Step)
      requires Valid() && low == Low(Phdrs(load)) && 64 <= mem.Length
      requires header == HeaderAddress(Phdrs(load)) && dynamic == DynamicSegment(Phdrs(load))
      modifies mem
      ensures var d := old(mem[..]);
              AllInFile(Phdrs(load), size) && Regular(load, size, d) ==>
                && r != Wild && (r == Ok <==> ImageAccepted(load, size, d))
                && (r == Ok ==> mem[..] == Patched(d, Slots(load, size, d), rt))
    {
      hide Phdrs, Low, HeaderAddress, DynamicSegment, AllInFile, AllSupported, Patched, TableSlots, RelaSlots, Apart;
      hide Misses, Fit;
      hide RelaPlan, TableClean, RelaClean, U64, U16, RowsFit, RelaFit;
      ghost var d := mem[..];
      ghost var t := RelaPlan(load, size, low);
      ghost var regular := Regular(load, size, d);
      ghost var q, slots: seq<Slot> := [], [];
      if regular {
        q, slots := HeaderSlots(load, d), Slots(load, size, d);
        SlotsReady(load, size, d);
      }
      NonePatched(d, rt);
      if header.Some? && header.value != TWO_64 - 1 {
        if header.value != low {
          return Rejected;
        }
        r := UpdateSegmentTable(low, slots);
        if r != Ok {
          return;
        }
      }
      assert regular ==> mem[..] == Patched(d, q, rt);
      if dynamic.Some? {
        r := UpdateRela(dynamic.value, low, d, q, slots);
        return;
      }
      assert t == NoTable by {
        NoDynamic(load, size, low);
      }
      r := Ok;
    }

    /** elf64_load_executable. */
    method LoadExecutable() returns (r: Outcome)
      requires Valid()
      modifies this, mem
      ensures !HeadersAccepted(load, size, mem.Length) ==> r == NotLoaded(Rejected) && mem[..] == old(mem[..])
      ensures r.Loaded? ==> r.entry == Wrap(F64(load, 24) + rt - Low(Phdrs(load)))
      ensures HeadersAccepted(load, size, mem.Length) && NoWrap(Phdrs(load)) ==>
                && Inside(Phdrs(load), Low(Phdrs(load)), mem.Length)
                && var d := Image(load, old(mem[..]));
                   Regular(load, size, d) ==>
                     && r != NotLoaded(Wild) && (r.Loaded? <==> ImageAccepted(load, size, d))
                     && (r.Loaded? ==> mem[..] == Patched(d, Slots(load, size, d), rt))
    {
      hide Phdrs, Low, HeaderAddress, DynamicSegment, AllInFile, Patched, Slots, Regular, HeadersAccepted, Placed;
      hide F64, ImageSize, NoWrap, TablesFit, Inside, ImageAccepted, RelaPlan, HasHeader, Wrap;
      var ok, low := CheckHeaders();
      if !ok {
        return NotLoaded(Rejected);
      }
      var ps := Phdrs(load);
      if NoWrap(ps) {
        SegmentsInside(ps);
        InsideMore(ps, low, imageSize, mem.Length);
      }
      var s, header, dynamic := CopySegments(ps, low);
      if s != Ok {
        AcceptedInFile(load, size);
        return NotLoaded(s);
      }
      s := MoveImage(low, header, dynamic);
      if s != Ok {
        return NotLoaded(s);
      }
      EntryAddress(F64(load, 24), low, rt);
      r := Loaded(Wrap(F64(load, 24) + Wrap(rt - low)));
    }

    /** A segment inside the image has its addresses there. */
    lemma Shifts(p: Phdr, low: u64, n: nat)
      requires Valid() && n <= p.memsz && 0 < p.memsz
      ensures low <= p.paddr && p.paddr - low + p.memsz <= imageSize ==>
                && Wrap(p.paddr + Wrap(rt - low)) == rt + (p.paddr - low)
                && (n < p.memsz ==> Wrap(p.paddr + n + Wrap(rt - low)) == rt + (p.paddr - low) + n)
    {
      hide Wrap;
      ShiftedAddress(p.paddr, rt, low, mem.Length);
      ShiftedAddress(p.paddr + n, rt, low, mem.Length);
      if low <= p.paddr && p.paddr - low + p.memsz <= imageSize {
        WrapSmall(p.paddr - low);
        WrapSmall(p.paddr + n - low);
      }
    }
  }

  /** The segment table can be moved: its slots come first among `slots`, and no slot is read. */
  predicate MovesTable(d: seq<byte>, low: nat, slots: seq<Slot>) {
    && TableClean(d, slots) && Apart(slots, |d|)
    && TableSlots(d, low, U16(d, 56)) <= slots
  }

  /** A relocation entry as the file gave it, in an image patched with the slots before its own. */
  predicate EntryReady(d: seq<byte>, low: nat, at: nat, sym: nat, q: seq<Slot>, slots: seq<Slot>, rt: nat, m: seq<byte>)
  {
    && at + 24 <= |d| && Apart(slots, |d|) && Fit(q, |d|) && m == Patched(d, q, rt)
    && U64(m, at) == U64(d, at) && U64(m, at + 8) == U64(d, at + 8) && U64(m, at + 16) == U64(d, at + 16)
    && (UsesSymbol(d, at) ==> SymbolAt(d, at, sym) + 16 <= |d| && Misses(slots, SymbolAt(d, at, sym) + 8, 8))
    && q + RelaSlot(d, low, at, sym) <= slots
  }

  lemma InsideMore(ps: seq<Phdr>, low: nat, n: nat, m: nat)
    requires Inside(ps, low, n) && n <= m
    ensures Inside(ps, low, m)
  {
  }

  lemma AcceptedInFile(load: Load, size: nat)
    ensures forall d :: Regular(load, size, d) && ImageAccepted(load, size, d) ==> AllInFile(Phdrs(load), size)
  {
  }

  lemma NoDynamic(load: Load, size: nat, low: nat)
    ensures DynamicSegment(Phdrs(load)) == None ==> RelaPlan(load, size, low) == NoTable
  {
  }

  /** A regular image has its slots where the two updates expect them. */
  lemma SlotsReady(load: Load, size: nat, d: seq<byte>)
    requires Regular(load, size, d)
    ensures var low, q, slots := Low(Phdrs(load)), HeaderSlots(load, d), Slots(load, size, d);
            var t := RelaPlan(load, size, low);
            && Fit(q, |d|) && Fit(slots, |d|) && (HasHeader(load) ==> MovesTable(d, low, slots))
            && (t.Table? ==> Movable(d, low, t, q, slots)) && (!t.Table? ==> q == slots)
  {
    hide Phdrs, Low, HeaderAddress, DynamicSegment, TableSlots, RelaSlots, U64, U16, Misses, RelaPlan, RowsFit, RelaFit;
    var low, q, slots := Low(Phdrs(load)), HeaderSlots(load, d), Slots(load, size, d);
    var t := RelaPlan(load, size, low);
    if !t.Table? {
      assert q + [] == q;
    }
    FitPrefix(q, slots, |d|);
  }

  /** One relocation more fills one slot more of `slots`. */
  lemma FilledNext(d: seq<byte>, low: nat, t: Plan, q: seq<Slot>, slots: seq<Slot>, i: nat)
    requires Movable(d, low, t, q, slots) && i < t.n && RelaFit(d, t.rela, t.sym, i)
    ensures RelaFit(d, t.rela, t.sym, i + 1) && Filled(d, low, t, q, i) <= slots && Fit(slots, |d|)
    ensures Filled(d, low, t, q, i + 1) == Filled(d, low, t, q, i) + RelaSlot(d, low, Entry(t.rela, i), t.sym) <= slots
    ensures Fit(Filled(d, low, t, q, i + 1), |d|)
  {
    hide U64, UsesSymbol, SymbolAt, RelaSlot, Misses, Hits;
    assert RelaFit(d, t.rela, t.sym, i + 1);
    var x, y := RelaSlots(d, low, t.rela, t.sym, i), RelaSlot(d, low, Entry(t.rela, i), t.sym);
    Associate(q, x, y);
    RelaPrefix(d, low, t.rela, t.sym, i + 1, t.n);
    Extend(q, x + y, RelaSlots(d, low, t.rela, t.sym, t.n));
    Prefix(slots, q + x, y);
    FitPrefix(q + x + y, slots, |d|);
  }

  lemma FilledEnds(d: seq<byte>, low: nat, t: Plan, q: seq<Slot>, slots: seq<Slot>)
    requires Movable(d, low, t, q, slots)
    ensures Entry(t.rela, t.n) <= |d| && Entry(t.rela, 0) <= |d| && Fit(slots, |d|)
    ensures RelaFit(d, t.rela, t.sym, 0) && Filled(d, low, t, q, 0) == q
    ensures RelaFit(d, t.rela, t.sym, t.n) && Filled(d, low, t, q, t.n) == slots
  {
    assert q + [] == q;
  }

  lemma Extend(q: seq<Slot>, x: seq<Slot>, y: seq<Slot>)
    requires x <= y
    ensures q + x <= q + y
  {
  }

  lemma FitPrefix(q: seq<Slot>, slots: seq<Slot>, n: nat)
    requires q <= slots && Fit(slots, n)
    ensures Fit(q, n)
  {
  }

  lemma NoRows(d: seq<byte>, low: nat)
    requires |d| >= 64
    ensures RowsFit(d, 0) && TableSlots(d, low, 0) == []
  {
  }

  lemma HeaderKept(d: seq<byte>, slots: seq<Slot>, q: seq<Slot>, rt: nat)
    requires |d| >= 64 && q <= slots && Apart(slots, |d|) && Misses(slots, 32, 8) && Misses(slots, 54, 4)
    ensures Fit(q, |d|)
    ensures var m := Patched(d, q, rt);
            U64(m, 32) == U64(d, 32) && U16(m, 54) == U16(d, 54) && U16(m, 56) == U16(d, 56)
  {
    PatchedMisses(d, q, rt, 32, 8);
    PatchedMisses(d, q, rt, 54, 4);
    var m := Patched(d, q, rt);
    FieldsOfSlice(m, 54, 58, 0);
    FieldsOfSlice(m, 54, 58, 2);
    FieldsOfSlice(d, 54, 58, 0);
    FieldsOfSlice(d, 54, 58, 2);
  }

  /** The file bytes and the zeros of a segment are its bytes. */
  lemma Joined(load: Load, p: Phdr, d: seq<byte>, at: nat)
    requires at + p.memsz <= |d|
    ensures var n, rest := FileSize(p), p.memsz - FileSize(p);
            var x := Splice(d, at, Part(load, p.offset, n));
            && (0 < rest <= RSIZE_MAX_MEM ==> Splice(x, at + n, Zeros(rest)) == Splice(d, at, SegmentBytes(load, p)))
            && (!(0 < rest <= RSIZE_MAX_MEM) ==> x == Splice(d, at, SegmentBytes(load, p)))
  {
  }

  /**
   * One file loaded at two addresses: both loads fare alike, and their images differ exactly in the slots, where
   * they differ by the distance of the addresses, as the entry points do.
   */
  method LoadTwice(a: Loader, b: Loader) returns (ra: Outcome, rb: Outcome)
    requires a.Valid() && b.Valid() && a != b && a.mem != b.mem
    requires a.load == b.load && a.size == b.size && a.mem[..] == b.mem[..]
    requires HeadersAccepted(a.load, a.size, a.mem.Length) && NoWrap(Phdrs(a.load))
    requires Inside(Phdrs(a.load), Low(Phdrs(a.load)), a.mem.Length)
    requires Regular(a.load, a.size, Image(a.load, a.mem[..]))
    modifies a, b, a.mem, b.mem
    ensures ra.Loaded? <==> rb.Loaded?
    ensures ra.Loaded? ==> rb.entry == Wrap(ra.entry + (b.rt - a.rt))
    ensures ra.Loaded? ==>
              var slots := old(Slots(a.load, a.size, Image(a.load, a.mem[..])));
              && Fit(slots, a.mem.Length) && a.mem.Length == b.mem.Length
              && (forall k :: 0 <= k < |slots| ==>
                    U64(b.mem[..], slots[k].at) == Wrap(U64(a.mem[..], slots[k].at) + (b.rt - a.rt)))
              && (forall i :: 0 <= i < a.mem.Length && Misses(slots, i, 1) ==> a.mem[i] == b.mem[i])
  {
    hide Patched, Slots, Image, Regular, HeadersAccepted, NoWrap, Inside, ImageAccepted, TablesFit, Phdrs, Low, Wrap;
    hide U64, F64;
    ghost var was := a.mem[..];
    assert a.mem.Length == |was| == b.mem.Length;
    ghost var d := Image(a.load, was);
    SlotsApart(a.load, a.size, d);
    ghost var slots := Slots(a.load, a.size, d);
    ra := a.LoadExecutable();
    rb := b.LoadExecutable();
    if ra.Loaded? {
      PatchedTwice(d, slots, a.rt, b.rt);
      EntryMoves(F64(a.load, 24), Low(Phdrs(a.load)), a.rt, b.rt);
    }
  }

  lemma SlotsApart(load: Load, size: nat, d: seq<byte>)
    requires Regular(load, size, d)
    ensures TablesFit(load, size, d) && Apart(Slots(load, size, d), |d|)
  {
  }

  lemma EntryAddress(entry: nat, low: nat, rt: nat)
    ensures Wrap(entry + Wrap(rt - low)) == Wrap(entry + rt - low)
  {
  }

  lemma EntryMoves(entry: nat, low: nat, a: nat, b: nat)
    ensures Wrap(Wrap(entry + a - low) + (b - a)) == Wrap(entry + b - low)
  {
  }

  lemma TinyAccepted(d: seq<byte>)
    requires |d| == 0x1000_1000
    ensures var load := TinyLoad(0x1000_0002);
            && HeadersAccepted(load, 120, |d|) && NoWrap(Phdrs(load)) && Low(Phdrs(load)) == 0
            && Inside(Phdrs(load), 0, |d|) && DynamicSegment(Phdrs(load)) == None && !HasHeader(load)
            && AllInFile(Phdrs(load), 120)
  {
    hide TinyLoad, Phdrs, F64, F16;
    TinyTable(0x1000_0002);
    TinyHeader(0x1000_0002);
  }

  lemma TinyRegular(load: Load, size: nat, d: seq<byte>, rt: nat)
    requires |d| >= 64 && DynamicSegment(Phdrs(load)) == None && !HasHeader(load) && AllInFile(Phdrs(load), size)
    ensures Regular(load, size, d) && ImageAccepted(load, size, d) && Slots(load, size, d) == []
    ensures Fit([], |d|) && Patched(d, [], rt) == d
  {
    hide Phdrs, Low, AllInFile, HasHeader;
  }

  lemma TinyImage(was: seq<byte>)
    requires |was| == 0x1000_1000 && was[1] == 1
    ensures var load := TinyLoad(0x1000_0002);
            && Low(Phdrs(load)) == 0 && Inside(Phdrs(load), 0, |was|) && Placed(load, Phdrs(load), 0, was)[1] == 1
  {
    hide TinyLoad, Phdrs, Low, Placed, SegmentBytes;
    TinyAccepted(was);
    TinyTable(0x1000_0002);
    var load := TinyLoad(0x1000_0002);
    BssExact(load, Phdrs(load), 0, was, 0, 1);
  }

  /** A file whose zero fill is longer than 256 MiB: it is loaded, and memory that held a one there still does. */
  method BssExample(rt: nat, mem: array<byte>) returns (r: Outcome)
    requires 0 < rt && rt + mem.Length < TWO_64
    requires mem.Length == 0x1000_1000 && mem[1] == 1
    modifies mem
    ensures r.Loaded? && mem[1] == 1
  {
    hide TinyLoad, Phdrs, Low, NoWrap, Inside, HeadersAccepted, DynamicSegment, HasHeader, AllInFile, Placed;
    hide SegmentBytes;
    hide Regular, ImageAccepted, Slots, Patched, Wrap, F64;
    var load := TinyLoad(0x1000_0002);
    ghost var was := mem[..];
    TinyAccepted(was);
    TinyImage(was);
    TinyRegular(load, 120, Image(load, was), rt);
    var loader := new Loader(load, 120, rt, mem);
    r := loader.LoadExecutable();
    assert mem[1] == mem[..][1];
  }
}
