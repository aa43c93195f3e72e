/** reader_read of libadb/reader.c over the readers behind it. */
module Readers {
  import opened Bytes
  import opened MemoryMap
  import opened MemoryStream
  import RamReader
  import VmcoreReader

  const SYNC_DATA_MAX := 65536

  /** What a reader reads: bytes cut into pieces of its own choosing, or one of the two memory dumps. */
  datatype Source =
    | Script(bytes: seq<byte>, cut: (nat, nat) -> nat, readOk: nat -> bool)
    | RamDump(ram: RamReader.Ram)
    | CoreDump(core: VmcoreReader.Vmcore)

  function Repr(s: Source): set<object> {
    match s
    case Script(_, _, _) => {}
    case RamDump(ram) => {ram}
    case CoreDump(core) => {core}
  }

  /** A reader in a memory with contents `mem`: it hands out `stream` in order and an empty piece at the end. */
  class Reader {
    const source: Source
    const mem: nat -> byte
    var pos: nat
    ghost const stream: seq<byte>
    ghost const table: seq<RamReader.Chunk>
    ghost const segments: seq<VmcoreReader.Segment>

    ghost predicate Valid()
      reads this, Repr(source)
    {
      && pos <= |stream|
      && match source
         case Script(bytes, _, _) => stream == bytes
         case RamDump(ram) =>
           && ram.Streaming() && ram.ctxCur == pos && ram.ctxLen == |stream| && ram.chunks == table
           && stream == Render(ram.File(), mem)
         case CoreDump(core) =>
           && core.Streaming() && core.ctxCur == pos && core.ctxLen == |stream| && |core.segs| < MAX_REGIONS
           && core.segs == segments && stream == Render(core.File(), mem)
    }

    /** The next read fails: as scripted, or because the chunk table of a "ram" dump is full. */
    ghost predicate Fails()
      reads this, Repr(source)
    {
      match source
      case Script(_, _, readOk) => !readOk(pos)
      case RamDump(ram) => ram.Stuck()
      case CoreDump(_) => false
    }

    constructor Scripted(bytes: seq<byte>, cut: (nat, nat) -> nat, readOk: nat -> bool)
      ensures Valid() && source == Script(bytes, cut, readOk) && stream == bytes && pos == 0
    {
      source, stream, pos := Script(bytes, cut, readOk), bytes, 0;
    }

    constructor OfRam(ram: RamReader.Ram, mem: nat -> byte)
      requires ram.Streaming() && ram.ctxCur == 0
      ensures Valid() && source == RamDump(ram) && stream == Render(ram.File(), mem) && pos == 0 && table == ram.chunks
    {
      source, this.mem, stream, pos := RamDump(ram), mem, Render(ram.File(), mem), 0;
      table := ram.chunks;
    }

    constructor OfCore(core: VmcoreReader.Vmcore, mem: nat -> byte)
      requires core.Streaming() && core.ctxCur == 0 && |core.segs| < MAX_REGIONS
      ensures Valid() && source == CoreDump(core) && stream == Render(core.File(), mem) && pos == 0
              && segments == core.segs
    {
      source, this.mem, stream, pos := CoreDump(core), mem, Render(core.File(), mem), 0;
      segments := core.segs;
    }

    /** reader_read with a request of 64 KiB, through the function table of the readers. */
    method Read() returns (ok: bool, data: seq<byte>)
      requires Valid()
      modifies this, Repr(source)
      ensures Valid() && (ok <==> !old(Fails()))
      ensures !ok ==> pos == old(pos) && Fails()
      ensures ok ==> pos == old(pos) + |data| && data == stream[old(pos)..pos] && |data| <= SYNC_DATA_MAX
      ensures ok ==> (data == [] <==> old(pos) == |stream|)
    {
      match source {
        case Script(_, _, _) => ok, data := ReadScript();
        case RamDump(_) => ok, data := ReadRam();
        case CoreDump(_) => ok, data := ReadCore();
      }
    }

    method ReadScript() returns (ok: bool, data: seq<byte>)
      requires Valid() && source.Script?
      modifies this
      ensures Valid() && (ok <==> !old(Fails()))
      ensures !ok ==> pos == old(pos) && Fails()
      ensures ok ==> pos == old(pos) + |data| && data == stream[old(pos)..pos] && |data| <= SYNC_DATA_MAX
      ensures ok ==> (data == [] <==> old(pos) == |stream|)
    {
      var bytes := source.bytes;
      data := [];
      ok := source.readOk(pos);
      if ok {
        var left := Min(SYNC_DATA_MAX, |bytes| - pos);
        var n := if 1 <= source.cut(pos, left) <= left then source.cut(pos, left) else left;
        data := bytes[pos..pos + n];
        pos := pos + n;
      }
    }

    method ReadRam() returns (ok: bool, data: seq<byte>)
      requires Valid() && source.RamDump?
      modifies this, source.ram
      ensures Valid() && (ok <==> !old(Fails()))
      ensures !ok ==> pos == old(pos) && Fails()
      ensures ok ==> pos == old(pos) + |data| && data == stream[old(pos)..pos] && |data| <= SYNC_DATA_MAX
      ensures ok ==> (data == [] <==> old(pos) == |stream|)
    {
      hide Render, RamReader.Ram.File;
      var ram := source.ram;
      ghost var file := ram.File();
      var r, items := ram.Read(SYNC_DATA_MAX);
      RenderSlice(file, pos, pos + |items|, mem);
      ok, data := r == Success, Render(items, mem);
      pos := pos + |data|;
    }

    method ReadCore() returns (ok: bool, data: seq<byte>)
      requires Valid() && source.CoreDump?
      modifies this, source.core
      ensures Valid() && ok && !old(Fails())
      ensures pos == old(pos) + |data| && data == stream[old(pos)..pos] && |data| <= SYNC_DATA_MAX
      ensures data == [] <==> old(pos) == |stream|
    {
      hide Render, VmcoreReader.Vmcore.File;
      var core := source.core;
      ghost var file := core.File();
      var r, items := core.Read(SYNC_DATA_MAX);
      RenderSlice(file, pos, pos + |items|, mem);
      ok, data := r == Success, Render(items, mem);
      pos := pos + |data|;
    }

    /** A "ram" dump read to its end had room in its chunk table. */
    lemma AllRead()
      requires Valid() && source.RamDump? && pos == |stream|
      ensures |table| < MAX_REGIONS
    {
      var ram := source.ram;
      RamReader.SendHeader(ram.File(), ram.totalBlks, ram.chunks, ram.start);
      if pos > 0 {
        RamReader.AllSent(ram.File(), ram.ctxCur, ram.cur, ram.curEnd, ram.chunks, ram.curChunk);
      }
    }

    /** One with room in its chunk table never fails. */
    lemma NeverFails()
      requires Valid() && source.RamDump? && |table| < MAX_REGIONS
      ensures !Fails()
    {
      var ram := source.ram;
      if ram.Stuck() {
        RamReader.AllSent(ram.File(), ram.ctxCur, ram.cur, ram.curEnd, ram.chunks, ram.curChunk);
      }
    }
  }

  lemma RenderSlice(items: seq<Item>, i: nat, j: nat, mem: nat -> byte)
    requires i <= j <= |items|
    ensures Render(items[i..j], mem) == Render(items, mem)[i..j]
  {
  }
}
