/** Pulling a memory dump over ADB: a reader of libadb/reader.c behind the sync service of libadb/sync_service.c. */
module AdbPull {
  import opened Bytes
  import opened MemoryMap
  import opened MemoryStream
  import opened RamReader
  import opened RamImage
  import opened Readers
  import opened SyncService
  import VmcoreReader

  /**
   * `adb pull ram:START:LENGTH`: the host gets a complete file exactly when the range can be opened, its chunk table is
   * not full, a message fits a packet and every packet is taken: `sent` packets are, and without a complete file the
   * next one is refused and the host knows that bytes are missing. For a faithful map and range, flashing the complete
   * file writes the conventional memory of the range.
   */
  method PullRam(ram: Ram, first: u64, length: Option<u64>, regions: seq<Region>, mem: nat -> byte, maxPayload: nat,
                 sendOk: nat -> bool)
    returns (started: bool, host: Received, sent: nat)
    requires Sorted(regions) && Disjoint(regions) && PageMap(regions)
    modifies ram
    ensures var to := RangeEnd(first, length);
            var pages, n := first % 4096 == 0 && to % 4096 == 0, |Stretches(regions, first, to)|;
            && (started <==> pages && n <= MAX_REGIONS && Reachable(regions, first, to))
            && (host.Complete? ==> started && n < MAX_REGIONS && maxPayload >= MSG_SZ)
            && (started && n < MAX_REGIONS && maxPayload >= MSG_SZ ==> host.Complete? || !sendOk(sent))
    ensures host != Malformed && forall k :: 0 <= k < sent ==> sendOk(k)
    ensures var to := RangeEnd(first, length);
            host.Complete? && (to == 0 || first <= to) && Faithful(regions, first, to) ==>
              && first <= EndOf(regions, to)
              && IsDump(host.file, Usable(regions, first, EndOf(regions, to)), first, mem)
  {
    hide Stretches, Reachable, Host, Flatten, IsDump, Usable, Faithful, Render, Reader.Fails, Reader.Valid, Stream;
    hide Session.Sent, Ram.Streaming;
    host, sent := Incomplete, 0;
    var to := RangeEnd(first, length);
    var r := ram.Open(first, length, regions);
    started := r == MemoryStream.Success;
    if !started {
      return;
    }
    ghost var es, file := ram.extents, FileOf(ram);
    var reader := new Reader.OfRam(ram, mem);
    var session := new Session(reader, maxPayload, sendOk);
    NotStuckYet(reader);
    var s := session.Transfer();
    host, sent := Host(Flatten(session.wire), []), |session.wire|;
    if s == SyncService.Success {
      SentAll(session);
      reader.AllRead();
      if to == 0 || first <= to {
        OneDump(file, es, regions, first, to, mem);
      }
    } else if |es| < MAX_REGIONS {
      reader.NeverFails();
    }
  }

  /**
   * `adb pull vmcore:START:LENGTH`, when no conventional region starts after the end: the host gets the core file, with
   * the memory that each segment announces at its offset, exactly when a message fits a packet and all are taken.
   */
  method PullCore(core: VmcoreReader.Vmcore, first: u64, length: Option<u64>, regions: seq<Region>, mem: nat -> byte,
                  maxPayload: nat, sendOk: nat -> bool)
    returns (started: bool, host: Received, sent: nat)
    requires Sorted(regions) && Disjoint(regions) && forall i :: 0 <= i < |regions| ==> regions[i].pages > 0
    requires VmcoreReader.NoneAfter(regions, first, RangeEnd(first, length))
    modifies core
    ensures var to := RangeEnd(first, length);
            var kept := VmcoreReader.Kept(regions, first);
            && (started <==> first % 4096 == 0 && to % 4096 == 0 && kept != [] && |kept| + 2 <= MAX_REGIONS)
            && (host.Complete? ==> started && maxPayload >= MSG_SZ)
            && (started && maxPayload >= MSG_SZ ==> host.Complete? || !sendOk(sent))
    ensures host != Malformed && forall k :: 0 <= k < sent ==> sendOk(k)
    ensures host.Complete? ==>
              && VmcoreReader.AllFit(core.segs) && |core.segs| < MAX_REGIONS
              && host.file == Render(VmcoreReader.CoreFile(core.segs), mem)
              && (forall i :: 0 <= i < |core.segs| ==>
                   VmcoreReader.Announced(VmcoreReader.CoreFile(core.segs), core.segs[i]))
              && forall a: nat ::
                   VmcoreReader.Dumps(core.segs, a) <==> VmcoreReader.Wanted(regions, first, RangeEnd(first, length), a)
  {
    hide Host, Flatten, Render, Reader.Fails, Reader.Valid, Session.Sent, VmcoreReader.Kept, VmcoreReader.NoneAfter;
    hide VmcoreReader.CoreFile, VmcoreReader.Dumps, VmcoreReader.Wanted, VmcoreReader.SegmentsOf, VmcoreReader.Tiled;
    hide VmcoreReader.Solid, VmcoreReader.Left, VmcoreReader.AllFit, VmcoreReader.Announced, Disjoint, Sorted;
    host, sent := Incomplete, 0;
    var r := core.Open(first, length, regions);
    started := r == MemoryStream.Success;
    if !started {
      return;
    }
    ghost var segs := core.segs;
    CoreReady(segs, regions, core.start, core.end);
    var reader := new Reader.OfCore(core, mem);
    var session := new Session(reader, maxPayload, sendOk);
    NeverFailing(reader);
    var s := session.Transfer();
    host, sent := Host(Flatten(session.wire), []), |session.wire|;
    NeverFailing(reader);
  }

  /** Once the headers are built, the file can be streamed, and it is right. */
  lemma CoreReady(segs: seq<VmcoreReader.Segment>, regions: seq<Region>, start: nat, end: nat)
    requires Sorted(regions) && Disjoint(regions) && forall i :: 0 <= i < |regions| ==> regions[i].pages > 0
    requires VmcoreReader.NoneAfter(regions, start, end)
    requires VmcoreReader.SegmentsOf(segs, VmcoreReader.Kept(regions, start), start, end) && |segs| < MAX_REGIONS
    requires VmcoreReader.Tiled(segs, VmcoreReader.HeaderSize(|segs|)) && VmcoreReader.AllFit(segs)
    ensures VmcoreReader.Solid(segs)
    ensures forall a: nat :: VmcoreReader.Dumps(segs, a) <==> VmcoreReader.Wanted(regions, start, end, a)
    ensures forall i :: 0 <= i < |segs| ==> VmcoreReader.Announced(VmcoreReader.CoreFile(segs), segs[i])
  {
    hide VmcoreReader.Kept, VmcoreReader.NoneAfter, VmcoreReader.CoreFile, VmcoreReader.Dumps, VmcoreReader.Wanted;
    hide VmcoreReader.SegmentsOf, VmcoreReader.Tiled, VmcoreReader.Solid, VmcoreReader.AllFit, VmcoreReader.Announced;
    VmcoreReader.SegmentsSolid(segs, regions, start, end);
    VmcoreReader.DumpExact(segs, regions, start, end);
    forall i | 0 <= i < |segs|
      ensures VmcoreReader.Announced(VmcoreReader.CoreFile(segs), segs[i])
    {
      VmcoreReader.SegmentInFile(segs, i);
    }
  }

  lemma NeverFailing(reader: Reader)
    requires reader.Valid() && reader.source.CoreDump?
    ensures !reader.Fails() && reader.source.core.segs == reader.segments
  {
  }

  ghost function FileOf(ram: Ram): seq<Item>
    requires ram.Built()
    reads ram
  {
    ram.File()
  }

  lemma NotStuckYet(reader: Reader)
    requires reader.Valid() && reader.pos == 0
    ensures reader.source.RamDump? ==> !reader.Fails()
  {
  }

  lemma SentAll(session: Session)
    requires session.Sent()
    ensures session.reader.Valid() && session.reader.pos == |session.reader.stream|
  {
  }

  /** The dump of a faithful range, for the memory at hand. */
  lemma OneDump(out: seq<Item>, es: seq<Extent>, regions: seq<Region>, start: nat, end: nat, mem: nat -> byte)
    requires Sorted(regions) && Disjoint(regions) && Reachable(regions, start, end) && (end == 0 || start <= end)
    requires es == Stretches(regions, start, end) && Chunkable(es) && |es| < MAX_REGIONS
    requires out == Stream(BlockCount(es) % 0x1_0000_0000, ChunksOf(es), start)
    ensures start <= EndOf(regions, end)
    ensures Faithful(regions, start, end) ==>
              IsDump(Render(out, mem), Usable(regions, start, EndOf(regions, end)), start, mem)
  {
    hide IsDump, Faithful, Stretches, Render, Usable, Stream;
    DumpJudged(out, es, regions, start, end);
  }
}
