/** The firmware's memory map as the crash dump readers see it (libadb/reader.c). */
module MemoryMap {

  import opened Bytes

  const MAX_REGIONS := 256
  const ADDRESS_LIMIT := 0x10_0000_0000_0000

  /** One EFI_MEMORY_DESCRIPTOR: conventional memory or not, first address, number of pages. */
  datatype Region = Region(conventional: bool, start: nat, pages: nat) {
    function End(): nat {
      start + pages * 4096
    }

    predicate Contains(a: nat) {
      start <= a < End()
    }
  }

  /** What sort_memory_map leaves: regions in order, within the 52 bits of a physical address. */
  predicate Sorted(regions: seq<Region>) {
    && (forall i, j :: 0 <= i < j < |regions| ==>
          regions[i].start <= regions[j].start && regions[i].End() <= regions[j].End())
    && forall i :: 0 <= i < |regions| ==> regions[i].End() <= ADDRESS_LIMIT
  }

  predicate Disjoint(regions: seq<Region>) {
    forall i, j :: 0 <= i < j < |regions| ==> regions[i].End() <= regions[j].start
  }

  /** Address `a` is in conventional memory. */
  predicate Conventional(regions: seq<Region>, a: nat) {
    exists i :: 0 <= i < |regions| && regions[i].conventional && regions[i].Contains(a)
  }

  /** For every address of a range, whether it is in conventional memory. */
  function Usable(regions: seq<Region>, lo: nat, hi: nat): seq<bool>
    requires lo <= hi
  {
    seq(hi - lo, i requires 0 <= i => Conventional(regions, lo + i))
  }

  function Same(b: bool, n: nat): seq<bool> {
    seq(n, _ => b)
  }

  lemma UsableSplit(regions: seq<Region>, lo: nat, mid: nat, hi: nat)
    requires lo <= mid <= hi
    ensures Usable(regions, lo, mid) + Usable(regions, mid, hi) == Usable(regions, lo, hi)
  {
  }

  /** A stretch inside region `i`. */
  lemma UsableInside(regions: seq<Region>, i: nat, lo: nat, hi: nat)
    requires i < |regions| && Disjoint(regions) && regions[i].start <= lo <= hi <= regions[i].End()
    ensures Usable(regions, lo, hi) == Same(regions[i].conventional, hi - lo)
  {
    forall a | lo <= a < hi
      ensures Conventional(regions, a) == regions[i].conventional
    {
      assert regions[i].Contains(a);
    }
  }

  /** A stretch between the end of region `i - 1` and the start of region `i`. */
  lemma UsableGap(regions: seq<Region>, i: nat, lo: nat, hi: nat)
    requires i < |regions| && Sorted(regions) && lo <= hi <= regions[i].start
    requires i == 0 || regions[i - 1].End() <= lo
    ensures Usable(regions, lo, hi) == Same(false, hi - lo)
  {
    forall a | lo <= a < hi
      ensures !Conventional(regions, a)
    {
      forall j | 0 <= j < |regions|
        ensures !regions[j].Contains(a)
      {
        if j < i - 1 {
          assert regions[j].End() <= regions[i - 1].End();
        } else if j > i {
          assert regions[i].start <= regions[j].start;
        }
      }
    }
  }

  /** Where a range ends, from the optional length that memory_open parses: a 64-bit sum, zero without a length. */
  function RangeEnd(start: u64, length: Option<u64>): u64 {
    match length
    case None => 0
    case Some(n) => (start + n) % 0x1_0000_0000_0000_0000
  }
}
