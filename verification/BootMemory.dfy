/** kernel/kernel.c, the part of kernel_main that hands physical memory to the page allocator. */
module BootMemory {
  import opened Words
  import opened Pmm
  import opened Multiboot

  const LOW_MEMORY_LIMIT: word := 0x10_0000
  const IDENTITY_LIMIT: word := 0x800_0000

  // ----- importing the memory map -----

  ghost function UsableRegions(records: seq<Record>): set<Region> {
    set r | r in records && r.kind == 1 :: r.Span()
  }

  ghost function OtherRegions(records: seq<Record>): set<Region> {
    set r | r in records && r.kind != 1 :: r.Span()
  }

  lemma RegionsOfOne(r: Record, added: set<Region>, reserved: set<Region>)
    ensures added + UsableRegions([r]) == if r.kind == 1 then added + {r.Span()} else added
    ensures reserved + OtherRegions([r]) == if r.kind == 1 then reserved else reserved + {r.Span()}
  {
    assert forall x :: x in [r] <==> x == r;
    assert UsableRegions([r]) == if r.kind == 1 then {r.Span()} else {};
    assert OtherRegions([r]) == if r.kind == 1 then {} else {r.Span()};
  }

  /** The visitor: type 1 is usable, every other type is reserved. */
  method AddMemoryRegion(record: Record, pmm: PageAllocator) returns (ok: bool)
    requires pmm.Valid() && record.base + record.length < QUAD_LIMIT
    modifies pmm, pmm.managed, pmm.managed.words, pmm.marked, pmm.marked.words
    ensures pmm.Valid() && pmm.frozen == old(pmm.frozen) && (ok <==> !pmm.frozen)
    ensures ok ==> pmm.added == old(pmm.added) + UsableRegions([record])
    ensures ok ==> pmm.reserved == old(pmm.reserved) + OtherRegions([record])
  {
    RegionsOfOne(record, pmm.added, pmm.reserved);
    if record.kind == 1 {
      ok := pmm.AddUsableRegion(record.base, record.length);
    } else {
      ok := pmm.ReserveRegion(record.base, record.length);
    }
  }

  /** One turn of the visiting pass, with count records already visited. */
  method VisitRecord(mem: Memory, cursor: nat, end: nat, count: nat, pmm: PageAllocator)
    returns (ok: bool, record: Record, next: nat)
    requires cursor < end < WORD_LIMIT && Readable(mem, cursor, end - cursor) && pmm.Valid()
    modifies pmm, pmm.managed, pmm.managed.words, pmm.marked, pmm.marked.words
    ensures pmm.Valid() && pmm.frozen == old(pmm.frozen)
    ensures ok <==> RecordFits(mem, cursor, end) && count != WORD_LIMIT - 1 && !pmm.frozen
    ensures ok ==> record == RecordAt(mem, cursor) && next == cursor + Load32(mem, cursor) + 4
    ensures ok ==>
            && pmm.added == old(pmm.added) + UsableRegions([record])
            && pmm.reserved == old(pmm.reserved) + OtherRegions([record])
  {
    ok, record, next := NextRecord(mem, cursor, end, count);
    if ok {
      ok := AddMemoryRegion(record, pmm);
    }
  }

  /** The visiting pass. On a tiled map and an unfrozen allocator it cannot stop midway. */
  method ImportMap(mem: Memory, start: nat, end: nat, pmm: PageAllocator) returns (ok: bool)
    requires start < end < WORD_LIMIT && Readable(mem, start, end - start) && pmm.Valid()
    modifies pmm, pmm.managed, pmm.managed.words, pmm.marked, pmm.marked.words
    ensures pmm.Valid() && pmm.frozen == old(pmm.frozen)
    ensures ok <==> Tiled(mem, start, end) && !pmm.frozen
    ensures ok ==> pmm.added == old(pmm.added) + UsableRegions(Records(mem, start, end))
    ensures ok ==> pmm.reserved == old(pmm.reserved) + OtherRegions(Records(mem, start, end))
  {
    var cursor, count := start, 0;
    ghost var visited: seq<Record> := [];
    GatherNothing(pmm.added, pmm.reserved);
    while cursor < end
      invariant start <= cursor <= end && pmm.Valid() && pmm.frozen == old(pmm.frozen)
      invariant Walked(mem, start, cursor, end, visited)
      invariant 24 * count <= cursor - start && (count == 0 <==> cursor == start) && (pmm.frozen ==> count == 0)
      invariant Gathered(old(pmm.added), old(pmm.reserved), pmm.added, pmm.reserved, visited)
    {
      ghost var a, r := pmm.added, pmm.reserved;
      var accepted, record, next := VisitRecord(mem, cursor, end, count, pmm);
      if !accepted {
        WalkRefused(mem, start, cursor, end, visited);
        return false;
      }
      WalkStep(mem, start, cursor, end, visited, record, next);
      GatherStep(old(pmm.added), old(pmm.reserved), a, r, visited, record);
      count := count + 1;
      visited := visited + [record];
      cursor := next;
    }
    WalkEnd(mem, start, end, visited);
    ok := count != 0;
  }

  lemma WalkRefused(mem: Memory, start: nat, cursor: nat, end: nat, visited: seq<Record>)
    requires start <= cursor < end && Readable(mem, start, end - start) && Walked(mem, start, cursor, end, visited)
    ensures RecordFits(mem, cursor, end) || !Tiled(mem, start, end)
  {
    if !RecordFits(mem, cursor, end) {
      WalkStop(mem, start, cursor, end, visited);
    }
  }

  ghost predicate Gathered(added: set<Region>, reserved: set<Region>, added': set<Region>, reserved': set<Region>,
                           visited: seq<Record>) {
    added' == added + UsableRegions(visited) && reserved' == reserved + OtherRegions(visited)
  }

  lemma GatherNothing(added: set<Region>, reserved: set<Region>)
    ensures Gathered(added, reserved, added, reserved, [])
  {
  }

  lemma GatherStep(added: set<Region>, reserved: set<Region>, added': set<Region>, reserved': set<Region>,
                   visited: seq<Record>, r: Record)
    requires Gathered(added, reserved, added', reserved', visited)
    ensures Gathered(added, reserved, added' + UsableRegions([r]), reserved' + OtherRegions([r]), visited + [r])
  {
    assert forall x :: x in visited + [r] <==> x in visited || x in [r];
    assert UsableRegions(visited + [r]) == UsableRegions(visited) + UsableRegions([r]);
    assert OtherRegions(visited + [r]) == OtherRegions(visited) + OtherRegions([r]);
  }

  /** Nothing is visited unless the whole buffer is well formed. */
  method ForEachRegion(mem: Memory, magic: word, info: word, pmm: PageAllocator) returns (ok: bool)
    requires Promised(mem, magic, info) && pmm.Valid()
    modifies pmm, pmm.managed, pmm.managed.words, pmm.marked, pmm.marked.words
    ensures pmm.Valid() && pmm.frozen == old(pmm.frozen)
    ensures ok <==> Accepted(mem, magic, info) && !pmm.frozen
    ensures ok ==> pmm.added == old(pmm.added) + UsableRegions(MapRecords(mem, magic, info))
    ensures ok ==> pmm.reserved == old(pmm.reserved) + OtherRegions(MapRecords(mem, magic, info))
    ensures !Accepted(mem, magic, info) ==> pmm.added == old(pmm.added) && pmm.reserved == old(pmm.reserved)
  {
    var address, length, count;
    ok, address, length, count := CheckInfo(mem, magic, info);
    if ok {
      ok := ImportMap(mem, address, address + length, pmm);
    }
  }

  // ----- the check on the first allocation -----

  function RangesOverlap(firstBase: int, firstLength: int, secondBase: int, secondLength: int): bool {
    firstBase < secondBase + secondLength && secondBase < firstBase + firstLength
  }

  predicate AllocationIsReserved(page: int, owned: OwnedRanges, kernelStart: int, kernelEnd: int) {
    || RangesOverlap(page, 4096, 0, LOW_MEMORY_LIMIT)
    || RangesOverlap(page, 4096, kernelStart, kernelEnd - kernelStart)
    || RangesOverlap(page, 4096, owned.infoAddress, owned.infoLength)
    || RangesOverlap(page, 4096, owned.mapAddress, owned.mapLength)
  }

  /** The four ranges kernel_main reserves on top of the memory map. */
  ghost function KernelRanges(owned: OwnedRanges, kernelStart: int, kernelEnd: int): set<Region> {
    { Region(0, LOW_MEMORY_LIMIT), Region(kernelStart, kernelEnd - kernelStart),
      Region(owned.infoAddress, owned.infoLength), Region(owned.mapAddress, owned.mapLength) }
  }

  ghost predicate RangesAreReal(owned: OwnedRanges, kernelStart: int, kernelEnd: int) {
    kernelStart < kernelEnd && owned.infoLength > 0 && owned.mapLength > 0
  }

  lemma UsablePageIsNotOwned(added: set<Region>, reserved: set<Region>, owned: OwnedRanges, kernelStart: int,
                             kernelEnd: int, p: nat)
    requires KernelRanges(owned, kernelStart, kernelEnd) <= reserved && RangesAreReal(owned, kernelStart, kernelEnd)
    requires Usable(added, reserved, p)
    ensures !AllocationIsReserved(4096 * p, owned, kernelStart, kernelEnd)
  {
    assert forall r :: r in KernelRanges(owned, kernelStart, kernelEnd) ==>
        r in reserved && !PageMeets(r.base, r.End(), p);
    assert Region(0, LOW_MEMORY_LIMIT) in KernelRanges(owned, kernelStart, kernelEnd);
    assert Region(kernelStart, kernelEnd - kernelStart) in KernelRanges(owned, kernelStart, kernelEnd);
    assert Region(owned.infoAddress, owned.infoLength) in KernelRanges(owned, kernelStart, kernelEnd);
    assert Region(owned.mapAddress, owned.mapLength) in KernelRanges(owned, kernelStart, kernelEnd);
  }

  lemma ManagedPageIsNotOwned(pmm: PageAllocator, owned: OwnedRanges, kernelStart: int, kernelEnd: int, p: nat)
    requires KernelRanges(owned, kernelStart, kernelEnd) <= pmm.reserved && RangesAreReal(owned, kernelStart, kernelEnd)
    requires pmm.Valid() && p in pmm.managed.members
    ensures !AllocationIsReserved(4096 * p, owned, kernelStart, kernelEnd)
  {
    assert Usable(pmm.added, pmm.reserved, p);
    UsablePageIsNotOwned(pmm.added, pmm.reserved, owned, kernelStart, kernelEnd, p);
  }

  /** Every page that can ever be handed out lies wholly in one type-1 record, shares no byte with
      a record of another type, and is in none of the kernel's own ranges. */
  lemma ManagedPagesAreSafe(pmm: PageAllocator, records: seq<Record>, owned: OwnedRanges, kernelStart: int,
                            kernelEnd: int, p: nat)
    requires pmm.Valid() && pmm.added == UsableRegions(records)
    requires pmm.reserved == OtherRegions(records) + KernelRanges(owned, kernelStart, kernelEnd)
    requires RangesAreReal(owned, kernelStart, kernelEnd) && p in pmm.managed.members
    ensures exists r :: r in records && r.kind == 1 && PageWithin(r.base, r.base + r.length, p)
    ensures forall r :: r in records && r.kind != 1 ==> !PageMeets(r.base, r.base + r.length, p)
    ensures !AllocationIsReserved(4096 * p, owned, kernelStart, kernelEnd)
  {
    assert Usable(pmm.added, pmm.reserved, p);
    ManagedPageIsNotOwned(pmm, owned, kernelStart, kernelEnd, p);
    var g :| g in pmm.added && PageWithin(g.base, g.End(), p);
    var r :| r in records && r.kind == 1 && r.Span() == g;
    forall x | x in records && x.kind != 1 ensures !PageMeets(x.base, x.base + x.length, p) {
      assert x.Span() in pmm.reserved;
      assert !PageMeets(x.Span().base, x.Span().End(), p);
    }
  }

  // ----- kernel_main -----

  datatype Outcome = Ready | FailMultiboot | FailKernelRange | FailPmmMap | FailPmmReserve | FailPmmSelfTest

  lemma RangesOneByOne(s: set<Region>, owned: OwnedRanges, kernelStart: int, kernelEnd: int)
    ensures s + {Region(0, LOW_MEMORY_LIMIT)} + {Region(kernelStart, kernelEnd - kernelStart)}
            + {Region(owned.infoAddress, owned.infoLength)} + {Region(owned.mapAddress, owned.mapLength)}
            == s + KernelRanges(owned, kernelStart, kernelEnd)
  {
  }

  method ReserveKernelRanges(owned: OwnedRanges, kernelStart: word, kernelEnd: word, pmm: PageAllocator)
    returns (ok: bool)
    requires pmm.Valid() && !pmm.frozen && RangesAreReal(owned, kernelStart, kernelEnd)
    modifies pmm, pmm.managed, pmm.managed.words, pmm.marked, pmm.marked.words
    ensures ok && pmm.Valid() && !pmm.frozen && pmm.added == old(pmm.added)
    ensures pmm.reserved == old(pmm.reserved) + KernelRanges(owned, kernelStart, kernelEnd)
  {
    RangesOneByOne(pmm.reserved, owned, kernelStart, kernelEnd);
    ok := pmm.ReserveRegion(0, LOW_MEMORY_LIMIT);
    if ok {
      ok := pmm.ReserveRegion(kernelStart, kernelEnd - kernelStart);
    }
    if ok {
      ok := pmm.ReserveRegion(owned.infoAddress, owned.infoLength);
    }
    if ok {
      ok := pmm.ReserveRegion(owned.mapAddress, owned.mapLength);
    }
  }

  /** Allocates a page and checks that it is aligned, counted and in no owned range. */
  method AllocateAndCheck(owned: OwnedRanges, kernelStart: word, kernelEnd: word, pmm: PageAllocator)
    returns (ok: bool, page: nat)
    requires pmm.Valid() && pmm.freePages > 0 && RangesAreReal(owned, kernelStart, kernelEnd)
    requires KernelRanges(owned, kernelStart, kernelEnd) <= pmm.reserved
    modifies pmm, pmm.managed, pmm.managed.words, pmm.marked, pmm.marked.words
    ensures ok && pmm.Valid() && pmm.frozen && pmm.added == old(pmm.added) && pmm.reserved == old(pmm.reserved)
    ensures pmm.totalPages == old(pmm.totalPages) && pmm.managed.members == old(pmm.managed.members)
    ensures pmm.freePages == old(pmm.freePages) - 1 && pmm.marked.members == old(pmm.marked.members) + {page / 4096}
    ensures LowestFree(old(pmm.managed.members), old(pmm.marked.members), page)
  {
    var freeBefore := pmm.freePages;
    page := pmm.AllocPage();
    ManagedPageIsNotOwned(pmm, owned, kernelStart, kernelEnd, page / 4096);
    ok := page != 0 && page % 4096 == 0 && pmm.freePages == freeBefore - 1
        && !AllocationIsReserved(page, owned, kernelStart, kernelEnd);
  }

  /** After the first allocation no region may be added or reserved. */
  method OwnershipIsFrozen(page: nat, pmm: PageAllocator) returns (ok: bool)
    requires pmm.Valid() && pmm.frozen && page < PHYSICAL_LIMIT
    modifies pmm, pmm.managed, pmm.managed.words, pmm.marked, pmm.marked.words
    ensures ok && unchanged(pmm, pmm.managed, pmm.managed.words, pmm.marked, pmm.marked.words)
  {
    var added := pmm.AddUsableRegion(0, 4096);
    var reserved := pmm.ReserveRegion(page, 4096);
    ok := !added && !reserved;
  }

  /** The page is taken back once and not twice. */
  method FreeOnce(page: nat, pmm: PageAllocator) returns (ok: bool)
    requires pmm.Valid() && page < PHYSICAL_LIMIT && page % 4096 == 0 && page / 4096 in pmm.Outstanding()
    modifies pmm`freePages, pmm.marked, pmm.marked.words
    ensures ok && pmm.Valid() && pmm.freePages == old(pmm.freePages) + 1
    ensures pmm.marked.members == old(pmm.marked.members) - {page / 4096}
  {
    var freeBefore := pmm.freePages;
    var first := pmm.FreePage(page);
    var counted := pmm.freePages == freeBefore + 1;
    var second := pmm.FreePage(page);
    ok := first && counted && !second;
  }

  method SelfTest(owned: OwnedRanges, kernelStart: word, kernelEnd: word, pmm: PageAllocator) returns (ok: bool)
    requires pmm.Valid() && pmm.freePages > 0 && RangesAreReal(owned, kernelStart, kernelEnd)
    requires KernelRanges(owned, kernelStart, kernelEnd) <= pmm.reserved
    modifies pmm, pmm.managed, pmm.managed.words, pmm.marked, pmm.marked.words
    ensures ok && pmm.Valid() && pmm.frozen && pmm.added == old(pmm.added) && pmm.reserved == old(pmm.reserved)
    ensures pmm.totalPages == old(pmm.totalPages) && pmm.freePages == old(pmm.freePages)
    ensures pmm.managed.members == old(pmm.managed.members) && pmm.marked.members == old(pmm.marked.members)
  {
    var page;
    ok, page := AllocateAndCheck(owned, kernelStart, kernelEnd, pmm);
    var frozen := OwnershipIsFrozen(page, pmm);
    var freed := FreeOnce(page, pmm);
    ok := ok && frozen && freed;
  }

  /** From pmm_reset to the last reservation. */
  method ClaimMemory(mem: Memory, magic: word, info: word, owned: OwnedRanges, kernelStart: word, kernelEnd: word,
                     pmm: PageAllocator)
    returns (outcome: Outcome)
    requires Promised(mem, magic, info) && Accepted(mem, magic, info) && owned == OwnedBy(mem, info)
    requires pmm.Shaped() && kernelStart < kernelEnd
    modifies pmm, pmm.managed, pmm.managed.words, pmm.marked, pmm.marked.words
    ensures outcome == Ready || outcome == FailPmmReserve
    ensures pmm.Valid() && !pmm.frozen && Imported(mem, magic, info, kernelStart, kernelEnd, pmm)
    ensures outcome == FailPmmReserve <==> pmm.managed.members == {}
  {
    pmm.Reset();
    FromNothing(UsableRegions(MapRecords(mem, magic, info)), OtherRegions(MapRecords(mem, magic, info)));
    var imported := ForEachRegion(mem, magic, info, pmm);
    if !imported {
      return FailPmmMap;
    }
    var reserved := ReserveKernelRanges(owned, kernelStart, kernelEnd, pmm);
    UnfrozenIsUntouched(pmm);
    pmm.NothingLeft();
    if !reserved || pmm.totalPages == 0 || pmm.freePages == 0 {
      return FailPmmReserve;
    }
    return Ready;
  }

  lemma FromNothing(a: set<Region>, b: set<Region>)
    ensures {} + a == a && {} + b == b
  {
  }

  lemma UnfrozenIsUntouched(pmm: PageAllocator)
    requires pmm.Valid() && !pmm.frozen
    ensures pmm.Outstanding() == {}
  {
  }

  /** The memory part of kernel_main: which of its failure reports can be reached, and when. */
  method BootMemory(mem: Memory, magic: word, info: word, kernelStart: word, kernelEnd: word, pmm: PageAllocator)
    returns (outcome: Outcome)
    requires Promised(mem, magic, info) && pmm.Shaped()
    modifies pmm, pmm.managed, pmm.managed.words, pmm.marked, pmm.marked.words
    ensures outcome != FailPmmMap && outcome != FailPmmSelfTest
    ensures outcome == FailMultiboot <==> !Accepted(mem, magic, info)
    ensures outcome == FailKernelRange <==> Accepted(mem, magic, info) && !(kernelStart < kernelEnd <= IDENTITY_LIMIT)
    ensures outcome == Ready || outcome == FailPmmReserve ==>
            pmm.Valid() && Imported(mem, magic, info, kernelStart, kernelEnd, pmm)
    ensures outcome == FailPmmReserve ==> pmm.managed.members == {}
    ensures outcome == Ready ==>
            pmm.managed.members != {} && pmm.frozen && pmm.Outstanding() == {} && pmm.freePages == pmm.totalPages
  {
    var parsed, summary := Parse(mem, magic, info, Summary(0, 0, 0));
    var found, owned := GetOwnedRanges(mem, magic, info, OwnedRanges(0, 0, 0, 0));
    if !parsed || !found {
      return FailMultiboot;
    }
    if kernelEnd <= kernelStart || kernelEnd > IDENTITY_LIMIT {
      return FailKernelRange;
    }
    outcome := ClaimMemory(mem, magic, info, owned, kernelStart, kernelEnd, pmm);
    if outcome != Ready {
      return;
    }
    UnfrozenIsUntouched(pmm);
    pmm.NothingLeft();
    var tested := SelfTest(owned, kernelStart, kernelEnd, pmm);
    if !tested {
      outcome := FailPmmSelfTest;
    }
  }

  /** The allocator knows exactly the map's type-1 records as usable, and the other records and
      the kernel's own ranges as reserved. */
  ghost predicate Imported(mem: Memory, magic: word, info: word, kernelStart: int, kernelEnd: int, pmm: PageAllocator)
    requires Promised(mem, magic, info)
    reads pmm
  {
    && Accepted(mem, magic, info) && kernelStart < kernelEnd
    && pmm.added == UsableRegions(MapRecords(mem, magic, info))
    && pmm.reserved ==
       OtherRegions(MapRecords(mem, magic, info)) + KernelRanges(OwnedBy(mem, info), kernelStart, kernelEnd)
  }

  ghost function OwnedBy(mem: Memory, info: word): OwnedRanges
    requires Readable(mem, info, INFO_SIZE)
  {
    OwnedRanges(info, INFO_SIZE, MapAddress(mem, info), MapLength(mem, info))
  }
}
