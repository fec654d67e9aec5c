/** What the boot loader leaves in memory, byte by byte, and what the kernel makes of it: the
    layout of the Multiboot header and memory map (section 3.3 of the Multiboot specification
    0.6.96) written down independently of the decoder. */
module BootImage {
  import opened Words
  import opened Pmm
  import opened Multiboot
  import opened BootMemory

  // ----- little-endian numbers -----

  ghost predicate Word32At(mem: Memory, a: nat, w: word) {
    && a in mem && a + 1 in mem && a + 2 in mem && a + 3 in mem
    && mem[a] == w % 256 && mem[a + 1] == w / 256 % 256
    && mem[a + 2] == w / 65536 % 256 && mem[a + 3] == w / 16777216
  }

  ghost predicate Word64At(mem: Memory, a: nat, q: quad) {
    Word32At(mem, a, q % 0x1_0000_0000) && Word32At(mem, a + 4, q / 0x1_0000_0000)
  }

  lemma Word32IsLoaded(mem: Memory, a: nat, w: word)
    ensures Word32At(mem, a, w) <==> Readable(mem, a, 4) && Load32(mem, a) == w
  {
    WordIsItsBytes(w);
    if Readable(mem, a, 4) && Load32(mem, a) == w {
      BytesOfPack(mem[a], mem[a + 1], mem[a + 2], mem[a + 3]);
    }
  }

  lemma Halves(q: quad, low: word, high: word)
    ensures q == low + 0x1_0000_0000 * high <==> q % 0x1_0000_0000 == low && q / 0x1_0000_0000 == high
  {
  }

  lemma Word64IsLoaded(mem: Memory, a: nat, q: quad)
    ensures Word64At(mem, a, q) <==> Readable(mem, a, 8) && Load64(mem, a) == q
  {
    Word32IsLoaded(mem, a, q % 0x1_0000_0000);
    Word32IsLoaded(mem, a + 4, q / 0x1_0000_0000);
    if Readable(mem, a, 8) {
      Halves(q, Load32(mem, a), Load32(mem, a + 4));
    }
  }

  // ----- one entry of the map -----

  /** A record and the bytes it takes: a size word that does not count itself, base, length,
      type, and whatever the boot loader adds after them. */
  datatype Entry = Entry(record: Record, size: nat)

  ghost predicate EntryAt(mem: Memory, a: nat, e: Entry) {
    && 24 <= e.size < 0x1_0000_0004 && Readable(mem, a, e.size)
    && Word32At(mem, a, e.size - 4)
    && Word64At(mem, a + 4, e.record.base)
    && Word64At(mem, a + 12, e.record.length)
    && Word32At(mem, a + 20, e.record.kind)
  }

  predicate LegalRecord(r: Record) {
    0 < r.length && r.base + r.length < 0x1_0000_0000_0000_0000
  }

  ghost predicate LegalRecords(es: seq<Entry>) {
    forall k :: 0 <= k < |es| ==> LegalRecord(es[k].record)
  }

  lemma EntryIsRead(mem: Memory, a: nat, e: Entry)
    ensures EntryAt(mem, a, e) <==>
            && 24 <= e.size < 0x1_0000_0004 && Readable(mem, a, e.size)
            && Load32(mem, a) == e.size - 4 && RecordAt(mem, a) == e.record
  {
    if 24 <= e.size < 0x1_0000_0004 && Readable(mem, a, e.size) {
      Word32IsLoaded(mem, a, e.size - 4);
      Word64IsLoaded(mem, a + 4, e.record.base);
      Word64IsLoaded(mem, a + 12, e.record.length);
      Word32IsLoaded(mem, a + 20, e.record.kind);
    }
  }

  // ----- the whole map -----

  /** Legal entries lie one after another from start exactly to end. */
  ghost predicate MapLies(mem: Memory, start: nat, end: nat, es: seq<Entry>)
    decreases es
  {
    if es == [] then start == end
    else
      LegalRecord(es[0].record) && EntryAt(mem, start, es[0]) && MapLies(mem, start + es[0].size, end, es[1..])
  }

  function RecordsOf(es: seq<Entry>): (rs: seq<Record>)
    ensures |rs| == |es| && forall k :: 0 <= k < |es| ==> rs[k] == es[k].record
  {
    if es == [] then [] else [es[0].record] + RecordsOf(es[1..])
  }

  lemma TileOne(mem: Memory, start: nat, end: nat, e: Entry)
    requires EntryAt(mem, start, e) && LegalRecord(e.record) && start + e.size <= end
    requires Readable(mem, start + e.size, end - start - e.size) && Tiled(mem, start + e.size, end)
    ensures Readable(mem, start, end - start) && Tiled(mem, start, end)
    ensures Records(mem, start, end) == [e.record] + Records(mem, start + e.size, end)
  {
    EntryIsRead(mem, start, e);
    TiledStep(mem, start, end);
  }

  /** Any legal records laid out one after another, with anything in between that their size
      words cover, are a well-formed map, and reading it gives those records back. */
  lemma {:induction false} LaidOutIsRead(mem: Memory, start: nat, end: nat, es: seq<Entry>)
    requires MapLies(mem, start, end, es)
    ensures start <= end && Readable(mem, start, end - start)
    ensures Tiled(mem, start, end) && Records(mem, start, end) == RecordsOf(es)
    decreases es
  {
    if es != [] {
      LaidOutIsRead(mem, start + es[0].size, end, es[1..]);
      TileOne(mem, start, end, es[0]);
    }
  }

  /** Conversely, a map the decoder accepts is legal records laid out one after another. */
  lemma {:induction false} ReadIsLaidOut(mem: Memory, start: nat, end: nat) returns (es: seq<Entry>)
    requires start <= end && Readable(mem, start, end - start) && Tiled(mem, start, end)
    ensures MapLies(mem, start, end, es) && RecordsOf(es) == Records(mem, start, end)
    decreases end - start
  {
    if start == end {
      es := [];
    } else {
      var e := Entry(RecordAt(mem, start), Load32(mem, start) + 4);
      EntryIsRead(mem, start, e);
      var rest := ReadIsLaidOut(mem, start + e.size, end);
      es := [e] + rest;
      assert es[1..] == rest;
    }
  }

  // ----- header and map -----

  /** The words of the information header that the kernel uses. */
  datatype Header = Header(flags: word, lowerKib: word, upperKib: word, mapLength: word, mapAddress: word)

  ghost predicate HeaderAt(mem: Memory, info: nat, h: Header) {
    && Readable(mem, info, 52)
    && Word32At(mem, info, h.flags) && Word32At(mem, info + 4, h.lowerKib) && Word32At(mem, info + 8, h.upperKib)
    && Word32At(mem, info + 44, h.mapLength) && Word32At(mem, info + 48, h.mapAddress)
  }

  /** Bits 0 and 6 of the flags announce the memory sizes and the map. */
  predicate LegalHeader(magic: word, info: word, h: Header) {
    && magic == 0x2BADB002 && 0 < info < 0xFFFF_FFCC
    && h.flags % 2 == 1 && h.flags / 64 % 2 == 1
    && 0 < h.mapAddress && 0 < h.mapLength && h.mapAddress + h.mapLength < 0x1_0000_0000
  }

  lemma HeaderIsRead(mem: Memory, info: nat, h: Header)
    ensures HeaderAt(mem, info, h) <==>
            && Readable(mem, info, 52)
            && Load32(mem, info) == h.flags
            && Load32(mem, info + 4) == h.lowerKib && Load32(mem, info + 8) == h.upperKib
            && MapLength(mem, info) == h.mapLength && MapAddress(mem, info) == h.mapAddress
  {
    if Readable(mem, info, 52) {
      Word32IsLoaded(mem, info, h.flags);
      Word32IsLoaded(mem, info + 4, h.lowerKib);
      Word32IsLoaded(mem, info + 8, h.upperKib);
      Word32IsLoaded(mem, info + 44, h.mapLength);
      Word32IsLoaded(mem, info + 48, h.mapAddress);
    }
  }

  lemma HeaderIsJudged(mem: Memory, magic: word, info: word, h: Header)
    requires HeaderAt(mem, info, h)
    ensures Readable(mem, info, INFO_SIZE)
    ensures HeaderAddressed(magic, info) && HeaderAccepted(mem, info) <==> LegalHeader(magic, info, h)
    ensures MapLength(mem, info) == h.mapLength && MapAddress(mem, info) == h.mapAddress
  {
    HeaderIsRead(mem, info, h);
  }

  /** A header and a map in memory. */
  ghost predicate ImageLies(mem: Memory, info: nat, h: Header, es: seq<Entry>) {
    HeaderAt(mem, info, h) && MapLies(mem, h.mapAddress, h.mapAddress + h.mapLength, es)
  }

  /** The kernel accepts a laid-out image exactly when its header is legal, and then sees exactly
      the records laid out. */
  lemma ImageIsRead(mem: Memory, magic: word, info: word, h: Header, es: seq<Entry>)
    requires ImageLies(mem, info, h, es)
    ensures Promised(mem, magic, info)
    ensures Accepted(mem, magic, info) <==> LegalHeader(magic, info, h)
    ensures Accepted(mem, magic, info) ==> MapRecords(mem, magic, info) == RecordsOf(es)
    ensures OwnedBy(mem, info) == OwnedRanges(info, 52, h.mapAddress, h.mapLength)
  {
    HeaderIsJudged(mem, magic, info, h);
    LaidOutIsRead(mem, h.mapAddress, h.mapAddress + h.mapLength, es);
    assert Promised(mem, magic, info);
  }

  /** The kernel accepts nothing else. */
  lemma AcceptedIsImage(mem: Memory, magic: word, info: word) returns (h: Header, es: seq<Entry>)
    requires Promised(mem, magic, info) && Accepted(mem, magic, info)
    ensures ImageLies(mem, info, h, es) && LegalHeader(magic, info, h) && es != []
  {
    h := Header(Load32(mem, info), Load32(mem, info + 4), Load32(mem, info + 8), MapLength(mem, info),
                MapAddress(mem, info));
    HeaderIsRead(mem, info, h);
    es := ReadIsLaidOut(mem, h.mapAddress, h.mapAddress + h.mapLength);
  }

  // ----- the pages handed to the allocator -----

  /** Page p and the bytes from low up to high have nothing in common. */
  predicate Misses(p: nat, low: int, high: int) {
    4096 * p + 4096 <= low || high <= 4096 * p
  }

  predicate InsideRecord(p: nat, r: Record) {
    r.base <= 4096 * p && 4096 * p + 4096 <= r.base + r.length
  }

  /** All the kernel asks of a page before it may ever hand it out. */
  ghost predicate MayBeUsed(info: word, h: Header, es: seq<Entry>, kernelStart: int, kernelEnd: int, p: nat) {
    && p < 0x10_0000
    && (exists k :: 0 <= k < |es| && es[k].record.kind == 1 && InsideRecord(p, es[k].record))
    && (forall k :: 0 <= k < |es| && es[k].record.kind != 1 ==>
          Misses(p, es[k].record.base, es[k].record.base + es[k].record.length))
    && Misses(p, 0, 0x10_0000) && Misses(p, kernelStart, kernelEnd)
    && Misses(p, info, info + 52) && Misses(p, h.mapAddress, h.mapAddress + h.mapLength)
  }

  lemma {:induction false} LyingRecordsAreLegal(mem: Memory, start: nat, end: nat, es: seq<Entry>, k: nat)
    requires MapLies(mem, start, end, es) && k < |es|
    ensures LegalRecord(es[k].record)
    decreases es
  {
    if k > 0 {
      LyingRecordsAreLegal(mem, start + es[0].size, end, es[1..], k - 1);
    }
  }

  lemma {:induction false} InsideSomeUsable(es: seq<Entry>, p: nat)
    ensures (exists r :: r in UsableRegions(RecordsOf(es)) && PageWithin(r.base, r.End(), p))
            <==> exists k :: 0 <= k < |es| && es[k].record.kind == 1 && InsideRecord(p, es[k].record)
  {
    var rs := RecordsOf(es);
    if r :| r in UsableRegions(rs) && PageWithin(r.base, r.End(), p) {
      var x :| x in rs && x.kind == 1 && x.Span() == r;
      var k :| 0 <= k < |rs| && rs[k] == x;
      assert InsideRecord(p, es[k].record);
    }
    if k :| 0 <= k < |es| && es[k].record.kind == 1 && InsideRecord(p, es[k].record) {
      assert rs[k] in rs;
      assert rs[k].Span() in UsableRegions(rs);
    }
  }

  lemma {:induction false} MeetsSomeOther(es: seq<Entry>, p: nat)
    requires LegalRecords(es)
    ensures (forall r :: r in OtherRegions(RecordsOf(es)) ==> !PageMeets(r.base, r.End(), p))
            <==> forall k :: 0 <= k < |es| && es[k].record.kind != 1 ==>
                   Misses(p, es[k].record.base, es[k].record.base + es[k].record.length)
  {
    var rs := RecordsOf(es);
    if k :| 0 <= k < |es| && es[k].record.kind != 1
            && !Misses(p, es[k].record.base, es[k].record.base + es[k].record.length) {
      assert rs[k] in rs;
      assert rs[k].Span() in OtherRegions(rs);
    }
    if r :| r in OtherRegions(rs) && PageMeets(r.base, r.End(), p) {
      var x :| x in rs && x.kind != 1 && x.Span() == r;
      var k :| 0 <= k < |rs| && rs[k] == x;
      assert !Misses(p, es[k].record.base, es[k].record.base + es[k].record.length);
    }
  }

  lemma MeetsNoKernelRange(owned: OwnedRanges, kernelStart: int, kernelEnd: int, p: nat)
    requires RangesAreReal(owned, kernelStart, kernelEnd)
    ensures (forall r :: r in KernelRanges(owned, kernelStart, kernelEnd) ==> !PageMeets(r.base, r.End(), p)) <==>
            && Misses(p, 0, 0x10_0000) && Misses(p, kernelStart, kernelEnd)
            && Misses(p, owned.infoAddress, owned.infoAddress + owned.infoLength)
            && Misses(p, owned.mapAddress, owned.mapAddress + owned.mapLength)
  {
    var ranges := KernelRanges(owned, kernelStart, kernelEnd);
    assert Region(0, LOW_MEMORY_LIMIT) in ranges && Region(kernelStart, kernelEnd - kernelStart) in ranges;
    assert Region(owned.infoAddress, owned.infoLength) in ranges && Region(owned.mapAddress, owned.mapLength) in ranges;
  }

  /** The self-test's check on the first page refuses exactly the pages that touch an owned range. */
  lemma OwnedCheckIsExact(owned: OwnedRanges, kernelStart: int, kernelEnd: int, p: nat)
    requires RangesAreReal(owned, kernelStart, kernelEnd)
    ensures !AllocationIsReserved(4096 * p, owned, kernelStart, kernelEnd) <==>
            && Misses(p, 0, 0x10_0000) && Misses(p, kernelStart, kernelEnd)
            && Misses(p, owned.infoAddress, owned.infoAddress + owned.infoLength)
            && Misses(p, owned.mapAddress, owned.mapAddress + owned.mapLength)
  {
  }

  /** With a map that lies in memory imported, a page is managed, and so may be handed out,
      exactly when every one of its bytes is in one record of type 1 and none is in a record of
      another type, in the first megabyte, in the kernel, in the header or in the map. */
  lemma ManagedExactly(mem: Memory, magic: word, info: word, h: Header, es: seq<Entry>, kernelStart: int,
                       kernelEnd: int, pmm: PageAllocator, p: nat)
    requires ImageLies(mem, info, h, es) && Promised(mem, magic, info)
    requires pmm.Valid() && Imported(mem, magic, info, kernelStart, kernelEnd, pmm)
    ensures p in pmm.managed.members <==> MayBeUsed(info, h, es, kernelStart, kernelEnd, p)
  {
    ImportedImage(mem, magic, info, h, es, kernelStart, kernelEnd, pmm);
    ManagedIsUsable(pmm, p);
    UsableExactly(info, h, es, kernelStart, kernelEnd, p);
  }

  lemma ImportedImage(mem: Memory, magic: word, info: word, h: Header, es: seq<Entry>, kernelStart: int,
                      kernelEnd: int, pmm: PageAllocator)
    requires ImageLies(mem, info, h, es) && Promised(mem, magic, info)
    requires Imported(mem, magic, info, kernelStart, kernelEnd, pmm)
    ensures kernelStart < kernelEnd && 0 < h.mapLength && LegalRecords(es)
    ensures pmm.added == UsableRegions(RecordsOf(es))
    ensures pmm.reserved == OtherRegions(RecordsOf(es))
            + KernelRanges(OwnedRanges(info, 52, h.mapAddress, h.mapLength), kernelStart, kernelEnd)
  {
    ImageIsRead(mem, magic, info, h, es);
    forall k | 0 <= k < |es| ensures LegalRecord(es[k].record) {
      LyingRecordsAreLegal(mem, h.mapAddress, h.mapAddress + h.mapLength, es, k);
    }
  }

  lemma ManagedIsUsable(pmm: PageAllocator, p: nat)
    requires pmm.Valid()
    ensures p in pmm.managed.members <==> p < PAGE_COUNT && Usable(pmm.added, pmm.reserved, p)
  {
  }

  lemma UsableExactly(info: word, h: Header, es: seq<Entry>, kernelStart: int, kernelEnd: int, p: nat)
    requires kernelStart < kernelEnd && 0 < h.mapLength
    requires LegalRecords(es)
    ensures var rs := RecordsOf(es);
            var ranges := KernelRanges(OwnedRanges(info, 52, h.mapAddress, h.mapLength), kernelStart, kernelEnd);
            p < PAGE_COUNT && Usable(UsableRegions(rs), OtherRegions(rs) + ranges, p)
            <==> MayBeUsed(info, h, es, kernelStart, kernelEnd, p)
  {
    var owned := OwnedRanges(info, 52, h.mapAddress, h.mapLength);
    InsideSomeUsable(es, p);
    MeetsSomeOther(es, p);
    MeetsNoKernelRange(owned, kernelStart, kernelEnd, p);
    ReservedByEither(OtherRegions(RecordsOf(es)), KernelRanges(owned, kernelStart, kernelEnd), p);
  }

  lemma ReservedByEither(a: set<Region>, b: set<Region>, p: nat)
    ensures Reserved(a + b, p) <==>
            || p == 0
            || !(forall r :: r in a ==> !PageMeets(r.base, r.End(), p))
            || !(forall r :: r in b ==> !PageMeets(r.base, r.End(), p))
  {
  }

  /** kernel_main on any image: each report has its exact cause, two of them are never made, and
      when memory is up the pages in hand are exactly those that may be used, all of them free. */
  method BootFromImage(mem: Memory, magic: word, info: word, ghost h: Header, ghost es: seq<Entry>, kernelStart: word,
                       kernelEnd: word, pmm: PageAllocator)
    returns (outcome: Outcome)
    requires ImageLies(mem, info, h, es) && pmm.Shaped()
    modifies pmm, pmm.managed, pmm.managed.words, pmm.marked, pmm.marked.words
    ensures outcome == FailMultiboot <==> !LegalHeader(magic, info, h)
    ensures outcome == FailKernelRange <==> LegalHeader(magic, info, h) && !(kernelStart < kernelEnd <= 0x800_0000)
    ensures outcome != FailPmmMap && outcome != FailPmmSelfTest
    ensures outcome == FailPmmReserve ==> forall p: nat :: !MayBeUsed(info, h, es, kernelStart, kernelEnd, p)
    ensures outcome == Ready ==>
              && pmm.Valid() && pmm.managed.members != {} && pmm.Outstanding() == {} && pmm.freePages == pmm.totalPages
              && forall p: nat :: p in pmm.managed.members <==> MayBeUsed(info, h, es, kernelStart, kernelEnd, p)
  {
    ImageIsRead(mem, magic, info, h, es);
    outcome := BootMemory.BootMemory(mem, magic, info, kernelStart, kernelEnd, pmm);
    if outcome == Ready || outcome == FailPmmReserve {
      forall p: nat ensures p in pmm.managed.members <==> MayBeUsed(info, h, es, kernelStart, kernelEnd, p) {
        ManagedExactly(mem, magic, info, h, es, kernelStart, kernelEnd, pmm, p);
      }
    }
  }
}
