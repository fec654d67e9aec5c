/** kernel/mm/heap.c: the bootstrap kernel heap over a fixed 256 KiB arena. */
module Heap {
  import opened Words
  import opened HeapBlocks
  import opened HeapMemory

  datatype HeapStats = HeapStats(totalBytes: nat, freeBytes: nat, largestFreeBlock: nat, allocatedBlocks: nat)

  function StatsOf(bs: seq<Block>): HeapStats {
    HeapStats(ARENA_BYTES - 32, 16 * FreeTotal(bs), 16 * LargestFree(bs), AllocatedCount(bs))
  }

  // ----- scanning -----

  /** The blocks passed so far by the validator: consistent headers up to granule limit, each
      linked to the block after it. */
  predicate Scanned(m: seq<word>, base: word, bs: seq<Block>, limit: nat) {
    && |m| == ARENA_WORDS
    && Contiguous(bs, limit)
    && Coalesced(bs)
    && forall i :: 0 <= i < |bs| ==> ScannedHeader(m, base, bs, i)
  }

  predicate ScannedHeader(m: seq<word>, base: word, bs: seq<Block>, i: nat)
    requires i < |bs|
  {
    HeaderWords(m, bs[i].at, StateWord(bs[i].free), 16 * bs[i].size, PreviousLink(base, bs, i), base + 16 * bs[i].End())
  }

  function LastLink(base: word, bs: seq<Block>): int {
    if bs == [] then 0 else base + 16 * bs[|bs| - 1].at
  }

  predicate NextBlock(bs: seq<Block>, limit: nat, b: Block) {
    b.at == limit && b.size >= 1 && !(b.free && bs != [] && bs[|bs| - 1].free)
  }

  lemma ScanStep(m: seq<word>, base: word, bs: seq<Block>, limit: nat, b: Block)
    requires Scanned(m, base, bs, limit) && NextBlock(bs, limit, b)
    requires HeaderWords(m, limit, StateWord(b.free), 16 * b.size, LastLink(base, bs), base + 16 * b.End())
    ensures Scanned(m, base, bs + [b], b.End())
  {
    var r := bs + [b];
    forall i | 0 <= i < |r|
      ensures ScannedHeader(m, base, r, i)
    {
      if i < |bs| {
        assert ScannedHeader(m, base, bs, i);
      }
    }
  }

  lemma ScanEnd(m: seq<word>, base: word, bs: seq<Block>, limit: nat, b: Block)
    requires Scanned(m, base, bs, limit) && NextBlock(bs, limit, b) && b.End() == ARENA
    requires HeaderWords(m, limit, StateWord(b.free), 16 * b.size, LastLink(base, bs), 0)
    ensures Represents(m, base, bs + [b])
  {
    var r := bs + [b];
    forall i | 0 <= i < |r|
      ensures HeaderMatches(m, base, r, i)
    {
      if i < |bs| {
        assert ScannedHeader(m, base, bs, i);
        assert i + 1 < |bs| ==> bs[i + 1].at == bs[i].End();
      }
    }
  }

  ghost predicate StrictPrefix(bs: seq<Block>, cs: seq<Block>) {
    |bs| < |cs| && bs == cs[..|bs|]
  }

  /** The header after the scanned prefix bs says what the block list cs says. */
  ghost predicate ContinuesScan(m: seq<word>, base: word, bs: seq<Block>, limit: nat, cs: seq<Block>) {
    && StrictPrefix(bs, cs)
    && var b := cs[|bs|];
    && NextBlock(bs, limit, b)
    && b.End() <= ARENA
    && HeaderWords(m, limit, StateWord(b.free), 16 * b.size, LastLink(base, bs), NextLink(base, cs, |bs|))
    && if |bs| + 1 < |cs| then b.End() < ARENA && NextLink(base, cs, |bs|) == base + 16 * b.End() else b.End() == ARENA
  }

  lemma ScanContinues(m: seq<word>, base: word, bs: seq<Block>, limit: nat, cs: seq<Block>)
    requires ArenaPlaced(base) && Scanned(m, base, bs, limit)
    requires Represents(m, base, cs) && StrictPrefix(bs, cs)
    ensures ContinuesScan(m, base, bs, limit, cs)
  {
    var k := |bs|;
    assert HeaderMatches(m, base, cs, k);
    assert k > 0 ==> bs[k - 1] == cs[k - 1] && cs[k].at == cs[k - 1].End();
    BlocksEndInside(cs, ARENA, k);
    if k + 1 < |cs| {
      BlocksEndInside(cs, ARENA, k + 1);
    }
  }

  lemma PrefixGrows(bs: seq<Block>, b: Block, cs: seq<Block>)
    requires StrictPrefix(bs, cs) && cs[|bs|] == b && |bs| + 1 < |cs|
    ensures StrictPrefix(bs + [b], cs)
  {
    assert cs[..|bs| + 1] == cs[..|bs|] + [cs[|bs|]];
  }

  /** The validator's running sums over the blocks passed. */
  datatype Tally = Tally(
    blockCount: nat,
    payloadBytes: nat,
    freeBytes: nat,
    largestFreeBlock: nat,
    allocatedBlocks: nat)

  function TallyOf(bs: seq<Block>): Tally {
    Tally(|bs|, 16 * PayloadTotal(bs), 16 * FreeTotal(bs), 16 * LargestFree(bs), AllocatedCount(bs))
  }

  /** Adding one block's sizes; fails on overflow, which a scanned prefix rules out. */
  method AddToTally(t: Tally, payload: word, isFree: bool, ghost bs: seq<Block>, ghost limit: nat, ghost b: Block)
    returns (ok: bool, t': Tally)
    requires t == TallyOf(bs) && Contiguous(bs, limit) && b.at == limit
    requires payload == 16 * b.size && isFree == b.free && b.End() <= ARENA
    ensures ok && t' == TallyOf(bs + [b])
  {
    ok, t' := false, t;
    PayloadAndHeadersFillTheArena(bs, limit);
    AllocatedCountBounded(bs);
    assert (bs + [b])[..|bs|] == bs;
    if t.payloadBytes > WORD_LIMIT - 1 - payload {
      return;
    }
    t' := t.(blockCount := t.blockCount + 1, payloadBytes := t.payloadBytes + payload);
    if isFree {
      if t.freeBytes > WORD_LIMIT - 1 - payload {
        return;
      }
      t' := t'.(freeBytes := t.freeBytes + payload);
      if payload > t.largestFreeBlock {
        t' := t'.(largestFreeBlock := payload);
      }
    } else {
      if t.allocatedBlocks == WORD_LIMIT - 1 {
        return;
      }
      t' := t'.(allocatedBlocks := t.allocatedBlocks + 1);
    }
    ok := true;
  }

  lemma {:induction false} AllocatedCountBounded(bs: seq<Block>)
    ensures AllocatedCount(bs) <= |bs|
  {
    if bs != [] {
      AllocatedCountBounded(bs[..|bs| - 1]);
    }
  }

  datatype Verdict = Reject | More | Last

  class KernelHeap {
    const base: word
    const arena: array<word>
    var firstBlock: word
    var initialized: bool

    predicate Valid() reads this {
      ArenaPlaced(base) && arena.Length == ARENA_WORDS
    }

    predicate Ready() reads this {
      initialized && firstBlock == base
    }

    /** Static storage: the arena exists, the heap is not initialized. */
    constructor (base: word)
      requires ArenaPlaced(base)
      ensures Valid() && this.base == base && !initialized && fresh(arena)
    {
      this.base := base;
      arena := new word[ARENA_WORDS];
      firstBlock := 0;
      initialized := false;
    }

    /** The checks on one header: its place in the arena, its fields, its end. */
    method CheckHeader(cursor: word, previous: word, blockCount: nat, ghost bs: seq<Block>, ghost limit: nat,
                       ghost cs: seq<Block>)
      returns (ok: bool, ghost b: Block)
      requires Valid()
      requires Scanned(arena[..], base, bs, limit) && limit <= ARENA && blockCount == |bs|
      requires cursor == base + 16 * limit && previous == LastLink(base, bs)
      requires Represents(arena[..], base, cs) ==> StrictPrefix(bs, cs)
      ensures ok ==> b.at == limit && b.size >= 1 && b.End() <= ARENA
      ensures ok ==>
              HeaderWords(arena[..], limit, StateWord(b.free), 16 * b.size, LastLink(base, bs), arena[4 * limit + 4])
      ensures Represents(arena[..], base, cs) ==> ok && b == cs[|bs|]
    {
      ok, b := false, Block(0, 0, false);
      var end := base + ARENA_BYTES;
      ghost var m := arena[..];
      PayloadAndHeadersFillTheArena(bs, limit);
      if Represents(m, base, cs) {
        ScanContinues(m, base, bs, limit, cs);
      }
      if blockCount >= ARENA_BYTES / 32 || cursor % 16 != 0 || cursor > end - 32 {
        return;
      }
      var h := (cursor - base) / 4;
      assert h == 4 * limit;
      if arena[h] != MAGIC
         || (arena[h + 1] != FREE && arena[h + 1] != ALLOCATED)
         || arena[h + 3] != previous
         || arena[h + 2] < 16
         || arena[h + 2] % 16 != 0
      {
        return;
      }
      var payloadStart := cursor + 32;
      if arena[h + 2] > end - payloadStart {
        return;
      }
      ok, b := true, Block(limit, arena[h + 2] / 16, arena[h + 1] == FREE);
    }

    /** One round of the validator's walk. */
    method InspectBlock(cursor: word, previous: word, previousWasFree: bool, tally: Tally,
                        ghost bs: seq<Block>, ghost limit: nat, ghost cs: seq<Block>)
      returns (verdict: Verdict, tally': Tally, isFree: bool, blockEnd: word, ghost b: Block)
      requires Valid()
      requires Scanned(arena[..], base, bs, limit) && limit <= ARENA && tally == TallyOf(bs)
      requires cursor == base + 16 * limit && previous == LastLink(base, bs)
      requires previousWasFree == (bs != [] && bs[|bs| - 1].free)
      requires Represents(arena[..], base, cs) ==> StrictPrefix(bs, cs)
      ensures verdict == Reject ==> !Represents(arena[..], base, cs)
      ensures verdict == Last ==> Represents(arena[..], base, bs + [b])
      ensures verdict == More ==> Scanned(arena[..], base, bs + [b], b.End()) && limit < b.End() <= ARENA
      ensures verdict == More && Represents(arena[..], base, cs) ==> StrictPrefix(bs + [b], cs)
      ensures verdict != Reject ==> tally' == TallyOf(bs + [b]) && isFree == b.free && blockEnd == base + 16 * b.End()
    {
      verdict, tally', isFree, blockEnd := Reject, tally, false, 0;
      var end, ok := base + ARENA_BYTES, false;
      ghost var m := arena[..];
      ok, b := CheckHeader(cursor, previous, tally.blockCount, bs, limit, cs);
      if Represents(m, base, cs) {
        ScanContinues(m, base, bs, limit, cs);
      }
      if !ok {
        return;
      }
      var h := (cursor - base) / 4;
      assert h == 4 * limit && m[h + 1] == arena[h + 1] && m[h + 2] == arena[h + 2];
      isFree, blockEnd := arena[h + 1] == FREE, cursor + 32 + arena[h + 2];
      if isFree && previousWasFree {
        return;
      }
      ok, tally' := AddToTally(tally, arena[h + 2], isFree, bs, limit, b);
      if !ok {
        return;
      }
      var next := arena[h + 4];
      if next == 0 {
        if blockEnd == end {
          ScanEnd(m, base, bs, limit, b);
          verdict := Last;
        }
      } else if blockEnd < end && next == blockEnd {
        ScanStep(m, base, bs, limit, b);
        if Represents(m, base, cs) {
          PrefixGrows(bs, b, cs);
        }
        verdict := More;
      }
    }

    /** The full-arena validator, on arbitrary arena contents: it answers true exactly when the
        arena is tiled by consistently linked, coalesced blocks, and then measures them. */
    method InspectHeap() returns (ok: bool, stats: HeapStats, ghost bs: seq<Block>)
      requires Valid()
      ensures ok <==> Ready() && WellFormed(arena[..], base)
      ensures ok ==> Represents(arena[..], base, bs) && stats == StatsOf(bs)
    {
      ok, stats, bs := false, HeapStats(0, 0, 0, 0), [];
      if !initialized || firstBlock != base || base > WORD_LIMIT - 1 - ARENA_BYTES {
        return;
      }

      ghost var m := arena[..];
      ghost var cs: seq<Block> := if WellFormed(m, base) then (var c :| Represents(m, base, c); c) else [];
      var tally;
      ok, tally, bs := WalkBlocks(cs);
      if ok {
        ok, stats := FinishInspection(tally, bs);
      }
    }

    /** The validator's loop: block by block from the start of the arena to its end. */
    method WalkBlocks(ghost cs: seq<Block>) returns (ok: bool, tally: Tally, ghost bs: seq<Block>)
      requires Valid()
      ensures Represents(arena[..], base, cs) ==> ok
      ensures ok ==> Represents(arena[..], base, bs) && tally == TallyOf(bs)
    {
      var previous, cursor, previousWasFree := 0, base, false;
      ghost var m, limit := arena[..], 0;
      ok, tally, bs := false, Tally(0, 0, 0, 0, 0), [];
      while true
        invariant Scanned(m, base, bs, limit) && limit <= ARENA && cursor == base + 16 * limit
        invariant previous == LastLink(base, bs)
        invariant previousWasFree == (bs != [] && bs[|bs| - 1].free)
        invariant tally == TallyOf(bs)
        invariant Represents(m, base, cs) ==> StrictPrefix(bs, cs)
        decreases ARENA - limit
      {
        var verdict, tally', isFree, blockEnd;
        ghost var b;
        verdict, tally', isFree, blockEnd, b := InspectBlock(cursor, previous, previousWasFree, tally, bs, limit, cs);
        if verdict == Reject {
          return;
        }
        tally, bs := tally', bs + [b];
        if verdict == Last {
          return true, tally, bs;
        }
        previousWasFree, previous, cursor, limit := isFree, cursor, blockEnd, b.End();
      }
    }

    /** The sum checks after the walk: implied by the tiling, so they never reject. */
    method FinishInspection(tally: Tally, ghost bs: seq<Block>) returns (ok: bool, stats: HeapStats)
      requires bs != [] && Contiguous(bs, ARENA) && tally == TallyOf(bs)
      ensures ok && stats == StatsOf(bs)
    {
      PayloadAndHeadersFillTheArena(bs, ARENA);
      var totalCapacity := ARENA_BYTES - 32;
      ok, stats := false, HeapStats(0, 0, 0, 0);
      if tally.blockCount == 0 || tally.blockCount - 1 > (WORD_LIMIT - 1) / 32 {
        return;
      }
      var extraMetadata := (tally.blockCount - 1) * 32;
      if tally.payloadBytes > totalCapacity
         || extraMetadata != totalCapacity - tally.payloadBytes
         || tally.freeBytes > totalCapacity
         || tally.largestFreeBlock > tally.freeBytes
      {
        return;
      }
      ok, stats := true, HeapStats(totalCapacity, tally.freeBytes, tally.largestFreeBlock, tally.allocatedBlocks);
    }

    method KheapInit() returns (ok: bool)
      requires Valid()
      modifies this, arena
      ensures ok && Ready() && Represents(arena[..], base, InitialBlocks())
    {
      initialized, firstBlock := false, 0;
      var index := 0;
      while index < ARENA_WORDS
        invariant 0 <= index <= ARENA_WORDS
        invariant forall w :: 0 <= w < index ==> arena[w] == 0
      {
        arena[index] := 0;
        index := index + 1;
      }
      firstBlock := base;
      arena[0], arena[1], arena[2], arena[3], arena[4] := MAGIC, FREE, ARENA_BYTES - 32, 0, 0;
      initialized := true;

      assert HeaderMatches(arena[..], base, InitialBlocks(), 0);
      assert Represents(arena[..], base, InitialBlocks());
      var stats;
      ghost var bs;
      ok, stats, bs := InspectHeap();
      // The source rolls back when this inspection fails; it cannot.
    }

    /** Fill in all five fields of the header at word h. */
    method StoreHeader(h: nat, state: word, payload: word, previous: word, next: word, ghost at: nat)
      requires Valid() && h == 4 * at && h + 8 <= ARENA_WORDS
      modifies arena
      ensures HeaderWords(arena[..], at, state, payload, previous, next)
      ensures HeaderOnlyChange(old(arena[..]), arena[..], at)
    {
      arena[h] := MAGIC;
      arena[h + 1] := state;
      arena[h + 2] := payload;
      arena[h + 3] := previous;
      arena[h + 4] := next;
    }

    /** Cut the free block whose header starts at word h after alignedSize bytes of payload. */
    method SplitBlock(h: nat, alignedSize: word, ghost bs: seq<Block>, ghost i: nat)
      requires Valid() && i < |bs| && h == 4 * bs[i].at && bs[i].End() <= ARENA
      requires alignedSize >= 16 && alignedSize % 16 == 0 && Splits(bs[i], alignedSize / 16)
      requires HeaderMatches(arena[..], base, bs, i)
      requires i + 1 < |bs| ==> HeaderMatches(arena[..], base, bs, i + 1) && bs[i + 1].at == bs[i].End()
      modifies arena
      ensures SplitWritten(old(arena[..]), arena[..], base, bs, i, alignedSize / 16)
    {
      ghost var m, n := arena[..], alignedSize / 16;
      var s := h + 8 + alignedSize / 4;
      var next := arena[h + 4];
      StoreHeader(s, FREE, arena[h + 2] - alignedSize - 32, base + 4 * h, next, bs[i].at + HEADER + n);
      ghost var m1 := arena[..];
      if next != 0 {
        arena[(next - base) / 4 + 3] := base + 4 * s;
      }
      ghost var m2 := arena[..];
      arena[h + 2] := alignedSize;
      arena[h + 4] := base + 4 * s;
      SplitIsWritten(m, m1, m2, arena[..], base, bs, i, n);
    }

    /** The first-fit search along the next links. */
    method FindFit(alignedSize: word, ghost bs: seq<Block>) returns (block: word, ghost i: nat)
      requires Valid() && firstBlock == base && Linked(arena[..], base, bs) && alignedSize % 16 == 0
      ensures block == 0 ==> forall j :: 0 <= j < |bs| ==> !Fits(bs[j], alignedSize / 16)
      ensures block != 0 ==> IsFirstFit(bs, alignedSize / 16, i) && block == base + 16 * bs[i].at
    {
      block, i := firstBlock, 0;
      while block != 0
        invariant i <= |bs| && block == (if i < |bs| then base + 16 * bs[i].at else 0)
        invariant forall j :: 0 <= j < i ==> !Fits(bs[j], alignedSize / 16)
        decreases |bs| - i
      {
        assert HeaderMatches(arena[..], base, bs, i);
        var h := (block - base) / 4;
        if arena[h + 1] == FREE && arena[h + 2] >= alignedSize {
          return;
        }
        block, i := arena[h + 4], i + 1;
      }
    }

    /** First fit, splitting what is left over, so that less than 48 bytes are wasted. */
    method KMalloc(size: word) returns (pointer: word)
      requires Valid()
      modifies arena
      ensures MallocSpec(old(arena[..]), base, Ready(), size, arena[..], pointer)
      ensures pointer != 0 ==> HeldSnugly(arena[..], base, size, pointer)
    {
      var representable, alignedSize := AlignRequest(size);
      if !representable {
        return 0;
      }
      var ok, stats;
      ghost var bs;
      ok, stats, bs := InspectHeap();
      if !ok {
        return 0;
      }
      pointer := AllocateAligned(alignedSize, bs);
      if pointer != 0 {
        GrantIsSnug(old(arena[..]), base, Ready(), size, arena[..], pointer);
      }
    }

    /** Serve an aligned request from a validated heap. */
    method AllocateAligned(alignedSize: word, ghost bs: seq<Block>) returns (pointer: word)
      requires Valid() && firstBlock == base && Represents(arena[..], base, bs)
      requires alignedSize >= 16 && alignedSize % 16 == 0
      modifies arena
      ensures MallocOutcome(old(arena[..]), base, bs, alignedSize / 16, arena[..], pointer)
    {
      ghost var n := alignedSize / 16;
      var block;
      ghost var i;
      block, i := FindFit(alignedSize, bs);
      RequestFitsIffLargest(bs, n);
      if block == 0 {
        pointer := 0;
      } else {
        BlocksEndInside(bs, ARENA, i);
        TakeBlock((block - base) / 4, alignedSize, bs, i);
        pointer := block + 32;
        assert MallocTakes(old(arena[..]), base, bs, n, arena[..], pointer, i);
      }
    }

    /** Split when the remainder can hold a header and a granule. */
    method CutBlock(h: nat, alignedSize: word, ghost bs: seq<Block>, ghost i: nat) returns (ghost cut: seq<Block>)
      requires Valid() && Linked(arena[..], base, bs)
      requires alignedSize >= 16 && alignedSize % 16 == 0
      requires i < |bs| && h == 4 * bs[i].at && Fits(bs[i], alignedSize / 16)
      modifies arena
      ensures cut == if Splits(bs[i], alignedSize / 16) then SplitAt(bs, i, alignedSize / 16) else bs
      ensures Linked(arena[..], base, cut) && OnlyHeadersChange(old(arena[..]), arena[..], bs, cut)
    {
      ghost var m, n := arena[..], alignedSize / 16;
      cut := bs;
      assert HeaderMatches(m, base, bs, i);
      BlocksEndInside(bs, ARENA, i);
      var remaining := arena[h + 2] - alignedSize;
      if remaining >= 32 + 16 {
        assert i + 1 < |bs| ==> HeaderMatches(m, base, bs, i + 1) && bs[i + 1].at == bs[i].End();
        SplitBlock(h, alignedSize, bs, i);
        SplitKeepsLinks(m, arena[..], base, bs, i, n);
        cut := SplitAt(bs, i, n);
      }
    }

    /** Split if worthwhile, then mark allocated. */
    method TakeBlock(h: nat, alignedSize: word, ghost bs: seq<Block>, ghost i: nat)
      requires Valid() && Represents(arena[..], base, bs)
      requires alignedSize >= 16 && alignedSize % 16 == 0
      requires i < |bs| && h == 4 * bs[i].at && Fits(bs[i], alignedSize / 16)
      modifies arena
      ensures Represents(arena[..], base, MallocAt(bs, i, alignedSize / 16))
      ensures OnlyHeadersChange(old(arena[..]), arena[..], bs, MallocAt(bs, i, alignedSize / 16))
    {
      ghost var m, n := arena[..], alignedSize / 16;
      ghost var cut := CutBlock(h, alignedSize, bs, i);
      ghost var m1 := arena[..];
      assert HeaderMatches(m1, base, cut, i) && cut[i].at == bs[i].at;
      arena[h + 1] := ALLOCATED;
      MarkKeepsLinks(m1, arena[..], base, cut, i, false);
      MallocKeepsTiling(bs, i, n);
      HeaderChangesCompose(m, m1, arena[..], bs, cut, MallocAt(bs, i, n));
    }

    /** The block whose header is at word h absorbs the block after it. */
    method MergeWithNext(h: nat, ghost bs: seq<Block>, ghost i: nat)
      requires Valid() && i + 1 < |bs| && h == 4 * bs[i].at && MergeReady(arena[..], base, bs, i)
      modifies arena
      ensures MergeWritten(old(arena[..]), arena[..], base, bs, i)
    {
      ghost var m := arena[..];
      var right := (arena[h + 4] - base) / 4;
      var after := arena[right + 4];
      arena[h + 2] := arena[h + 2] + 32 + arena[right + 2];
      arena[h + 4] := after;
      ghost var m1 := arena[..];
      if after != 0 {
        arena[(after - base) / 4 + 3] := base + 4 * h;
      }
      ghost var m2 := arena[..];
      InvalidateBlock(right, bs[i + 1].at);
      MergeIsWritten(m, m1, m2, arena[..], base, bs, i);
    }

    method InvalidateBlock(h: nat, ghost at: nat)
      requires Valid() && h == 4 * at && h + 8 <= ARENA_WORDS
      modifies arena
      ensures HeaderOnlyChange(old(arena[..]), arena[..], at)
      ensures forall w :: h <= w < h + 5 ==> arena[w] == 0
    {
      arena[h] := 0;
      arena[h + 1] := 0;
      arena[h + 2] := 0;
      arena[h + 3] := 0;
      arena[h + 4] := 0;
    }

    /** Merge as above, seen on the block list. */
    method MergeLinked(h: nat, ghost bs: seq<Block>, ghost i: nat)
      requires Valid() && i + 1 < |bs| && h == 4 * bs[i].at && Linked(arena[..], base, bs)
      modifies arena
      ensures Linked(arena[..], base, MergeAt(bs, i))
      ensures OnlyHeadersChange(old(arena[..]), arena[..], bs, bs)
    {
      LinkedIsMergeReady(arena[..], base, bs, i);
      MergeWithNext(h, bs, i);
      MergeKeepsLinks(old(arena[..]), arena[..], base, bs, i);
    }

    /** Search for the block whose payload starts at address. */
    method FindPayload(address: word, ghost bs: seq<Block>) returns (block: word, ghost i: nat)
      requires Valid() && firstBlock == base && Linked(arena[..], base, bs)
      ensures block == 0 ==> forall j :: 0 <= j < |bs| ==> address != base + 16 * (bs[j].at + HEADER)
      ensures block != 0 ==> i < |bs| && block == base + 16 * bs[i].at && address == block + 32
    {
      block, i := firstBlock, 0;
      while block != 0
        invariant i <= |bs| && block == (if i < |bs| then base + 16 * bs[i].at else 0)
        invariant forall j :: 0 <= j < i ==> address != base + 16 * (bs[j].at + HEADER)
        decreases |bs| - i
      {
        assert HeaderMatches(arena[..], base, bs, i);
        if block + 32 == address {
          return;
        }
        block, i := arena[(block - base) / 4 + 4], i + 1;
      }
    }

    method MergePrevious(h: nat, ghost bs: seq<Block>, ghost i: nat) returns (g: nat)
      requires Valid() && i < |bs| && h == 4 * bs[i].at && Linked(arena[..], base, bs)
      modifies arena
      ensures Linked(arena[..], base, MergeLeft(bs, i))
      ensures OnlyHeadersChange(old(arena[..]), arena[..], bs, bs)
      ensures g == 4 * (if PreviousIsFree(bs, i) then bs[i - 1].at else bs[i].at)
    {
      var isFree, p := PreviousFree(h, bs, i);
      if isFree {
        MergeLinked(p, bs, i - 1);
        return p;
      }
      return h;
    }

    /** The guard of the left merge: there is a previous block and it is free. */
    method PreviousFree(h: nat, ghost bs: seq<Block>, ghost i: nat) returns (isFree: bool, p: nat)
      requires Valid() && i < |bs| && h == 4 * bs[i].at && Linked(arena[..], base, bs)
      ensures isFree <==> PreviousIsFree(bs, i)
      ensures isFree ==> p == 4 * bs[i - 1].at
    {
      PreviousWord(arena[..], base, bs, i);
      var previous := arena[h + 3];
      if previous == 0 {
        return false, 0;
      }
      p := (previous - base) / 4;
      return arena[p + 1] == FREE, p;
    }

    method MergeNext(h: nat, ghost bs: seq<Block>, ghost i: nat)
      requires Valid() && i < |bs| && h == 4 * bs[i].at && Linked(arena[..], base, bs)
      modifies arena
      ensures Linked(arena[..], base, MergeRight(bs, i))
      ensures OnlyHeadersChange(old(arena[..]), arena[..], bs, bs)
    {
      var isFree := NextFree(h, bs, i);
      if isFree {
        MergeLinked(h, bs, i);
      }
    }

    /** The guard of the right merge: there is a next block and it is free. */
    method NextFree(h: nat, ghost bs: seq<Block>, ghost i: nat) returns (isFree: bool)
      requires Valid() && i < |bs| && h == 4 * bs[i].at && Linked(arena[..], base, bs)
      ensures isFree <==> NextIsFree(bs, i)
    {
      NextWord(arena[..], base, bs, i);
      var next := arena[h + 4];
      if next == 0 {
        return false;
      }
      return arena[(next - base) / 4 + 1] == FREE;
    }

    /** Free block i and coalesce with the neighbours. */
    method ReleaseBlock(h: nat, ghost bs: seq<Block>, ghost i: nat)
      requires Valid() && Represents(arena[..], base, bs)
      requires i < |bs| && h == 4 * bs[i].at && !bs[i].free
      modifies arena
      ensures FreeReleases(old(arena[..]), base, bs, arena[..], i)
    {
      ghost var m, freed := arena[..], bs[i := bs[i].(free := true)];
      ghost var k := if PreviousIsFree(freed, i) then i - 1 else i;
      assert HeaderMatches(m, base, bs, i);
      arena[h + 1] := FREE;
      ghost var m1 := arena[..];
      MarkKeepsLinks(m, m1, base, bs, i, true);
      MarkMovesNoHeader(bs, i, true);

      var g := MergePrevious(h, freed, i);
      ghost var m2 := arena[..];
      MergeChangesCompose(m, m1, m2, bs, freed);
      MergeLeftAddsNoHeader(freed, i);

      MergeNext(g, MergeLeft(freed, i), k);
      MergeChangesCompose(m, m2, arena[..], bs, MergeLeft(freed, i));
      FreeByStepsIsFreeAt(bs, i);
      FreeKeepsTiling(bs, i);
    }

    method KFree(pointer: word) returns (ok: bool)
      requires Valid()
      modifies arena
      ensures FreeSpec(old(arena[..]), base, Ready(), pointer, arena[..], ok)
    {
      if pointer == 0 || pointer < base + 32 || pointer >= base + ARENA_BYTES || pointer % 16 != 0 {
        ForeignPointerIsNotLive(arena[..], base, pointer);
        return false;
      }
      var stats, block;
      ghost var bs, i;
      ok, stats, bs := InspectHeap();
      if !ok {
        return;
      }
      block, i := FindPayload(pointer, bs);
      if block == 0 {
        assert FreeOutcome(arena[..], base, bs, pointer, arena[..], false);
        return false;
      }
      assert HeaderMatches(arena[..], base, bs, i);
      if arena[(block - base) / 4 + 1] != ALLOCATED {
        OnlyOneBlockPerPointer(arena[..], base, bs, i, pointer);
        assert FreeOutcome(arena[..], base, bs, pointer, arena[..], false);
        return false;
      }
      assert IsLive(base, bs, i, pointer);
      ReleaseBlock((block - base) / 4, bs, i);
      assert FreeOutcome(old(arena[..]), base, bs, pointer, arena[..], true);
      return true;
    }

    /** count * size zeroed bytes, or nothing when the product overflows. */
    method KCalloc(count: word, size: word) returns (pointer: word)
      requires Valid()
      modifies arena
      ensures CallocSpec(old(arena[..]), base, Ready(), count, size, arena[..], pointer)
    {
      if count == 0 || size == 0 {
        return 0;
      }
      OverflowGuardIsExact(count, size);
      if size > (WORD_LIMIT - 1) / count {
        return 0;
      }
      pointer := AllocateZeroed(count * size);
    }

    method AllocateZeroed(total: word) returns (pointer: word)
      requires Valid()
      modifies arena
      ensures ZeroedSpec(old(arena[..]), base, Ready(), total, arena[..], pointer)
    {
      pointer := KMalloc(total);
      ghost var m := arena[..];
      if pointer != 0 {
        ghost var bs, i := AllocatedBlockOf(old(arena[..]), base, Ready(), total, m, pointer);
        ZeroBytes(pointer - base, total, bs, i);
      }
      assert CallocFills(base, total, m, arena[..], pointer);
    }

    /** Clear total bytes from offset start, inside the payload of block i. */
    method ZeroBytes(start: nat, total: nat, ghost bs: seq<Block>, ghost i: nat)
      requires Valid() && Contiguous(bs, ARENA) && i < |bs|
      requires start == 16 * (bs[i].at + HEADER) && total <= 16 * bs[i].size
      modifies arena
      ensures ZeroFilled(old(arena[..]), arena[..], start, total)
    {
      BlocksEndInside(bs, ARENA, i);
      var index := 0;
      while index < total
        invariant 0 <= index <= total
        invariant ZeroFilled(old(arena[..]), arena[..], start, index)
      {
        ghost var m1 := arena[..];
        var w, k := (start + index) / 4, (start + index) % 4;
        arena[w] := PutByte(arena[w], k, 0);
        assert arena[..] == StoreByte(m1, start + index, 0);
        ZeroFillGrows(old(arena[..]), m1, start, index);
        index := index + 1;
      }
    }

    method KheapGetStats() returns (ok: bool, stats: HeapStats)
      requires Valid()
      ensures ok <==> Ready() && WellFormed(arena[..], base)
      ensures ok ==> forall bs :: Represents(arena[..], base, bs) ==> stats == StatsOf(bs)
    {
      ghost var bs;
      ok, stats, bs := InspectHeap();
      if ok {
        forall cs | Represents(arena[..], base, cs) ensures cs == bs {
          RepresentationIsUnique(arena[..], base, bs, cs);
        }
      }
    }

    method KheapValidate() returns (ok: bool)
      requires Valid()
      ensures ok <==> Ready() && WellFormed(arena[..], base)
    {
      var stats;
      ghost var bs;
      ok, stats, bs := InspectHeap();
    }
  }

  /** The overflow guard of kcalloc is exact. */
  lemma OverflowGuardIsExact(count: word, size: word)
    requires count > 0
    ensures size <= (WORD_LIMIT - 1) / count <==> count * size < WORD_LIMIT
  {
    var q := (WORD_LIMIT - 1) / count;
    if size <= q {
      ProductIsMonotone(count, size, q);
    } else {
      ProductIsMonotone(count, q + 1, size);
    }
  }

  predicate ProductRepresentable(count: word, size: word) {
    count != 0 && size != 0 && count * size < WORD_LIMIT
  }

  /** kcalloc(count, size) on arena m returns pointer and leaves m'. */
  ghost predicate CallocSpec(m: seq<word>, base: word, ready: bool, count: word, size: word, m': seq<word>,
                             pointer: word) {
    if !ProductRepresentable(count, size) then
      pointer == 0 && m' == m
    else
      ZeroedSpec(m, base, ready, count * size, m', pointer)
  }

  ghost predicate ZeroedSpec(m: seq<word>, base: word, ready: bool, total: word, m': seq<word>, pointer: word) {
    exists m1 :: MallocSpec(m, base, ready, total, m1, pointer) && CallocFills(base, total, m1, m', pointer)
  }

  ghost predicate CallocFills(base: word, total: nat, m1: seq<word>, m': seq<word>, pointer: word) {
    if pointer == 0 then m' == m1 else base <= pointer && ZeroFilled(m1, m', pointer - base, total)
  }

  /** A successful kmalloc leaves a well-formed arena with pointer at an allocated block that
      holds the request. */
  lemma AllocatedBlockOf(m: seq<word>, base: word, ready: bool, size: word, m': seq<word>, pointer: word)
    returns (bs: seq<Block>, i: nat)
    requires ArenaPlaced(base) && MallocSpec(m, base, ready, size, m', pointer) && pointer != 0
    ensures Represents(m', base, bs) && IsLive(base, bs, i, pointer) && size <= 16 * bs[i].size < size + 48
  {
    var cs :| Represents(m, base, cs) && MallocOutcome(m, base, cs, Granules(size), m', pointer);
    i :| IsFirstFit(cs, Granules(size), i) && MallocTakes(m, base, cs, Granules(size), m', pointer, i);
    bs := MallocAt(cs, i, Granules(size));
  }

  /** The block behind the pointer holds the request and wastes less than 48 bytes. */
  ghost predicate HeldSnugly(m: seq<word>, base: word, size: word, pointer: word) {
    exists bs: seq<Block>, i: nat ::
      Represents(m, base, bs) && IsLive(base, bs, i, pointer) && size <= 16 * bs[i].size < size + 48
  }

  lemma GrantIsSnug(m: seq<word>, base: word, ready: bool, size: word, m': seq<word>, pointer: word)
    requires ArenaPlaced(base) && MallocSpec(m, base, ready, size, m', pointer) && pointer != 0
    ensures HeldSnugly(m', base, size, pointer)
  {
    var bs, i := AllocatedBlockOf(m, base, ready, size, m', pointer);
  }

  lemma OnlyOneBlockPerPointer(m: seq<word>, base: word, bs: seq<Block>, i: nat, pointer: word)
    requires Linked(m, base, bs) && i < |bs|
    requires pointer == base + 16 * (bs[i].at + HEADER)
    ensures forall j: nat :: IsLive(base, bs, j, pointer) ==> j == i
  {
    forall j: nat | IsLive(base, bs, j, pointer)
      ensures j == i
    {
      if j < i {
        BlocksAreOrdered(bs, ARENA, j, i);
      } else if i < j {
        BlocksAreOrdered(bs, ARENA, i, j);
      }
    }
  }

  /** Misaligned pointers and pointers outside the arena are never live payloads. */
  lemma ForeignPointerIsNotLive(m: seq<word>, base: word, pointer: word)
    requires ArenaPlaced(base)
    requires pointer < base + 32 || pointer >= base + ARENA_BYTES || pointer % 16 != 0
    ensures forall bs, i: nat :: Represents(m, base, bs) ==> !IsLive(base, bs, i, pointer)
    ensures FreeSpec(m, base, true, pointer, m, false)
  {
    forall bs, i: nat | Represents(m, base, bs)
      ensures !IsLive(base, bs, i, pointer)
    {
      if i < |bs| {
        BlocksEndInside(bs, ARENA, i);
      }
    }
    if WellFormed(m, base) {
      var bs :| Represents(m, base, bs);
      assert FreeOutcome(m, base, bs, pointer, m, false);
    }
  }

  /** A block's address, as a word index into the arena. */
  lemma WordOfBlock(base: word, link: word, at: nat)
    requires link == base + 16 * at
    ensures (link - base) / 4 == 4 * at
  {
  }

  /** Following the previous link from block i. */
  lemma PreviousWord(m: seq<word>, base: word, bs: seq<Block>, i: nat)
    requires ArenaPlaced(base) && Linked(m, base, bs) && i < |bs|
    ensures 4 * bs[i].at + 8 <= |m| && (m[4 * bs[i].at + 3] == 0 <==> i == 0)
    ensures i > 0 ==> var p := (m[4 * bs[i].at + 3] - base) / 4;
                      p == 4 * bs[i - 1].at && p + 8 <= |m| && (m[p + 1] == FREE <==> bs[i - 1].free)
  {
    assert HeaderMatches(m, base, bs, i);
    if i > 0 {
      assert HeaderMatches(m, base, bs, i - 1);
      WordOfBlock(base, m[4 * bs[i].at + 3], bs[i - 1].at);
    }
  }

  /** Following the next link from block i. */
  lemma NextWord(m: seq<word>, base: word, bs: seq<Block>, i: nat)
    requires ArenaPlaced(base) && Linked(m, base, bs) && i < |bs|
    ensures 4 * bs[i].at + 8 <= |m| && (m[4 * bs[i].at + 4] == 0 <==> i + 1 == |bs|)
    ensures i + 1 < |bs| ==> var q := (m[4 * bs[i].at + 4] - base) / 4;
                             q == 4 * bs[i + 1].at && q + 8 <= |m| && (m[q + 1] == FREE <==> bs[i + 1].free)
  {
    assert HeaderMatches(m, base, bs, i);
    if i + 1 < |bs| {
      assert HeaderMatches(m, base, bs, i + 1);
      WordOfBlock(base, m[4 * bs[i].at + 4], bs[i + 1].at);
    }
  }

  method AlignRequest(size: word) returns (ok: bool, alignedSize: word)
    ensures ok <==> Representable(size)
    ensures ok ==> alignedSize == 16 * Granules(size) && size <= alignedSize < size + 16
  {
    if size == 0 || size > WORD_LIMIT - 1 - 15 {
      return false, 0;
    }
    return true, (size + 15) - (size + 15) % 16;
  }
}
