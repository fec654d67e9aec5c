/** The block list of the kernel heap, in units of 16-byte granules.

    A block is a 2-granule header (32 bytes on i386) followed by `size` granules of payload.
    The list is what the headers in the arena describe; this module says how allocation and
    release transform it. */
module HeapBlocks {

  const ARENA: nat := 16384   // 256 KiB
  const HEADER: nat := 2      // sizeof(struct heap_block) == 32

  datatype Block = Block(at: nat, size: nat, free: bool) {
    function End(): nat { at + HEADER + size }
  }

  /** The blocks cover granules 0 up to limit without gap or overlap. */
  predicate Contiguous(bs: seq<Block>, limit: nat) {
    && (forall i :: 0 <= i < |bs| ==> bs[i].size >= 1)
    && (forall i, j :: 0 <= i < |bs| && j == i + 1 < |bs| ==> bs[j].at == bs[i].End())
    && (if bs == [] then limit == 0 else bs[0].at == 0 && bs[|bs| - 1].End() == limit)
  }

  /** No two neighbours are both free: coalescing has been carried out everywhere. */
  predicate Coalesced(bs: seq<Block>) {
    forall i, j :: 0 <= i < |bs| && j == i + 1 < |bs| ==> !(bs[i].free && bs[j].free)
  }

  predicate Tiling(bs: seq<Block>) {
    bs != [] && Contiguous(bs, ARENA) && Coalesced(bs)
  }

  lemma {:induction false} BlocksAreOrdered(bs: seq<Block>, limit: nat, i: nat, j: nat)
    requires Contiguous(bs, limit)
    requires i < j < |bs|
    ensures bs[i].End() <= bs[j].at
    decreases j - i
  {
    if i + 1 < j {
      BlocksAreOrdered(bs, limit, i + 1, j);
    }
  }

  lemma {:induction false} BlocksEndInside(bs: seq<Block>, limit: nat, i: nat)
    requires Contiguous(bs, limit)
    requires i < |bs|
    ensures bs[i].End() <= limit
  {
    if i + 1 < |bs| {
      BlocksAreOrdered(bs, limit, i, |bs| - 1);
    }
  }

  // ----- statistics -----

  function FreeTotal(bs: seq<Block>): nat {
    if bs == [] then 0
    else FreeTotal(bs[..|bs| - 1]) + if bs[|bs| - 1].free then bs[|bs| - 1].size else 0
  }

  function LargestFree(bs: seq<Block>): nat {
    if bs == [] then 0
    else
      var rest := LargestFree(bs[..|bs| - 1]);
      if bs[|bs| - 1].free && bs[|bs| - 1].size > rest then bs[|bs| - 1].size else rest
  }

  function AllocatedCount(bs: seq<Block>): nat {
    if bs == [] then 0
    else AllocatedCount(bs[..|bs| - 1]) + if bs[|bs| - 1].free then 0 else 1
  }

  function AllocatedTotal(bs: seq<Block>): nat {
    if bs == [] then 0
    else AllocatedTotal(bs[..|bs| - 1]) + if bs[|bs| - 1].free then 0 else bs[|bs| - 1].size
  }

  /** Every payload granule is free or allocated. */
  lemma {:induction false} FreeAndAllocatedMakeThePayload(bs: seq<Block>)
    ensures FreeTotal(bs) + AllocatedTotal(bs) == PayloadTotal(bs)
  {
    if bs != [] {
      FreeAndAllocatedMakeThePayload(bs[..|bs| - 1]);
    }
  }

  /** The measures of two stretches of blocks add up. */
  lemma {:induction false} MeasuresAdd(a: seq<Block>, b: seq<Block>)
    ensures FreeTotal(a + b) == FreeTotal(a) + FreeTotal(b)
    ensures AllocatedTotal(a + b) == AllocatedTotal(a) + AllocatedTotal(b)
    ensures AllocatedCount(a + b) == AllocatedCount(a) + AllocatedCount(b)
  {
    if b == [] {
      assert a + b == a;
    } else {
      var last := |b| - 1;
      MeasuresAdd(a, b[..last]);
      assert (a + b)[..|a + b| - 1] == a + b[..last];
    }
  }

  lemma MeasuresAround(before: seq<Block>, middle: seq<Block>, after: seq<Block>)
    ensures FreeTotal(before + middle + after) == FreeTotal(before) + FreeTotal(middle) + FreeTotal(after)
    ensures AllocatedTotal(before + middle + after)
            == AllocatedTotal(before) + AllocatedTotal(middle) + AllocatedTotal(after)
    ensures AllocatedCount(before + middle + after)
            == AllocatedCount(before) + AllocatedCount(middle) + AllocatedCount(after)
  {
    MeasuresAdd(before + middle, after);
    MeasuresAdd(before, middle);
  }

  function PayloadTotal(bs: seq<Block>): nat {
    if bs == [] then 0 else PayloadTotal(bs[..|bs| - 1]) + bs[|bs| - 1].size
  }

  /** Every granule of a tiled arena is payload or header: the validator's later sum check is
      implied by tiling. */
  lemma {:induction false} PayloadAndHeadersFillTheArena(bs: seq<Block>, limit: nat)
    requires Contiguous(bs, limit)
    ensures PayloadTotal(bs) + HEADER * |bs| == limit
    ensures LargestFree(bs) <= FreeTotal(bs) <= PayloadTotal(bs)
  {
    if bs != [] {
      var front := bs[..|bs| - 1];
      PayloadAndHeadersFillTheArena(front, bs[|bs| - 1].at);
    }
  }

  lemma {:induction false} LargestFreeIsAttained(bs: seq<Block>)
    ensures forall i :: 0 <= i < |bs| && bs[i].free ==> bs[i].size <= LargestFree(bs)
    ensures LargestFree(bs) > 0 ==> exists i :: 0 <= i < |bs| && bs[i].free && bs[i].size == LargestFree(bs)
  {
    if bs != [] {
      var front := bs[..|bs| - 1];
      LargestFreeIsAttained(front);
      forall i | 0 <= i < |bs| && bs[i].free
        ensures bs[i].size <= LargestFree(bs)
      {
        if i < |bs| - 1 {
          assert front[i] == bs[i];
        }
      }
      if LargestFree(bs) > 0 {
        if LargestFree(bs) == LargestFree(front) {
          var i :| 0 <= i < |front| && front[i].free && front[i].size == LargestFree(front);
          assert bs[i] == front[i];
        } else {
          assert bs[|bs| - 1].free;
        }
      }
    }
  }

  function FreeCount(bs: seq<Block>): nat {
    if bs == [] then 0
    else FreeCount(bs[..|bs| - 1]) + if bs[|bs| - 1].free then 1 else 0
  }

  lemma {:induction false} FreeTotalWithinCount(bs: seq<Block>, m: nat)
    requires LargestFree(bs) <= m
    ensures FreeTotal(bs) <= m * FreeCount(bs)
  {
    if bs != [] {
      var c := FreeCount(bs[..|bs| - 1]);
      FreeTotalWithinCount(bs[..|bs| - 1], m);
      assert m * (c + 1) == m * c + m;
    }
  }

  lemma {:induction false} FreeBlocksAreSeparated(bs: seq<Block>)
    requires Coalesced(bs)
    ensures FreeCount(bs) <= AllocatedCount(bs) + 1
    ensures bs != [] && !bs[|bs| - 1].free ==> FreeCount(bs) <= AllocatedCount(bs)
  {
    if bs != [] {
      FreeBlocksAreSeparated(bs[..|bs| - 1]);
    }
  }

  /** Fragmentation is bounded: the largest free block is at least the average hole. */
  lemma FragmentationBound(bs: seq<Block>)
    requires Coalesced(bs)
    ensures FreeTotal(bs) <= LargestFree(bs) * (AllocatedCount(bs) + 1)
  {
    var m, f, a := LargestFree(bs), FreeCount(bs), AllocatedCount(bs);
    FreeTotalWithinCount(bs, m);
    FreeBlocksAreSeparated(bs);
    ProductIsMonotone(m, f, a + 1);
  }

  lemma ProductIsMonotone(m: nat, x: nat, y: nat)
    requires x <= y
    ensures m * x <= m * y
  {
  }

  /** With nothing allocated a coalesced tiling is the single initial free block. */
  lemma NothingAllocatedIsInitial(bs: seq<Block>)
    requires Tiling(bs)
    requires forall i :: 0 <= i < |bs| ==> bs[i].free
    ensures bs == InitialBlocks()
  {
    assert |bs| > 1 ==> !(bs[0].free && bs[1].free);
  }

  function InitialBlocks(): seq<Block> {
    [Block(0, ARENA - HEADER, true)]
  }

  // ----- allocation -----

  predicate Fits(b: Block, n: nat) {
    b.free && b.size >= n
  }

  predicate IsFirstFit(bs: seq<Block>, n: nat, i: nat) {
    && i < |bs|
    && Fits(bs[i], n)
    && forall j :: 0 <= j < i ==> !Fits(bs[j], n)
  }

  predicate Splits(b: Block, n: nat) {
    Fits(b, n) && b.size - n >= HEADER + 1
  }

  /** Free block i is cut after n granules of payload. */
  function SplitAt(bs: seq<Block>, i: nat, n: nat): seq<Block>
    requires i < |bs| && Splits(bs[i], n)
  {
    bs[..i]
    + [Block(bs[i].at, n, true), Block(bs[i].at + HEADER + n, bs[i].size - n - HEADER, true)]
    + bs[i + 1..]
  }

  /** Block i, holding at least n granules, becomes an allocated block; a remainder large enough
      for a header and one granule is split off as a free block. */
  function MallocAt(bs: seq<Block>, i: nat, n: nat): seq<Block>
    requires i < |bs| && Fits(bs[i], n)
  {
    var cut := if Splits(bs[i], n) then SplitAt(bs, i, n) else bs;
    cut[i := cut[i].(free := false)]
  }

  /** Blocks i and i+1 become one block with block i's state. */
  function MergeAt(bs: seq<Block>, i: nat): seq<Block>
    requires i + 1 < |bs|
  {
    bs[..i] + [bs[i].(size := bs[i].size + HEADER + bs[i + 1].size)] + bs[i + 2..]
  }

  /** Block i is released and merged with each free neighbour. */
  function FreeAt(bs: seq<Block>, i: nat): seq<Block>
    requires i < |bs|
  {
    var left := if i > 0 && bs[i - 1].free then i - 1 else i;
    var right := if i + 1 < |bs| && bs[i + 1].free then i + 1 else i;
    var size := bs[i].size
      + (if left < i then bs[left].size + HEADER else 0)
      + (if right > i then HEADER + bs[right].size else 0);
    bs[..left] + [Block(bs[left].at, size, true)] + bs[right + 1..]
  }

  /** A request of n granules can be served exactly when it is no larger than the largest
      free block. */
  lemma RequestFitsIffLargest(bs: seq<Block>, n: nat)
    requires n >= 1
    ensures (exists i :: 0 <= i < |bs| && Fits(bs[i], n)) <==> n <= LargestFree(bs)
  {
    LargestFreeIsAttained(bs);
    if n <= LargestFree(bs) {
      var i :| 0 <= i < |bs| && bs[i].free && bs[i].size == LargestFree(bs);
      assert Fits(bs[i], n);
    }
  }

  lemma SplitKeepsContiguous(bs: seq<Block>, limit: nat, i: nat, n: nat)
    requires Contiguous(bs, limit)
    requires i < |bs| && Splits(bs[i], n) && n >= 1
    ensures Contiguous(SplitAt(bs, i, n), limit)
  {
    var r := SplitAt(bs, i, n);
    assert forall k :: 0 <= k < i ==> r[k] == bs[k];
    assert forall k :: i + 2 <= k < |r| ==> r[k] == bs[k - 1];
  }

  lemma SplitMembers(bs: seq<Block>, i: nat, n: nat, k: nat)
    requires i < |bs| && Splits(bs[i], n) && k <= |bs|
    ensures |SplitAt(bs, i, n)| == |bs| + 1
    ensures k < i ==> SplitAt(bs, i, n)[k] == bs[k]
    ensures k > i + 1 ==> SplitAt(bs, i, n)[k] == bs[k - 1]
  {
  }

  lemma MallocIsCoalesced(bs: seq<Block>, i: nat, n: nat)
    requires Coalesced(bs) && i < |bs| && Fits(bs[i], n)
    ensures Coalesced(MallocAt(bs, i, n))
  {
    var r := MallocAt(bs, i, n);
    assert i + 1 < |bs| ==> !bs[i + 1].free;
    if Splits(bs[i], n) {
      forall k, l | 0 <= k < |r| && l == k + 1 < |r|
        ensures !(r[k].free && r[l].free)
      {
        SplitMembers(bs, i, n, k);
        SplitMembers(bs, i, n, l);
      }
    }
  }

  lemma MallocKeepsTiling(bs: seq<Block>, i: nat, n: nat)
    requires Tiling(bs)
    requires i < |bs| && Fits(bs[i], n) && n >= 1
    ensures Tiling(MallocAt(bs, i, n))
  {
    MallocIsCoalesced(bs, i, n);
    if Splits(bs[i], n) {
      SplitKeepsContiguous(bs, ARENA, i, n);
    }
  }

  /** Allocation accounted for, in granules: a block with room for the request, a header and one
      granule more is cut to the request, any other is kept whole; what remains of it stays free. */
  lemma MallocAccounts(bs: seq<Block>, i: nat, n: nat)
    requires i < |bs| && Fits(bs[i], n)
    ensures var r, cut := MallocAt(bs, i, n), bs[i].size >= n + 3;
            && |r| == |bs| + (if cut then 1 else 0)
            && r[i] == Block(bs[i].at, if cut then n else bs[i].size, false)
            && FreeTotal(r) + (if cut then n + 2 else bs[i].size) == FreeTotal(bs)
            && AllocatedTotal(r) == AllocatedTotal(bs) + r[i].size
            && AllocatedCount(r) == AllocatedCount(bs) + 1
  {
    var before, b, after := bs[..i], bs[i], bs[i + 1..];
    assert bs == before + [b] + after;
    MeasuresAround(before, [b], after);
    MeasuresOfOne(b);
    if b.size >= n + 3 {
      var taken, rest := Block(b.at, n, false), Block(b.at + HEADER + n, b.size - n - HEADER, true);
      MallocInContext(before, b, after, n);
      MeasuresAround(before, [taken, rest], after);
      MeasuresOfTwo(taken, rest);
    } else {
      var taken := b.(free := false);
      assert MallocAt(bs, i, n) == before + [taken] + after;
      MeasuresAround(before, [taken], after);
      MeasuresOfOne(taken);
    }
  }

  lemma MeasuresOfOne(b: Block)
    ensures FreeTotal([b]) == (if b.free then b.size else 0) && AllocatedTotal([b]) == (if b.free then 0 else b.size)
    ensures AllocatedCount([b]) == if b.free then 0 else 1
  {
    assert [b][..0] == [];
  }

  lemma MeasuresOfTwo(b: Block, c: Block)
    requires !b.free && c.free
    ensures FreeTotal([b, c]) == c.size && AllocatedTotal([b, c]) == b.size && AllocatedCount([b, c]) == 1
  {
    assert [b, c] == [b] + [c];
    MeasuresAdd([b], [c]);
    MeasuresOfOne(b);
    MeasuresOfOne(c);
  }

  lemma MergeKeepsContiguous(bs: seq<Block>, limit: nat, i: nat)
    requires Contiguous(bs, limit)
    requires i + 1 < |bs|
    ensures Contiguous(MergeAt(bs, i), limit)
  {
    var r := MergeAt(bs, i);
    assert forall k :: 0 <= k < i ==> r[k] == bs[k];
    assert forall k :: i + 1 <= k < |r| ==> r[k] == bs[k + 1];
    assert bs[i + 1].at == bs[i].End();
  }

  predicate PreviousIsFree(bs: seq<Block>, i: nat) {
    0 < i < |bs| && bs[i - 1].free
  }

  predicate NextIsFree(bs: seq<Block>, i: nat) {
    i + 1 < |bs| && bs[i + 1].free
  }

  function MergeLeft(bs: seq<Block>, i: nat): seq<Block>
    requires i < |bs|
  {
    if PreviousIsFree(bs, i) then MergeAt(bs, i - 1) else bs
  }

  function MergeRight(bs: seq<Block>, i: nat): seq<Block>
    requires i < |bs|
  {
    if NextIsFree(bs, i) then MergeAt(bs, i) else bs
  }

  /** Release as the code performs it: clear the state, merge to the left, merge to the right. */
  function FreeBySteps(bs: seq<Block>, i: nat): seq<Block>
    requires i < |bs|
  {
    var freed := bs[i := bs[i].(free := true)];
    MergeRight(MergeLeft(freed, i), if PreviousIsFree(freed, i) then i - 1 else i)
  }

  lemma MergeInContext(before: seq<Block>, b: Block, c: Block, after: seq<Block>)
    ensures MergeAt(before + [b, c] + after, |before|)
            == before + [b.(size := b.size + HEADER + c.size)] + after
  {
    var bs := before + [b, c] + after;
    assert bs[..|before|] == before && bs[|before| + 2..] == after;
  }

  lemma FreeByStepsIsFreeAt(bs: seq<Block>, i: nat)
    requires i < |bs|
    ensures FreeBySteps(bs, i) == FreeAt(bs, i)
  {
    if i > 0 && bs[i - 1].free {
      FreeMergingLeft(bs, i);
    } else {
      FreeKeepingLeft(bs, i);
    }
  }

  lemma FreeMergingLeft(bs: seq<Block>, i: nat)
    requires 0 < i < |bs| && bs[i - 1].free
    ensures FreeBySteps(bs, i) == FreeAt(bs, i)
  {
    var freed := bs[i := bs[i].(free := true)];
    var b1 := bs[i - 1].(size := bs[i - 1].size + HEADER + bs[i].size);
    var bs1 := bs[..i - 1] + [b1] + bs[i + 1..];
    assert MergeAt(freed, i - 1) == bs1 by {
      assert freed == bs[..i - 1] + [bs[i - 1], freed[i]] + bs[i + 1..];
      MergeInContext(bs[..i - 1], bs[i - 1], freed[i], bs[i + 1..]);
    }
    if i + 1 < |bs| && bs[i + 1].free {
      assert MergeAt(bs1, i - 1) == bs[..i - 1] + [b1.(size := b1.size + HEADER + bs[i + 1].size)] + bs[i + 2..] by {
        assert bs1 == bs[..i - 1] + [b1, bs[i + 1]] + bs[i + 2..];
        MergeInContext(bs[..i - 1], b1, bs[i + 1], bs[i + 2..]);
      }
    }
  }

  lemma FreeKeepingLeft(bs: seq<Block>, i: nat)
    requires i < |bs| && (i > 0 ==> !bs[i - 1].free)
    ensures FreeBySteps(bs, i) == FreeAt(bs, i)
  {
    var freed := bs[i := bs[i].(free := true)];
    if i + 1 < |bs| && bs[i + 1].free {
      assert freed == bs[..i] + [freed[i], bs[i + 1]] + bs[i + 2..];
      MergeInContext(bs[..i], freed[i], bs[i + 1], bs[i + 2..]);
    } else {
      assert freed == bs[..i] + [freed[i]] + bs[i + 1..];
    }
  }

  lemma FreeKeepsTiling(bs: seq<Block>, i: nat)
    requires Tiling(bs)
    requires i < |bs| && !bs[i].free
    ensures Tiling(FreeAt(bs, i))
  {
    FreeByStepsIsFreeAt(bs, i);
    FreeIsContiguous(bs, ARENA, i);
    FreeIsCoalesced(bs, i);
  }

  lemma FreeIsContiguous(bs: seq<Block>, limit: nat, i: nat)
    requires Contiguous(bs, limit)
    requires i < |bs|
    ensures Contiguous(FreeBySteps(bs, i), limit)
  {
    var freed := bs[i := bs[i].(free := true)];
    assert Contiguous(freed, limit);
    if i > 0 && freed[i - 1].free {
      MergeKeepsContiguous(freed, limit, i - 1);
      var merged := MergeAt(freed, i - 1);
      if i < |merged| && merged[i].free {
        MergeKeepsContiguous(merged, limit, i - 1);
      }
    } else if i + 1 < |bs| && freed[i + 1].free {
      MergeKeepsContiguous(freed, limit, i);
    }
  }

  lemma FreeIsCoalesced(bs: seq<Block>, i: nat)
    requires Coalesced(bs)
    requires i < |bs| && !bs[i].free
    ensures Coalesced(FreeAt(bs, i))
  {
    var left := if i > 0 && bs[i - 1].free then i - 1 else i;
    var right := if i + 1 < |bs| && bs[i + 1].free then i + 1 else i;
    var before, after := bs[..left], bs[right + 1..];
    assert left > 0 ==> !bs[left - 1].free;
    assert right + 1 < |bs| ==> !bs[right + 1].free;
    CoalescedAround(before, FreeAt(bs, i)[left], after);
  }

  lemma CoalescedAround(before: seq<Block>, b: Block, after: seq<Block>)
    requires Coalesced(before) && (before != [] ==> !before[|before| - 1].free)
    requires Coalesced(after) && (after != [] ==> !after[0].free)
    ensures Coalesced(before + [b] + after)
  {
    var r, n := before + [b] + after, |before|;
    forall k, l | 0 <= k < |r| && l == k + 1 < |r| ensures !(r[k].free && r[l].free) {
      if l < n {
        assert r[k] == before[k] && r[l] == before[l];
      } else if l == n {
        assert r[k] == before[n - 1];
      } else if k == n {
        assert r[l] == after[0];
      } else {
        assert r[k] == after[k - n - 1] && r[l] == after[l - n - 1];
      }
    }
  }

  lemma ConcatenationParts(before: seq<Block>, middle: seq<Block>, after: seq<Block>)
    ensures (before + middle + after)[..|before|] == before
    ensures (before + middle + after)[|before| + |middle|..] == after
  {
  }

  /** A block freed between an allocated or absent left neighbour and a free right one. */
  lemma FreeInContext(before: seq<Block>, b: Block, c: Block, after: seq<Block>)
    requires (before != [] ==> !before[|before| - 1].free) && c.free
    ensures FreeAt(before + [b, c] + after, |before|) == before + [Block(b.at, b.size + HEADER + c.size, true)] + after
  {
    var r, i := before + [b, c] + after, |before|;
    assert r[i] == b && r[i + 1] == c && (i > 0 ==> r[i - 1] == before[i - 1]);
    assert r[..i] == before && r[i + 2..] == after;
  }

  /** A free block cut in two, the left part taken. */
  lemma MallocInContext(before: seq<Block>, b: Block, after: seq<Block>, n: nat)
    requires Splits(b, n)
    ensures Fits(b, n)
    ensures MallocAt(before + [b] + after, |before|, n)
            == before + [Block(b.at, n, false), Block(b.at + HEADER + n, b.size - n - HEADER, true)] + after
  {
    var bs, i := before + [b] + after, |before|;
    assert bs[i] == b && bs[..i] == before && bs[i + 1..] == after;
  }

  lemma FreeUndoesSplit(bs: seq<Block>, i: nat, n: nat)
    requires i < |bs| && Splits(bs[i], n) && (i > 0 ==> !bs[i - 1].free)
    ensures FreeAt(MallocAt(bs, i, n), i) == bs
  {
    var before, b, after := bs[..i], bs[i], bs[i + 1..];
    assert bs == before + [b] + after;
    MallocInContext(before, b, after, n);
    FreeInContext(before, Block(b.at, n, false), Block(b.at + HEADER + n, b.size - n - HEADER, true), after);
  }

  lemma FreeUndoesMark(bs: seq<Block>, i: nat, n: nat)
    requires i < |bs| && Fits(bs[i], n) && !Splits(bs[i], n)
    requires (i > 0 ==> !bs[i - 1].free) && (i + 1 < |bs| ==> !bs[i + 1].free)
    ensures FreeAt(MallocAt(bs, i, n), i) == bs
  {
    var r := MallocAt(bs, i, n);
    assert r == bs[..i] + [r[i]] + bs[i + 1..];
    ConcatenationParts(bs[..i], [r[i]], bs[i + 1..]);
    assert FreeAt(r, i) == bs[..i] + [bs[i]] + bs[i + 1..];
  }

  /** Releasing a fresh allocation at once gives back the very same block list. */
  lemma FreeUndoesMalloc(bs: seq<Block>, i: nat, n: nat)
    requires Tiling(bs)
    requires i < |bs| && Fits(bs[i], n)
    ensures FreeAt(MallocAt(bs, i, n), i) == bs
  {
    assert i > 0 ==> !bs[i - 1].free;
    assert i + 1 < |bs| ==> !bs[i + 1].free;
    if Splits(bs[i], n) {
      FreeUndoesSplit(bs, i, n);
    } else {
      FreeUndoesMark(bs, i, n);
    }
  }
}
