/** How a block list is laid out in the words of the heap arena, and what the heap operations
    may do to those words. Granule g of the arena holds words 4g .. 4g+3; a header fills the
    first five of its eight words. */
module HeapMemory {
  import opened Words
  import opened HeapBlocks

  const ARENA_BYTES: int := 262144
  const ARENA_WORDS: int := 65536
  const MAGIC: word := 0x48454150
  const FREE: word := 1
  const ALLOCATED: word := 2

  /** The arena is 16-aligned static storage that does not wrap around the address space. */
  predicate ArenaPlaced(base: word) {
    0 < base && base % 16 == 0 && base + ARENA_BYTES < WORD_LIMIT
  }

  function StateWord(free: bool): word {
    if free then FREE else ALLOCATED
  }

  predicate InHeader(at: nat, w: int) {
    4 * at <= w < 4 * at + 8
  }

  predicate HeaderWords(m: seq<word>, at: nat, state: int, payload: int, previous: int, next: int) {
    && |m| == ARENA_WORDS
    && 4 * at + 8 <= ARENA_WORDS
    && m[4 * at] == MAGIC
    && m[4 * at + 1] == state
    && m[4 * at + 2] == payload
    && m[4 * at + 3] == previous
    && m[4 * at + 4] == next
  }

  function PreviousLink(base: word, bs: seq<Block>, i: nat): int
    requires i < |bs|
  {
    if i == 0 then 0 else base + 16 * bs[i - 1].at
  }

  function NextLink(base: word, bs: seq<Block>, i: nat): int
    requires i < |bs|
  {
    if i + 1 == |bs| then 0 else base + 16 * bs[i + 1].at
  }

  /** The header of block i says what the list says, with both links consistent. */
  predicate HeaderMatches(m: seq<word>, base: word, bs: seq<Block>, i: nat)
    requires i < |bs|
  {
    HeaderWords(m, bs[i].at, StateWord(bs[i].free), 16 * bs[i].size, PreviousLink(base, bs, i), NextLink(base, bs, i))
  }

  predicate Linked(m: seq<word>, base: word, bs: seq<Block>) {
    && |m| == ARENA_WORDS
    && bs != []
    && Contiguous(bs, ARENA)
    && forall i :: 0 <= i < |bs| ==> HeaderMatches(m, base, bs, i)
  }

  /** The arena is well formed and bs is its block list. */
  predicate Represents(m: seq<word>, base: word, bs: seq<Block>) {
    Linked(m, base, bs) && Coalesced(bs)
  }

  ghost predicate WellFormed(m: seq<word>, base: word) {
    exists bs :: Represents(m, base, bs)
  }

  lemma {:induction false} RepresentationsAgree(m: seq<word>, base: word, bs: seq<Block>, cs: seq<Block>, n: nat)
    requires ArenaPlaced(base) && Linked(m, base, bs) && Linked(m, base, cs)
    requires n <= |bs|
    ensures n <= |cs| && bs[..n] == cs[..n]
  {
    if n > 0 {
      RepresentationsAgree(m, base, bs, cs, n - 1);
      var k := n - 1;
      assert k > 0 ==> bs[k - 1] == bs[..k][k - 1] == cs[..k][k - 1] == cs[k - 1];
      NextBlocksAgree(m, base, bs, cs, k);
      assert bs[..n] == bs[..k] + [bs[k]] && cs[..n] == cs[..k] + [cs[k]];
    }
  }

  /** The header before it says whether and where block k starts, its own header what it is. */
  lemma NextBlocksAgree(m: seq<word>, base: word, bs: seq<Block>, cs: seq<Block>, k: nat)
    requires ArenaPlaced(base) && Linked(m, base, bs) && Linked(m, base, cs)
    requires k < |bs| && k <= |cs| && (k > 0 ==> bs[k - 1] == cs[k - 1])
    ensures k < |cs| && bs[k] == cs[k]
  {
    if k > 0 {
      assert HeaderMatches(m, base, bs, k - 1) && HeaderMatches(m, base, cs, k - 1);
      assert k < |cs|;
      assert bs[k].at == bs[k - 1].End() && cs[k].at == cs[k - 1].End();
    }
    assert HeaderMatches(m, base, bs, k) && HeaderMatches(m, base, cs, k);
  }

  /** The arena determines its block list. */
  lemma RepresentationIsUnique(m: seq<word>, base: word, bs: seq<Block>, cs: seq<Block>)
    requires ArenaPlaced(base) && Linked(m, base, bs) && Linked(m, base, cs)
    ensures bs == cs
  {
    RepresentationsAgree(m, base, bs, cs, |bs|);
    RepresentationsAgree(m, base, cs, bs, |cs|);
    assert bs == bs[..|bs|] && cs == cs[..|cs|];
  }

  // ----- headers, payloads and what may change -----

  ghost predicate IsHeaderWord(bs: seq<Block>, w: int) {
    exists i :: 0 <= i < |bs| && InHeader(bs[i].at, w)
  }

  predicate InPayload(b: Block, w: int) {
    4 * (b.at + HEADER) <= w < 4 * b.End()
  }

  /** Only words that are headers before or after the operation differ. */
  ghost predicate OnlyHeadersChange(m: seq<word>, m': seq<word>, bs: seq<Block>, bs': seq<Block>) {
    && |m| == |m'| == ARENA_WORDS
    && forall w :: 0 <= w < ARENA_WORDS && m[w] != m'[w] ==> IsHeaderWord(bs, w) || IsHeaderWord(bs', w)
  }

  lemma HeaderChangesCompose(m: seq<word>, m1: seq<word>, m2: seq<word>, bs: seq<Block>, bs1: seq<Block>,
                             bs2: seq<Block>)
    requires OnlyHeadersChange(m, m1, bs, bs1) && OnlyHeadersChange(m1, m2, bs1, bs1)
    requires |bs1| == |bs2| && forall i :: 0 <= i < |bs1| ==> bs1[i].at == bs2[i].at
    ensures OnlyHeadersChange(m, m2, bs, bs2)
  {
    forall w | 0 <= w < ARENA_WORDS && m[w] != m2[w] && !IsHeaderWord(bs, w)
      ensures IsHeaderWord(bs2, w)
    {
      var k :| 0 <= k < |bs1| && InHeader(bs1[k].at, w);
      assert InHeader(bs2[k].at, w);
    }
  }

  /** No payload word of a listed block is a header word, or a payload word of another block. */
  lemma PayloadsAreDisjoint(bs: seq<Block>, i: nat, w: int)
    requires Contiguous(bs, ARENA)
    requires i < |bs| && InPayload(bs[i], w)
    ensures 0 <= w < ARENA_WORDS
    ensures !IsHeaderWord(bs, w)
    ensures forall j :: 0 <= j < |bs| && j != i ==> !InPayload(bs[j], w)
  {
    BlocksEndInside(bs, ARENA, i);
    forall j | 0 <= j < |bs| && j != i
      ensures !InHeader(bs[j].at, w) && !InPayload(bs[j], w)
    {
      if j < i {
        BlocksAreOrdered(bs, ARENA, j, i);
      } else {
        BlocksAreOrdered(bs, ARENA, i, j);
      }
    }
  }

  // ----- what allocation and release promise -----

  function Granules(size: word): nat {
    (size + 15) / 16
  }

  predicate Representable(size: word) {
    size != 0 && size <= WORD_LIMIT - 1 - 15
  }

  /** kmalloc(size) on arena m returns pointer and leaves m'. */
  ghost predicate MallocSpec(m: seq<word>, base: word, ready: bool, size: word, m': seq<word>, pointer: word) {
    if !ready || !Representable(size) || !WellFormed(m, base) then
      pointer == 0 && m' == m
    else
      exists bs :: Represents(m, base, bs) && MallocOutcome(m, base, bs, Granules(size), m', pointer)
  }

  ghost predicate MallocOutcome(m: seq<word>, base: word, bs: seq<Block>, n: nat, m': seq<word>, pointer: word) {
    if n > LargestFree(bs) then
      pointer == 0 && m' == m
    else
      exists i: nat :: IsFirstFit(bs, n, i) && MallocTakes(m, base, bs, n, m', pointer, i)
  }

  ghost predicate MallocTakes(m: seq<word>, base: word, bs: seq<Block>, n: nat, m': seq<word>, pointer: word, i: nat)
    requires IsFirstFit(bs, n, i)
  {
    && pointer == base + 16 * (bs[i].at + HEADER)
    && Represents(m', base, MallocAt(bs, i, n))
    && OnlyHeadersChange(m, m', bs, MallocAt(bs, i, n))
  }

  predicate IsLive(base: word, bs: seq<Block>, i: nat, pointer: word) {
    i < |bs| && !bs[i].free && pointer == base + 16 * (bs[i].at + HEADER)
  }

  /** kfree(pointer) on arena m answers ok and leaves m'. */
  ghost predicate FreeSpec(m: seq<word>, base: word, ready: bool, pointer: word, m': seq<word>, ok: bool) {
    if !ready || !WellFormed(m, base) then
      !ok && m' == m
    else
      exists bs :: Represents(m, base, bs) && FreeOutcome(m, base, bs, pointer, m', ok)
  }

  ghost predicate FreeOutcome(m: seq<word>, base: word, bs: seq<Block>, pointer: word, m': seq<word>, ok: bool) {
    if forall i: nat :: !IsLive(base, bs, i, pointer) then
      !ok && m' == m
    else
      && ok
      && exists i: nat :: IsLive(base, bs, i, pointer) && FreeReleases(m, base, bs, m', i)
  }

  ghost predicate FreeReleases(m: seq<word>, base: word, bs: seq<Block>, m': seq<word>, i: nat)
    requires i < |bs|
  {
    && Represents(m', base, FreeAt(bs, i))
    && OnlyHeadersChange(m, m', bs, FreeAt(bs, i))
  }

  // ----- header updates that realise the block-list operations -----

  predicate HeaderOnlyChange(m: seq<word>, m': seq<word>, at: nat) {
    |m| == |m'| && forall w :: 0 <= w < |m| && !InHeader(at, w) ==> m[w] == m'[w]
  }

  predicate HeaderUntouched(m: seq<word>, m': seq<word>, at: nat) {
    |m| == |m'| && forall w :: 0 <= w < |m| && InHeader(at, w) ==> m[w] == m'[w]
  }

  /** An untouched header still matches in a list that gives its block the same neighbours. */
  lemma UntouchedHeaderMatches(m: seq<word>, m': seq<word>, base: word, bs: seq<Block>, k: nat, r: seq<Block>, l: nat)
    requires k < |bs| && HeaderMatches(m, base, bs, k) && HeaderUntouched(m, m', bs[k].at)
    requires l < |r| && r[l] == bs[k]
    requires PreviousLink(base, r, l) == PreviousLink(base, bs, k)
    requires NextLink(base, r, l) == NextLink(base, bs, k)
    ensures HeaderMatches(m', base, r, l)
  {
    var w := 4 * bs[k].at;
    assert InHeader(bs[k].at, w) && InHeader(bs[k].at, w + 1) && InHeader(bs[k].at, w + 2);
    assert InHeader(bs[k].at, w + 3) && InHeader(bs[k].at, w + 4);
  }

  lemma HeaderBefore(m: seq<word>, m': seq<word>, base: word, bs: seq<Block>, r: seq<Block>, i: nat, k: nat)
    requires k < i < |bs| && i < |r| && r[..i] == bs[..i] && r[i].at == bs[i].at
    requires HeaderMatches(m, base, bs, k) && HeaderUntouched(m, m', bs[k].at)
    ensures HeaderMatches(m', base, r, k)
  {
    assert r[k] == r[..i][k] && bs[k] == bs[..i][k];
    assert k > 0 ==> r[k - 1] == r[..i][k - 1] && bs[k - 1] == bs[..i][k - 1];
    assert k + 1 < i ==> r[k + 1] == r[..i][k + 1] && bs[k + 1] == bs[..i][k + 1];
    UntouchedHeaderMatches(m, m', base, bs, k, r, k);
  }

  lemma HeaderAfter(m: seq<word>, m': seq<word>, base: word, bs: seq<Block>, from: nat, r: seq<Block>, to: nat, k: nat)
    requires from < k < |bs| && to <= |r| && r[to..] == bs[from..]
    requires HeaderMatches(m, base, bs, k) && HeaderUntouched(m, m', bs[k].at)
    ensures k - from + to < |r| && HeaderMatches(m', base, r, k - from + to)
  {
    var l := k - from + to;
    assert r[l] == r[to..][l - to] && bs[k] == bs[from..][k - from];
    assert r[l - 1] == r[to..][l - 1 - to] && bs[k - 1] == bs[from..][k - 1 - from];
    assert k + 1 < |bs| ==> r[l + 1] == r[to..][l + 1 - to] && bs[k + 1] == bs[from..][k + 1 - from];
    UntouchedHeaderMatches(m, m', base, bs, k, r, l);
  }

  lemma HeadersDoNotOverlap(bs: seq<Block>, k: nat, l: nat)
    requires Contiguous(bs, ARENA)
    requires k < |bs| && l < |bs| && k != l
    ensures forall w :: InHeader(bs[k].at, w) ==> !InHeader(bs[l].at, w) && !InPayload(bs[l], w)
  {
    if k < l {
      BlocksAreOrdered(bs, ARENA, k, l);
    } else {
      BlocksAreOrdered(bs, ARENA, l, k);
    }
  }

  /** The words m' written when block i is cut after n granules. */
  predicate SplitWritten(m: seq<word>, m': seq<word>, base: word, bs: seq<Block>, i: nat, n: nat) {
    && |m'| == |m|
    && i < |bs| && Splits(bs[i], n) && n >= 1
    && var cut := bs[i].at + HEADER + n;
    && HeaderWords(m', bs[i].at, FREE, 16 * n, PreviousLink(base, bs, i), base + 16 * cut)
    && HeaderWords(m', cut, FREE, 16 * (bs[i].size - n - HEADER), base + 16 * bs[i].at, NextLink(base, bs, i))
    && (i + 1 < |bs| ==>
          HeaderWords(m', bs[i + 1].at, StateWord(bs[i + 1].free), 16 * bs[i + 1].size, base + 16 * cut,
              NextLink(base, bs, i + 1)))
    && (forall w :: 0 <= w < |m| && m[w] != m'[w] ==>
          InHeader(bs[i].at, w) || InHeader(cut, w) || (i + 1 < |bs| && InHeader(bs[i + 1].at, w)))
  }

  /** The three writes of a split: the new header (m1), the back link of the block after it
      (m2), size and forward link of block i (m'). */
  lemma SplitIsWritten(m: seq<word>, m1: seq<word>, m2: seq<word>, m': seq<word>, base: word, bs: seq<Block>, i: nat,
                       n: nat)
    requires ArenaPlaced(base) && i < |bs| && Splits(bs[i], n) && n >= 1 && bs[i].End() <= ARENA
    requires HeaderMatches(m, base, bs, i)
    requires i + 1 < |bs| ==> HeaderMatches(m, base, bs, i + 1) && bs[i + 1].at == bs[i].End()
    requires var cut := bs[i].at + HEADER + n;
             && HeaderOnlyChange(m, m1, cut)
             && HeaderWords(m1, cut, FREE, 16 * (bs[i].size - n - HEADER), base + 16 * bs[i].at, NextLink(base, bs, i))
             && m2 == (if i + 1 < |bs| then m1[4 * bs[i + 1].at + 3 := base + 16 * cut] else m1)
             && m' == m2[4 * bs[i].at + 2 := 16 * n][4 * bs[i].at + 4 := base + 16 * cut]
    ensures SplitWritten(m, m', base, bs, i, n)
  {
    var cut := bs[i].at + HEADER + n;
    var h := 4 * bs[i].at;
    assert forall k :: h <= k < h + 8 ==> !InHeader(cut, k) && m1[k] == m[k];
    if i + 1 < |bs| {
      var g := 4 * bs[i + 1].at;
      assert forall k :: g <= k < g + 8 ==> !InHeader(cut, k) && m1[k] == m[k];
    }
  }

  lemma SplitLeavesHeader(m: seq<word>, m': seq<word>, base: word, bs: seq<Block>, i: nat, n: nat, k: nat)
    requires Linked(m, base, bs) && SplitWritten(m, m', base, bs, i, n)
    requires k < |bs| && k != i && k != i + 1
    ensures HeaderUntouched(m, m', bs[k].at)
  {
    HeadersDoNotOverlap(bs, k, i);
    if i + 1 < |bs| {
      HeadersDoNotOverlap(bs, k, i + 1);
    }
    assert forall w :: InHeader(bs[i].at + HEADER + n, w) ==> InPayload(bs[i], w);
  }

  lemma SplitWritesHeader(m: seq<word>, m': seq<word>, base: word, bs: seq<Block>, i: nat, n: nat, k: nat)
    requires SplitWritten(m, m', base, bs, i, n)
    requires i <= k <= i + 2 && k <= |bs|
    ensures HeaderMatches(m', base, SplitAt(bs, i, n), k)
  {
    var r := SplitAt(bs, i, n);
    assert r[i] == Block(bs[i].at, n, true);
    assert r[i + 1] == Block(bs[i].at + HEADER + n, bs[i].size - n - HEADER, true);
    assert i > 0 ==> r[i - 1] == bs[i - 1];
    assert i + 2 < |r| ==> r[i + 2] == bs[i + 1];
    assert i + 3 < |r| ==> r[i + 3] == bs[i + 2];
    if k == i {
      assert PreviousLink(base, r, i) == PreviousLink(base, bs, i);
    } else if k == i + 1 {
      assert NextLink(base, r, i + 1) == NextLink(base, bs, i);
    } else {
      assert NextLink(base, r, i + 2) == NextLink(base, bs, i + 1);
    }
  }

  lemma SplitKeepsHeader(m: seq<word>, m': seq<word>, base: word, bs: seq<Block>, i: nat, n: nat, k: nat)
    requires Linked(m, base, bs) && SplitWritten(m, m', base, bs, i, n)
    requires k < |bs| && k != i && k != i + 1
    ensures HeaderMatches(m', base, SplitAt(bs, i, n), if k < i then k else k + 1)
  {
    var r := SplitAt(bs, i, n);
    SplitLeavesHeader(m, m', base, bs, i, n, k);
    assert HeaderMatches(m, base, bs, k);
    if k < i {
      assert r[..i] == bs[..i];
      HeaderBefore(m, m', base, bs, r, i, k);
    } else {
      assert r[i + 2..] == bs[i + 1..];
      HeaderAfter(m, m', base, bs, i + 1, r, i + 2, k);
    }
  }

  lemma SplitKeepsLinks(m: seq<word>, m': seq<word>, base: word, bs: seq<Block>, i: nat, n: nat)
    requires Linked(m, base, bs) && SplitWritten(m, m', base, bs, i, n)
    ensures Linked(m', base, SplitAt(bs, i, n))
    ensures OnlyHeadersChange(m, m', bs, SplitAt(bs, i, n))
  {
    var r := SplitAt(bs, i, n);
    SplitKeepsContiguous(bs, ARENA, i, n);
    forall k | 0 <= k < |r|
      ensures HeaderMatches(m', base, r, k)
    {
      if i <= k <= i + 2 {
        SplitWritesHeader(m, m', base, bs, i, n, k);
      } else {
        SplitKeepsHeader(m, m', base, bs, i, n, if k < i then k else k - 1);
      }
    }
    assert r[i + 1].at == bs[i].at + HEADER + n;
  }

  lemma MarkKeepsLinks(m: seq<word>, m': seq<word>, base: word, bs: seq<Block>, i: nat, free: bool)
    requires Linked(m, base, bs)
    requires i < |bs| && 4 * bs[i].at + 8 <= |m|
    requires m' == m[4 * bs[i].at + 1 := StateWord(free)]
    ensures Linked(m', base, bs[i := bs[i].(free := free)])
    ensures OnlyHeadersChange(m, m', bs, bs)
  {
    var r := bs[i := bs[i].(free := free)];
    forall k | 0 <= k < |r|
      ensures HeaderMatches(m', base, r, k)
    {
      assert HeaderMatches(m, base, bs, k);
      if k != i {
        HeadersDoNotOverlap(bs, i, k);
        assert InHeader(bs[i].at, 4 * bs[i].at + 1);
        UntouchedHeaderMatches(m, m', base, bs, k, r, k);
      }
    }
    assert InHeader(bs[i].at, 4 * bs[i].at + 1);
  }

  /** The words m' written when block i absorbs block i+1. */
  predicate MergeWritten(m: seq<word>, m': seq<word>, base: word, bs: seq<Block>, i: nat) {
    && |m'| == |m|
    && i + 1 < |bs|
    && HeaderWords(m', bs[i].at, StateWord(bs[i].free), 16 * (bs[i].size + HEADER + bs[i + 1].size),
                   PreviousLink(base, bs, i), NextLink(base, bs, i + 1))
    && (i + 2 < |bs| ==>
          HeaderWords(m', bs[i + 2].at, StateWord(bs[i + 2].free), 16 * bs[i + 2].size, base + 16 * bs[i].at,
              NextLink(base, bs, i + 2)))
    && (forall w :: 0 <= w < |m| && m[w] != m'[w] ==>
          InHeader(bs[i].at, w) || InHeader(bs[i + 1].at, w) || (i + 2 < |bs| && InHeader(bs[i + 2].at, w)))
  }

  lemma MergeLeavesHeader(m: seq<word>, m': seq<word>, base: word, bs: seq<Block>, i: nat, k: nat)
    requires Linked(m, base, bs) && MergeWritten(m, m', base, bs, i)
    requires k < |bs| && (k < i || k > i + 2)
    ensures HeaderUntouched(m, m', bs[k].at)
  {
    HeadersDoNotOverlap(bs, k, i);
    HeadersDoNotOverlap(bs, k, i + 1);
    if i + 2 < |bs| {
      HeadersDoNotOverlap(bs, k, i + 2);
    }
  }

  lemma MergeWritesHeader(m: seq<word>, m': seq<word>, base: word, bs: seq<Block>, i: nat, k: nat)
    requires MergeWritten(m, m', base, bs, i)
    requires i <= k <= i + 1 && k + 1 < |bs|
    ensures HeaderMatches(m', base, MergeAt(bs, i), k)
  {
    var r := MergeAt(bs, i);
    assert r[i] == bs[i].(size := bs[i].size + HEADER + bs[i + 1].size);
    assert i > 0 ==> r[i - 1] == bs[i - 1];
    assert i + 1 < |r| ==> r[i + 1] == bs[i + 2];
    assert i + 2 < |r| ==> r[i + 2] == bs[i + 3];
    if k == i {
      assert PreviousLink(base, r, i) == PreviousLink(base, bs, i);
      assert NextLink(base, r, i) == NextLink(base, bs, i + 1);
    } else {
      assert NextLink(base, r, i + 1) == NextLink(base, bs, i + 2);
    }
  }

  lemma MergeKeepsHeader(m: seq<word>, m': seq<word>, base: word, bs: seq<Block>, i: nat, k: nat)
    requires Linked(m, base, bs) && MergeWritten(m, m', base, bs, i)
    requires k < |bs| && (k < i || k > i + 2)
    ensures HeaderMatches(m', base, MergeAt(bs, i), if k < i then k else k - 1)
  {
    var r := MergeAt(bs, i);
    MergeLeavesHeader(m, m', base, bs, i, k);
    assert HeaderMatches(m, base, bs, k);
    if k < i {
      assert r[..i] == bs[..i];
      HeaderBefore(m, m', base, bs, r, i, k);
    } else {
      assert r[i + 1..] == bs[i + 2..];
      HeaderAfter(m, m', base, bs, i + 2, r, i + 1, k);
    }
  }

  lemma MergeKeepsLinks(m: seq<word>, m': seq<word>, base: word, bs: seq<Block>, i: nat)
    requires Linked(m, base, bs) && MergeWritten(m, m', base, bs, i)
    ensures Linked(m', base, MergeAt(bs, i))
    ensures OnlyHeadersChange(m, m', bs, bs)
  {
    MergeKeepsContiguous(bs, ARENA, i);
    forall k | 0 <= k < |bs| - 1
      ensures HeaderMatches(m', base, MergeAt(bs, i), k)
    {
      if i <= k <= i + 1 {
        MergeWritesHeader(m, m', base, bs, i, k);
      } else {
        MergeKeepsHeader(m, m', base, bs, i, if k < i then k else k + 1);
      }
    }
  }

  /** The four writes of a merge: size and forward link of block i (m1), the back link of the
      block after the absorbed one (m2), the invalidated header (m'). */
  lemma MergeIsWritten(m: seq<word>, m1: seq<word>, m2: seq<word>, m': seq<word>, base: word, bs: seq<Block>, i: nat)
    requires ArenaPlaced(base) && i + 1 < |bs| && MergeReady(m, base, bs, i)
    requires m1 == m[4 * bs[i].at + 2 := 16 * (bs[i].size + HEADER + bs[i + 1].size)]
                    [4 * bs[i].at + 4 := NextLink(base, bs, i + 1)]
    requires m2 == if i + 2 < |bs| then m1[4 * bs[i + 2].at + 3 := base + 16 * bs[i].at] else m1
    requires |m'| == |m| && HeaderOnlyChange(m2, m', bs[i + 1].at)
    ensures MergeWritten(m, m', base, bs, i)
  {
    var h := 4 * bs[i].at;
    assert forall k :: h <= k < h + 8 ==> !InHeader(bs[i + 1].at, k) && m'[k] == m2[k];
    if i + 2 < |bs| {
      var g := 4 * bs[i + 2].at;
      assert forall k :: g <= k < g + 8 ==> !InHeader(bs[i + 1].at, k) && m'[k] == m2[k];
    }
  }

  /** The three headers a merge touches, side by side. */
  predicate MergeReady(m: seq<word>, base: word, bs: seq<Block>, i: nat)
    requires i + 1 < |bs|
  {
    && HeaderMatches(m, base, bs, i)
    && HeaderMatches(m, base, bs, i + 1)
    && bs[i + 1].at == bs[i].End() && bs[i + 1].End() <= ARENA
    && (i + 2 < |bs| ==> HeaderMatches(m, base, bs, i + 2) && bs[i + 2].at == bs[i + 1].End())
  }

  lemma LinkedIsMergeReady(m: seq<word>, base: word, bs: seq<Block>, i: nat)
    requires Linked(m, base, bs) && i + 1 < |bs|
    ensures MergeReady(m, base, bs, i)
  {
    assert HeaderMatches(m, base, bs, i) && HeaderMatches(m, base, bs, i + 1);
    assert i + 2 < |bs| ==> HeaderMatches(m, base, bs, i + 2) && bs[i + 2].at == bs[i + 1].End();
    BlocksEndInside(bs, ARENA, i + 1);
  }

  /** Merging makes no new headers. */
  lemma MergeAddsNoHeader(bs: seq<Block>, i: nat, w: int)
    requires i + 1 < |bs| && IsHeaderWord(MergeAt(bs, i), w)
    ensures IsHeaderWord(bs, w)
  {
    var r := MergeAt(bs, i);
    var k :| 0 <= k < |r| && InHeader(r[k].at, w);
    assert r[k].at == bs[if k <= i then k else k + 1].at;
  }

  /** Release composes its writes: all of them fall on headers of the original list. */
  lemma MergeChangesCompose(m: seq<word>, m1: seq<word>, m2: seq<word>, bs: seq<Block>, bs1: seq<Block>)
    requires OnlyHeadersChange(m, m1, bs, bs) && OnlyHeadersChange(m1, m2, bs1, bs1)
    requires HeadersWithin(bs1, bs)
    ensures OnlyHeadersChange(m, m2, bs, bs)
  {
    forall w | 0 <= w < ARENA_WORDS && m[w] != m2[w]
      ensures IsHeaderWord(bs, w)
    {
      assert m[w] != m1[w] || m1[w] != m2[w];
    }
  }

  ghost predicate HeadersWithin(bs: seq<Block>, cs: seq<Block>) {
    forall w :: IsHeaderWord(bs, w) ==> IsHeaderWord(cs, w)
  }

  lemma MergeLeftAddsNoHeader(bs: seq<Block>, i: nat)
    requires i < |bs|
    ensures HeadersWithin(MergeLeft(bs, i), bs)
  {
    if PreviousIsFree(bs, i) {
      forall w | IsHeaderWord(MergeAt(bs, i - 1), w) ensures IsHeaderWord(bs, w) {
        MergeAddsNoHeader(bs, i - 1, w);
      }
    }
  }

  lemma MarkMovesNoHeader(bs: seq<Block>, i: nat, free: bool)
    requires i < |bs|
    ensures HeadersWithin(bs[i := bs[i].(free := free)], bs)
  {
    var r := bs[i := bs[i].(free := free)];
    forall w | IsHeaderWord(r, w) ensures IsHeaderWord(bs, w) {
      var k :| 0 <= k < |r| && InHeader(r[k].at, w);
      assert bs[k].at == r[k].at;
    }
  }

  // ----- bytes of the arena -----

  function ByteAt(m: seq<word>, o: nat): byte
    requires o / 4 < |m|
  {
    ByteOf(m[o / 4], o % 4)
  }

  function StoreByte(m: seq<word>, o: nat, v: byte): seq<word>
    requires o / 4 < |m|
  {
    m[o / 4 := PutByte(m[o / 4], o % 4, v)]
  }

  lemma ByteAtStoreByte(m: seq<word>, o: nat, v: byte, q: nat)
    requires o / 4 < |m| && q / 4 < |m|
    ensures ByteAt(StoreByte(m, o, v), q) == if q == o then v else ByteAt(m, q)
  {
    if q / 4 == o / 4 {
      ByteOfPutByte(m[o / 4], o % 4, v, q % 4);
    }
  }

  /** A store inside a payload leaves every header alone, so the arena still represents the
      same list and validation still succeeds. */
  lemma PayloadWriteIsHarmless(m: seq<word>, base: word, bs: seq<Block>, i: nat, w: nat, v: word)
    requires Represents(m, base, bs)
    requires i < |bs| && InPayload(bs[i], w) && w < |m|
    ensures Represents(m[w := v], base, bs)
  {
    PayloadsAreDisjoint(bs, i, w);
    var m' := m[w := v];
    forall k | 0 <= k < |bs|
      ensures HeaderMatches(m', base, bs, k)
    {
      assert HeaderMatches(m, base, bs, k) && !InHeader(bs[k].at, w);
      UntouchedHeaderMatches(m, m', base, bs, k, bs, k);
    }
  }

  /** kcalloc's zero fill: exactly the bytes start .. start+total become 0. */
  predicate ZeroFilled(m: seq<word>, m': seq<word>, start: nat, total: nat) {
    && |m| == |m'| == ARENA_WORDS
    && forall o :: 0 <= o < ARENA_BYTES ==> ByteAt(m', o) == if start <= o < start + total then 0 else ByteAt(m, o)
  }

  lemma ZeroFillGrows(m: seq<word>, m1: seq<word>, start: nat, index: nat)
    requires ZeroFilled(m, m1, start, index) && start + index < ARENA_BYTES
    ensures ZeroFilled(m, StoreByte(m1, start + index, 0), start, index + 1)
  {
    var m2 := StoreByte(m1, start + index, 0);
    forall q | 0 <= q < ARENA_BYTES
      ensures ByteAt(m2, q) == if start <= q < start + index + 1 then 0 else ByteAt(m, q)
    {
      ByteAtStoreByte(m1, start + index, 0, q);
    }
  }
}
