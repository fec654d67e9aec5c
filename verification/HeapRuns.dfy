/** Whole runs of the kernel heap: any mixture of kmalloc, kcalloc, kfree and client stores into
    live allocations, starting from kheap_init. */
module HeapRuns {
  import opened Words
  import opened HeapBlocks
  import opened HeapMemory
  import opened Heap

  /** The arena, and the allocations the client holds with the sizes it asked for. */
  datatype State = State(m: seq<word>, live: map<word, nat>)

  datatype Op =
    | Malloc(size: word)
    | Calloc(count: word, size: word)
    | Free(pointer: word)
    | Store(pointer: word, offset: nat, value: byte)

  ghost predicate Step(base: word, s: State, op: Op, s': State) {
    match op
    case Malloc(size) => MallocStep(base, s, size, s')
    case Calloc(count, size) => CallocStep(base, s, count, size, s')
    case Free(pointer) => FreeStep(base, s, pointer, s')
    case Store(pointer, offset, value) => StoreStep(base, s, pointer, offset, value, s')
  }

  ghost predicate MallocStep(base: word, s: State, size: word, s': State) {
    exists p :: MallocSpec(s.m, base, true, size, s'.m, p) && s'.live == Granted(s.live, p, size)
  }

  ghost predicate CallocStep(base: word, s: State, count: word, size: word, s': State) {
    if ProductRepresentable(count, size) then ZeroedStep(base, s, count * size, s') else s' == s
  }

  ghost predicate ZeroedStep(base: word, s: State, total: word, s': State) {
    exists p :: ZeroedSpec(s.m, base, true, total, s'.m, p) && s'.live == Granted(s.live, p, total)
  }

  /** A kcalloc call as its contract describes it is a step of the run. */
  lemma CallocCallIsStep(base: word, s: State, count: word, size: word, m': seq<word>, p: word)
    requires CallocSpec(s.m, base, true, count, size, m', p)
    ensures CallocStep(base, s, count, size, State(m', if p == 0 then s.live else s.live[p := count * size]))
  {
    if ProductRepresentable(count, size) {
      var total: word := count * size;
      assert ZeroedSpec(s.m, base, true, total, m', p);
      assert ZeroedStep(base, s, total, State(m', Granted(s.live, p, total)));
    }
  }

  ghost predicate FreeStep(base: word, s: State, pointer: word, s': State) {
    exists ok :: FreeSpec(s.m, base, true, pointer, s'.m, ok) && s'.live == if ok then s.live - {pointer} else s.live
  }

  /** The client writes one byte of an allocation it holds. */
  ghost predicate StoreStep(base: word, s: State, pointer: word, offset: nat, value: byte, s': State) {
    && pointer in s.live && offset < s.live[pointer] && base <= pointer
    && (pointer - base + offset) / 4 < |s.m|
    && s' == s.(m := StoreByte(s.m, pointer - base + offset, value))
  }

  function Granted(live: map<word, nat>, p: word, size: nat): map<word, nat> {
    if p == 0 then live else live[p := size]
  }

  ghost predicate Initial(base: word, s: State) {
    Represents(s.m, base, InitialBlocks()) && s.live == map[]
  }

  ghost predicate IsRun(base: word, states: seq<State>, ops: seq<Op>) {
    && |states| == |ops| + 1
    && Initial(base, states[0])
    && forall k {:trigger ops[k]} :: 0 <= k < |ops| ==> Step(base, states[k], ops[k], states[k + 1])
  }

  // ----- the invariant -----

  function PointerTo(base: word, b: Block): int {
    base + 16 * (b.at + HEADER)
  }

  ghost function AllocatedSet(bs: seq<Block>): set<Block> {
    set b | b in bs && !b.free
  }

  /** A block of this many granules for a request of this many bytes: large enough, and wasting
      less than a header and a granule more. */
  predicate Snug(request: nat, granules: nat) {
    request <= 16 * granules < request + 48
  }

  /** The client's allocations are exactly the allocated blocks, each snug. */
  ghost predicate Matches(base: word, live: map<word, nat>, blocks: set<Block>) {
    && (forall b :: b in blocks ==> PointerTo(base, b) in live && Snug(live[PointerTo(base, b)], b.size))
    && (forall p :: p in live ==> exists b :: b in blocks && p == PointerTo(base, b))
  }

  ghost predicate Inv(base: word, s: State) {
    exists bs :: Represents(s.m, base, bs) && Matches(base, s.live, AllocatedSet(bs))
  }

  ghost predicate DistinctPlaces(blocks: set<Block>) {
    forall b, c :: b in blocks && c in blocks && b.at == c.at ==> b == c
  }

  lemma BlocksHaveDistinctPlaces(bs: seq<Block>)
    requires Contiguous(bs, ARENA)
    ensures DistinctPlaces(set b | b in bs)
  {
    forall b, c | b in bs && c in bs && b.at == c.at
      ensures b == c
    {
      var i, j :| 0 <= i < |bs| && 0 <= j < |bs| && bs[i] == b && bs[j] == c;
      if i < j {
        BlocksAreOrdered(bs, ARENA, i, j);
      } else if j < i {
        BlocksAreOrdered(bs, ARENA, j, i);
      }
    }
  }

  /** Allocation adds one allocated block and keeps all the others. */
  lemma MallocAllocatesOne(bs: seq<Block>, i: nat, n: nat)
    requires i < |bs| && Fits(bs[i], n)
    ensures AllocatedSet(MallocAt(bs, i, n)) == AllocatedSet(bs) + {MallocAt(bs, i, n)[i]}
    ensures MallocAt(bs, i, n)[i].at == bs[i].at && n <= MallocAt(bs, i, n)[i].size < n + 3
  {
    var r := MallocAt(bs, i, n);
    var shift := if Splits(bs[i], n) then 1 else 0;
    assert r[i] in r && !r[i].free && bs[i].free;
    forall b | b in AllocatedSet(bs)
      ensures b in r
    {
      var k :| 0 <= k < |bs| && bs[k] == b;
      assert r[if k < i then k else k + shift] == b;
    }
    forall b | b in AllocatedSet(r) && b != r[i]
      ensures b in bs
    {
      var k :| 0 <= k < |r| && r[k] == b;
      assert b == bs[if k < i then k else k - shift];
    }
  }

  /** Release removes one allocated block and keeps all the others. */
  lemma FreeReleasesOne(bs: seq<Block>, i: nat)
    requires Contiguous(bs, ARENA) && i < |bs| && !bs[i].free
    ensures AllocatedSet(FreeAt(bs, i)) == AllocatedSet(bs) - {bs[i]}
  {
    var left := if i > 0 && bs[i - 1].free then i - 1 else i;
    var right := if i + 1 < |bs| && bs[i + 1].free then i + 1 else i;
    forall b: Block | !b.free
      ensures b in FreeAt(bs, i) <==> b in bs && b != bs[i]
    {
      FreeKeepsOthers(bs, i, b);
      if b in bs {
        var k :| 0 <= k < |bs| && bs[k] == b;
        assert k < left ==> bs[..left][k] == b;
        assert k > right ==> bs[right + 1..][k - right - 1] == b;
      }
      if b in bs[..left] || b in bs[right + 1..] {
        OtherBlocksDiffer(bs, i, left, right, b);
      }
    }
  }

  lemma FreeKeepsOthers(bs: seq<Block>, i: nat, b: Block)
    requires i < |bs| && !b.free
    ensures var left := if i > 0 && bs[i - 1].free then i - 1 else i;
            var right := if i + 1 < |bs| && bs[i + 1].free then i + 1 else i;
            b in FreeAt(bs, i) <==> b in bs[..left] || b in bs[right + 1..]
  {
  }

  lemma OtherBlocksDiffer(bs: seq<Block>, i: nat, left: nat, right: nat, b: Block)
    requires Contiguous(bs, ARENA) && left <= i <= right < |bs|
    requires b in bs[..left] || b in bs[right + 1..]
    ensures b in bs && b != bs[i]
  {
    if b in bs[..left] {
      var k :| 0 <= k < left && bs[k] == b;
      BlocksAreOrdered(bs, ARENA, k, i);
    } else {
      var k :| right < k < |bs| && bs[k] == b;
      BlocksAreOrdered(bs, ARENA, i, k);
    }
  }

  lemma InitialSatisfiesInv(base: word, s: State)
    requires Initial(base, s)
    ensures Inv(base, s)
  {
    assert AllocatedSet(InitialBlocks()) == {};
    assert Matches(base, s.live, AllocatedSet(InitialBlocks()));
  }

  lemma GrantMatches(base: word, live: map<word, nat>, blocks: set<Block>, b: Block, p: word, size: nat)
    requires Matches(base, live, blocks) && p == PointerTo(base, b) && Snug(size, b.size)
    requires forall c :: c in blocks ==> c.at != b.at
    ensures Matches(base, live[p := size], blocks + {b})
  {
  }

  lemma ReleaseMatches(base: word, live: map<word, nat>, blocks: set<Block>, b: Block, p: word)
    requires Matches(base, live, blocks) && b in blocks && p == PointerTo(base, b)
    requires DistinctPlaces(blocks)
    ensures Matches(base, live - {p}, blocks - {b})
  {
  }

  /** The block list of a state, with everything the client side needs to know about it. */
  lemma BlockList(base: word, s: State) returns (bs: seq<Block>)
    requires Inv(base, s)
    ensures Represents(s.m, base, bs) && Matches(base, s.live, AllocatedSet(bs)) && DistinctPlaces(set b | b in bs)
  {
    bs :| Represents(s.m, base, bs) && Matches(base, s.live, AllocatedSet(bs));
    BlocksHaveDistinctPlaces(bs);
  }

  lemma MallocWitness(base: word, m: seq<word>, bs: seq<Block>, size: word, m': seq<word>, p: word) returns (i: nat)
    requires ArenaPlaced(base) && Represents(m, base, bs) && MallocSpec(m, base, true, size, m', p) && p != 0
    ensures IsFirstFit(bs, Granules(size), i) && MallocTakes(m, base, bs, Granules(size), m', p, i)
  {
    var cs: seq<Block> :| Represents(m, base, cs) && MallocOutcome(m, base, cs, Granules(size), m', p);
    RepresentationIsUnique(m, base, bs, cs);
    i :| IsFirstFit(bs, Granules(size), i) && MallocTakes(m, base, bs, Granules(size), m', p, i);
  }

  lemma MallocRefusalChangesNothing(base: word, m: seq<word>, size: word, m': seq<word>)
    requires ArenaPlaced(base) && MallocSpec(m, base, true, size, m', 0)
    ensures m' == m
  {
    if Representable(size) && WellFormed(m, base) {
      var bs: seq<Block> :| Represents(m, base, bs) && MallocOutcome(m, base, bs, Granules(size), m', 0);
    }
  }

  lemma FreeWitness(base: word, m: seq<word>, bs: seq<Block>, p: word, m': seq<word>, ok: bool) returns (i: nat)
    requires ArenaPlaced(base) && Represents(m, base, bs) && FreeSpec(m, base, true, p, m', ok)
    ensures ok <==> exists j: nat :: IsLive(base, bs, j, p)
    ensures ok ==> IsLive(base, bs, i, p) && FreeReleases(m, base, bs, m', i)
    ensures !ok ==> m' == m
  {
    var cs: seq<Block> :| Represents(m, base, cs) && FreeOutcome(m, base, cs, p, m', ok);
    RepresentationIsUnique(m, base, bs, cs);
    i := 0;
    if ok {
      i :| IsLive(base, bs, i, p) && FreeReleases(m, base, bs, m', i);
    }
  }

  lemma MallocMatches(base: word, live: map<word, nat>, bs: seq<Block>, i: nat, n: nat, p: word, size: nat)
    requires Matches(base, live, AllocatedSet(bs)) && DistinctPlaces(set b | b in bs)
    requires i < |bs| && Fits(bs[i], n) && p == PointerTo(base, bs[i]) && size <= 16 * n < size + 16
    ensures Matches(base, live[p := size], AllocatedSet(MallocAt(bs, i, n)))
  {
    MallocAllocatesOne(bs, i, n);
    assert bs[i] in bs && bs[i].free;
    GrantMatches(base, live, AllocatedSet(bs), MallocAt(bs, i, n)[i], p, size);
  }

  lemma FreeMatches(base: word, live: map<word, nat>, bs: seq<Block>, i: nat, p: word)
    requires Matches(base, live, AllocatedSet(bs)) && DistinctPlaces(set b | b in bs)
    requires Contiguous(bs, ARENA) && IsLive(base, bs, i, p)
    ensures Matches(base, live - {p}, AllocatedSet(FreeAt(bs, i)))
  {
    FreeReleasesOne(bs, i);
    assert bs[i] in AllocatedSet(bs);
    ReleaseMatches(base, live, AllocatedSet(bs), bs[i], p);
  }

  lemma MallocKeepsInv(base: word, s: State, size: word, m': seq<word>, p: word)
    requires ArenaPlaced(base) && Inv(base, s) && MallocSpec(s.m, base, true, size, m', p)
    ensures Inv(base, State(m', Granted(s.live, p, size)))
  {
    if p != 0 {
      var bs := BlockList(base, s);
      var i := MallocWitness(base, s.m, bs, size, m', p);
      MallocMatches(base, s.live, bs, i, Granules(size), p, size);
    }
  }

  lemma FreeKeepsInv(base: word, s: State, p: word, m': seq<word>, ok: bool)
    requires ArenaPlaced(base) && Inv(base, s) && FreeSpec(s.m, base, true, p, m', ok)
    ensures Inv(base, State(m', if ok then s.live - {p} else s.live))
    ensures ok <==> p in s.live
  {
    var bs := BlockList(base, s);
    var i := FreeWitness(base, s.m, bs, p, m', ok);
    LiveIffAllocated(base, s.live, bs, p);
    if ok {
      FreeMatches(base, s.live, bs, i, p);
    }
  }

  lemma LiveIffAllocated(base: word, live: map<word, nat>, bs: seq<Block>, p: word)
    requires Matches(base, live, AllocatedSet(bs))
    ensures p in live <==> exists i: nat :: IsLive(base, bs, i, p)
  {
    if p in live {
      var b :| b in AllocatedSet(bs) && p == PointerTo(base, b);
      var i :| 0 <= i < |bs| && bs[i] == b;
      assert IsLive(base, bs, i, p);
    }
    if i: nat :| IsLive(base, bs, i, p) {
      assert bs[i] in AllocatedSet(bs);
    }
  }

  /** Zero filling touches only words of the payload it fills. */
  lemma FillKeepsRepresentation(base: word, bs: seq<Block>, i: nat, m: seq<word>, m': seq<word>, total: nat)
    requires Represents(m, base, bs) && i < |bs| && total <= 16 * bs[i].size
    requires ZeroFilled(m, m', 16 * (bs[i].at + HEADER), total)
    ensures Represents(m', base, bs)
  {
    forall k | 0 <= k < |bs|
      ensures HeaderMatches(m', base, bs, k)
    {
      assert HeaderMatches(m, base, bs, k);
      if k != i {
        HeadersDoNotOverlap(bs, k, i);
      }
      assert forall w :: InHeader(bs[k].at, w) ==> !InPayload(bs[i], w);
      FillLeavesHeader(m, m', bs[k].at, bs[i], total);
      UntouchedHeaderMatches(m, m', base, bs, k, bs, k);
    }
  }

  lemma FillLeavesHeader(m: seq<word>, m': seq<word>, at: nat, b: Block, total: nat)
    requires ZeroFilled(m, m', 16 * (b.at + HEADER), total) && total <= 16 * b.size
    requires forall w :: InHeader(at, w) ==> !InPayload(b, w)
    ensures HeaderUntouched(m, m', at)
  {
    forall w | 0 <= w < |m| && InHeader(at, w)
      ensures m[w] == m'[w]
    {
      assert !InPayload(b, w);
      FillLeavesWord(m, m', 16 * (b.at + HEADER), total, w);
    }
  }

  lemma FillLeavesWord(m: seq<word>, m': seq<word>, start: nat, total: nat, w: nat)
    requires ZeroFilled(m, m', start, total) && w < |m|
    requires 4 * w + 4 <= start || start + total <= 4 * w
    ensures m[w] == m'[w]
  {
    assert ByteAt(m, 4 * w) == ByteAt(m', 4 * w) && ByteAt(m, 4 * w + 1) == ByteAt(m', 4 * w + 1);
    assert ByteAt(m, 4 * w + 2) == ByteAt(m', 4 * w + 2) && ByteAt(m, 4 * w + 3) == ByteAt(m', 4 * w + 3);
    BytesDetermineWord(m[w], m'[w]);
  }

  lemma ZeroedKeepsInv(base: word, s: State, total: word, m': seq<word>, p: word)
    requires ArenaPlaced(base) && Inv(base, s) && ZeroedSpec(s.m, base, true, total, m', p)
    ensures Inv(base, State(m', Granted(s.live, p, total)))
  {
    var m1 :| MallocSpec(s.m, base, true, total, m1, p) && CallocFills(base, total, m1, m', p);
    MallocKeepsInv(base, s, total, m1, p);
    if p != 0 {
      var cs, i := AllocatedBlockOf(s.m, base, true, total, m1, p);
      var bs: seq<Block> :| Represents(m1, base, bs) && Matches(base, Granted(s.live, p, total), AllocatedSet(bs));
      RepresentationIsUnique(m1, base, bs, cs);
      FillKeepsRepresentation(base, bs, i, m1, m', total);
    }
  }

  /** A client store into a live allocation keeps the arena well formed. */
  lemma StoreKeepsInv(base: word, s: State, p: word, offset: nat, v: byte, s': State)
    requires ArenaPlaced(base) && Inv(base, s) && StoreStep(base, s, p, offset, v, s')
    ensures Inv(base, s')
  {
    var bs := BlockList(base, s);
    StoreKeepsRepresentation(base, s.m, s.live, bs, p, offset, v);
  }

  lemma StoreKeepsRepresentation(base: word, m: seq<word>, live: map<word, nat>, bs: seq<Block>, p: word, offset: nat,
                                 v: byte)
    requires Represents(m, base, bs) && Matches(base, live, AllocatedSet(bs)) && p in live && offset < live[p]
    requires base <= p && (p - base + offset) / 4 < |m|
    ensures Represents(StoreByte(m, p - base + offset, v), base, bs)
  {
    var i := PayloadOf(base, live, bs, p, offset);
    var w := (p - base + offset) / 4;
    PayloadWriteIsHarmless(m, base, bs, i, w, StoreByte(m, p - base + offset, v)[w]);
  }

  /** An address inside a live allocation is inside the payload of its block. */
  lemma PayloadOf(base: word, live: map<word, nat>, bs: seq<Block>, p: word, offset: nat) returns (i: nat)
    requires Matches(base, live, AllocatedSet(bs)) && p in live && offset < live[p]
    ensures IsLive(base, bs, i, p) && InPayload(bs[i], (p - base + offset) / 4)
  {
    i := BlockBehind(base, live, bs, p);
  }

  lemma ZeroedStepKeepsInv(base: word, s: State, total: word, s': State)
    requires ArenaPlaced(base) && Inv(base, s) && ZeroedStep(base, s, total, s')
    ensures Inv(base, s')
  {
    var p :| ZeroedSpec(s.m, base, true, total, s'.m, p) && s'.live == Granted(s.live, p, total);
    ZeroedKeepsInv(base, s, total, s'.m, p);
  }

  lemma StepKeepsInv(base: word, s: State, op: Op, s': State)
    requires ArenaPlaced(base) && Inv(base, s) && Step(base, s, op, s')
    ensures Inv(base, s')
  {
    match op
    case Malloc(size) =>
      var p :| MallocSpec(s.m, base, true, size, s'.m, p) && s'.live == Granted(s.live, p, size);
      MallocKeepsInv(base, s, size, s'.m, p);
    case Calloc(count, size) =>
      if ProductRepresentable(count, size) {
        ZeroedStepKeepsInv(base, s, count * size, s');
      }
    case Free(p) =>
      var ok :| FreeSpec(s.m, base, true, p, s'.m, ok) && s'.live == if ok then s.live - {p} else s.live;
      FreeKeepsInv(base, s, p, s'.m, ok);
    case Store(p, offset, v) =>
      StoreKeepsInv(base, s, p, offset, v, s');
  }

  // ----- what holds in every state of every run -----

  /** Live allocations are aligned, inside the arena, disjoint from one another, and away from
      every block header. */
  ghost predicate Safe(base: word, s: State) {
    && WellFormed(s.m, base)
    && (forall p :: p in s.live ==> Placed(base, p, s.live[p]))
    && (forall p, q :: p in s.live && q in s.live && p != q ==> Apart(p, s.live[p], q, s.live[q]))
    && (forall p, bs :: p in s.live && Represents(s.m, base, bs) ==> AwayFromHeaders(base, bs, p, s.live[p]))
    && (forall p, bs: seq<Block>, i: nat :: p in s.live && Represents(s.m, base, bs) && IsLive(base, bs, i, p)
                                ==> Snug(s.live[p], bs[i].size))
  }

  predicate Placed(base: word, p: word, size: nat) {
    p % 16 == 0 && base + 32 <= p && p + size <= base + ARENA_BYTES
  }

  predicate Apart(p: word, size: nat, q: word, size': nat) {
    p + size <= q || q + size' <= p
  }

  ghost predicate AwayFromHeaders(base: word, bs: seq<Block>, p: word, size: nat) {
    forall w :: IsHeaderWord(bs, w) ==> base + 4 * w + 4 <= p || p + size <= base + 4 * w
  }

  /** The block behind a live allocation. */
  lemma BlockBehind(base: word, live: map<word, nat>, bs: seq<Block>, p: word) returns (i: nat)
    requires Matches(base, live, AllocatedSet(bs)) && p in live
    ensures IsLive(base, bs, i, p) && Snug(live[p], bs[i].size)
  {
    LiveIffAllocated(base, live, bs, p);
    i :| IsLive(base, bs, i, p);
    assert bs[i] in AllocatedSet(bs);
  }

  lemma LiveIsPlaced(base: word, live: map<word, nat>, bs: seq<Block>, p: word)
    requires ArenaPlaced(base) && Contiguous(bs, ARENA) && Matches(base, live, AllocatedSet(bs)) && p in live
    ensures Placed(base, p, live[p])
  {
    var i := BlockBehind(base, live, bs, p);
    BlocksEndInside(bs, ARENA, i);
  }

  lemma LiveAreApart(base: word, live: map<word, nat>, bs: seq<Block>, p: word, q: word)
    requires Contiguous(bs, ARENA) && Matches(base, live, AllocatedSet(bs))
    requires p in live && q in live && p != q
    ensures Apart(p, live[p], q, live[q])
  {
    var i := BlockBehind(base, live, bs, p);
    var j := BlockBehind(base, live, bs, q);
    if j < i {
      BlocksAreOrdered(bs, ARENA, j, i);
    } else {
      BlocksAreOrdered(bs, ARENA, i, j);
    }
  }

  lemma LiveIsSnug(base: word, live: map<word, nat>, bs: seq<Block>, i: nat, p: word)
    requires Matches(base, live, AllocatedSet(bs)) && p in live && IsLive(base, bs, i, p)
    ensures Snug(live[p], bs[i].size)
  {
    assert bs[i] in AllocatedSet(bs);
  }

  lemma LiveIsAwayFromHeaders(base: word, live: map<word, nat>, bs: seq<Block>, p: word)
    requires Contiguous(bs, ARENA) && Matches(base, live, AllocatedSet(bs)) && p in live
    ensures AwayFromHeaders(base, bs, p, live[p])
  {
    var i := BlockBehind(base, live, bs, p);
    forall w | IsHeaderWord(bs, w)
      ensures base + 4 * w + 4 <= p || p + live[p] <= base + 4 * w
    {
      var k :| 0 <= k < |bs| && InHeader(bs[k].at, w);
      if k < i {
        BlocksAreOrdered(bs, ARENA, k, i);
      } else if i < k {
        BlocksAreOrdered(bs, ARENA, i, k);
      }
    }
  }

  lemma InvIsSafe(base: word, s: State)
    requires ArenaPlaced(base) && Inv(base, s)
    ensures Safe(base, s)
  {
    var bs := BlockList(base, s);
    forall p | p in s.live ensures Placed(base, p, s.live[p]) {
      LiveIsPlaced(base, s.live, bs, p);
    }
    forall p, q | p in s.live && q in s.live && p != q ensures Apart(p, s.live[p], q, s.live[q]) {
      LiveAreApart(base, s.live, bs, p, q);
    }
    forall p, cs | p in s.live && Represents(s.m, base, cs) ensures AwayFromHeaders(base, cs, p, s.live[p]) {
      RepresentationIsUnique(s.m, base, bs, cs);
      LiveIsAwayFromHeaders(base, s.live, bs, p);
    }
    forall p, cs: seq<Block>, i: nat | p in s.live && Represents(s.m, base, cs) && IsLive(base, cs, i, p)
      ensures Snug(s.live[p], cs[i].size)
    {
      RepresentationIsUnique(s.m, base, bs, cs);
      LiveIsSnug(base, s.live, bs, i, p);
    }
  }

  lemma {:induction false} RunKeepsInv(base: word, states: seq<State>, ops: seq<Op>, k: nat)
    requires ArenaPlaced(base) && IsRun(base, states, ops) && k < |states|
    ensures Inv(base, states[k])
  {
    if k == 0 {
      InitialSatisfiesInv(base, states[0]);
    } else {
      RunKeepsInv(base, states, ops, k - 1);
      StepKeepsInv(base, states[k - 1], ops[k - 1], states[k]);
    }
  }

  /** Every state of every run is safe, and when the client holds nothing the heap is again the
      single initial free block. */
  lemma EveryRunIsSafe(base: word, states: seq<State>, ops: seq<Op>, k: nat)
    requires ArenaPlaced(base) && IsRun(base, states, ops) && k < |states|
    ensures Safe(base, states[k])
    ensures states[k].live == map[] ==> Represents(states[k].m, base, InitialBlocks())
  {
    RunKeepsInv(base, states, ops, k);
    InvIsSafe(base, states[k]);
    var bs := BlockList(base, states[k]);
    if states[k].live == map[] {
      assert forall i :: 0 <= i < |bs| ==> bs[i] in bs && bs[i].free;
      NothingAllocatedIsInitial(bs);
    }
  }

  // ----- no operation disturbs an allocation it was not given -----

  lemma AllocatedWordIsNoHeader(bs: seq<Block>, b: Block, w: nat)
    requires Contiguous(bs, ARENA) && b in bs && InPayload(b, w)
    ensures w < ARENA_WORDS && !IsHeaderWord(bs, w)
  {
    var i :| 0 <= i < |bs| && bs[i] == b;
    PayloadsAreDisjoint(bs, i, w);
  }

  lemma HeaderChangeKeepsPayload(m: seq<word>, m': seq<word>, bs: seq<Block>, bs': seq<Block>, b: Block, w: nat)
    requires OnlyHeadersChange(m, m', bs, bs') && Contiguous(bs, ARENA) && Contiguous(bs', ARENA)
    requires b in bs && b in bs' && InPayload(b, w)
    ensures w < ARENA_WORDS && m[w] == m'[w]
  {
    AllocatedWordIsNoHeader(bs, b, w);
    AllocatedWordIsNoHeader(bs', b, w);
  }

  /** Byte offset o of allocation p reads the same in both arenas. */
  predicate SameContent(base: word, m: seq<word>, m': seq<word>, p: word, o: nat) {
    && base <= p && (p - base + o) / 4 < |m| == |m'|
    && ByteAt(m, p - base + o) == ByteAt(m', p - base + o)
  }

  lemma SameWordSameContent(base: word, m: seq<word>, m': seq<word>, p: word, o: nat)
    requires base <= p && (p - base + o) / 4 < |m| == |m'| && m[(p - base + o) / 4] == m'[(p - base + o) / 4]
    ensures SameContent(base, m, m', p, o)
  {
  }

  lemma SameContentComposes(base: word, m: seq<word>, m1: seq<word>, m2: seq<word>, p: word, o: nat)
    requires SameContent(base, m, m1, p, o) && SameContent(base, m1, m2, p, o)
    ensures SameContent(base, m, m2, p, o)
  {
  }

  lemma FillKeepsContent(base: word, m: seq<word>, m': seq<word>, q: word, total: nat, p: word, size: nat, o: nat)
    requires base <= q && ZeroFilled(m, m', q - base, total)
    requires Placed(base, p, size) && Apart(p, size, q, total) && o < size
    ensures SameContent(base, m, m', p, o)
  {
  }

  lemma StoreKeepsContent(base: word, s: State, q: word, offset: nat, v: byte, s': State, p: word, o: nat)
    requires StoreStep(base, s, q, offset, v, s') && base <= p && (p - base + o) / 4 < |s.m|
    requires q - base + offset != p - base + o
    ensures SameContent(base, s.m, s'.m, p, o)
  {
    ByteAtStoreByte(s.m, q - base + offset, v, p - base + o);
  }

  lemma MallocKeepsPayload(m: seq<word>, m': seq<word>, bs: seq<Block>, i: nat, n: nat, b: Block, w: nat)
    requires Contiguous(bs, ARENA) && i < |bs| && Fits(bs[i], n) && Contiguous(MallocAt(bs, i, n), ARENA)
    requires OnlyHeadersChange(m, m', bs, MallocAt(bs, i, n))
    requires b in AllocatedSet(bs) && InPayload(b, w)
    ensures w < |m| == |m'| && m[w] == m'[w] && b.at != bs[i].at
  {
    MallocAllocatesOne(bs, i, n);
    BlocksHaveDistinctPlaces(bs);
    assert bs[i] in bs;
    HeaderChangeKeepsPayload(m, m', bs, MallocAt(bs, i, n), b, w);
  }

  lemma FreeKeepsPayload(m: seq<word>, m': seq<word>, bs: seq<Block>, i: nat, b: Block, w: nat)
    requires Contiguous(bs, ARENA) && i < |bs| && !bs[i].free && Contiguous(FreeAt(bs, i), ARENA)
    requires OnlyHeadersChange(m, m', bs, FreeAt(bs, i))
    requires b in AllocatedSet(bs) && b != bs[i] && InPayload(b, w)
    ensures w < |m| == |m'| && m[w] == m'[w]
  {
    FreeReleasesOne(bs, i);
    HeaderChangeKeepsPayload(m, m', bs, FreeAt(bs, i), b, w);
  }

  /** The block behind a live byte, and the word that byte is in. */
  lemma LiveByte(base: word, s: State, bs: seq<Block>, p: word, o: nat) returns (b: Block)
    requires Represents(s.m, base, bs) && Matches(base, s.live, AllocatedSet(bs)) && p in s.live && o < s.live[p]
    ensures b in AllocatedSet(bs) && p == PointerTo(base, b) && InPayload(b, (p - base + o) / 4)
    ensures base <= p && (p - base + o) / 4 < |s.m|
  {
    var k := PayloadOf(base, s.live, bs, p, o);
    b := bs[k];
    PayloadsAreDisjoint(bs, k, (p - base + o) / 4);
  }

  lemma MallocKeepsWord(base: word, m: seq<word>, bs: seq<Block>, size: word, m': seq<word>, q: word, b: Block, w: nat)
    requires ArenaPlaced(base) && Represents(m, base, bs) && MallocSpec(m, base, true, size, m', q)
    requires b in AllocatedSet(bs) && InPayload(b, w)
    ensures q != PointerTo(base, b) && |m'| == |m| && (w < |m| ==> m[w] == m'[w])
  {
    if q != 0 {
      var i := MallocWitness(base, m, bs, size, m', q);
      MallocKeepsPayload(m, m', bs, i, Granules(size), b, w);
    } else {
      MallocRefusalChangesNothing(base, m, size, m');
    }
  }

  lemma FreeKeepsWord(base: word, m: seq<word>, bs: seq<Block>, q: word, m': seq<word>, ok: bool, b: Block, w: nat)
    requires ArenaPlaced(base) && Represents(m, base, bs) && FreeSpec(m, base, true, q, m', ok)
    requires b in AllocatedSet(bs) && InPayload(b, w) && q != PointerTo(base, b)
    ensures |m'| == |m| && (w < |m| ==> m[w] == m'[w])
  {
    var i := FreeWitness(base, m, bs, q, m', ok);
    if ok {
      FreeKeepsPayload(m, m', bs, i, b, w);
    }
  }

  lemma MallocKeepsContent(base: word, s: State, size: word, m': seq<word>, q: word, p: word, o: nat)
    requires ArenaPlaced(base) && Inv(base, s) && MallocSpec(s.m, base, true, size, m', q)
    requires p in s.live && o < s.live[p]
    ensures q != p && SameContent(base, s.m, m', p, o)
  {
    var bs := BlockList(base, s);
    var b := LiveByte(base, s, bs, p, o);
    MallocKeepsWord(base, s.m, bs, size, m', q, b, (p - base + o) / 4);
    SameWordSameContent(base, s.m, m', p, o);
  }

  lemma FreeKeepsContent(base: word, s: State, q: word, m': seq<word>, ok: bool, p: word, o: nat)
    requires ArenaPlaced(base) && Inv(base, s) && FreeSpec(s.m, base, true, q, m', ok)
    requires p in s.live && o < s.live[p] && p != q
    ensures SameContent(base, s.m, m', p, o)
  {
    var bs := BlockList(base, s);
    var b := LiveByte(base, s, bs, p, o);
    FreeKeepsWord(base, s.m, bs, q, m', ok, b, (p - base + o) / 4);
    SameWordSameContent(base, s.m, m', p, o);
  }

  lemma LivePair(base: word, s: State, p: word, q: word)
    requires ArenaPlaced(base) && Inv(base, s) && p in s.live && q in s.live && p != q
    ensures Placed(base, p, s.live[p]) && Placed(base, q, s.live[q]) && Apart(p, s.live[p], q, s.live[q])
  {
    var bs := BlockList(base, s);
    LiveIsPlaced(base, s.live, bs, p);
    LiveIsPlaced(base, s.live, bs, q);
    LiveAreApart(base, s.live, bs, p, q);
  }

  lemma ZeroedKeepsContent(base: word, s: State, total: word, m': seq<word>, q: word, p: word, o: nat)
    requires ArenaPlaced(base) && Inv(base, s) && ZeroedSpec(s.m, base, true, total, m', q)
    requires p in s.live && o < s.live[p]
    ensures q != p && SameContent(base, s.m, m', p, o)
  {
    var m1 :| MallocSpec(s.m, base, true, total, m1, q) && CallocFills(base, total, m1, m', q);
    MallocKeepsContent(base, s, total, m1, q, p, o);
    if q != 0 {
      MallocKeepsInv(base, s, total, m1, q);
      LivePair(base, State(m1, s.live[q := total]), p, q);
      FillKeepsContent(base, m1, m', q, total, p, s.live[p], o);
      SameContentComposes(base, s.m, m1, m', p, o);
    }
  }

  lemma SameContentIsReflexive(base: word, s: State, p: word, o: nat)
    requires ArenaPlaced(base) && Inv(base, s) && p in s.live && o < s.live[p]
    ensures p != 0 && SameContent(base, s.m, s.m, p, o)
  {
    var bs := BlockList(base, s);
    var b := LiveByte(base, s, bs, p, o);
    SameWordSameContent(base, s.m, s.m, p, o);
  }

  lemma MallocStepKeepsContent(base: word, s: State, size: word, s': State, p: word, o: nat)
    requires ArenaPlaced(base) && Inv(base, s) && MallocStep(base, s, size, s')
    requires p in s.live && o < s.live[p]
    ensures p in s'.live && s'.live[p] == s.live[p] && SameContent(base, s.m, s'.m, p, o)
  {
    var q :| MallocSpec(s.m, base, true, size, s'.m, q) && s'.live == Granted(s.live, q, size);
    MallocKeepsContent(base, s, size, s'.m, q, p, o);
  }

  lemma ZeroedStepKeepsContent(base: word, s: State, total: word, s': State, p: word, o: nat)
    requires ArenaPlaced(base) && Inv(base, s) && ZeroedStep(base, s, total, s')
    requires p in s.live && o < s.live[p]
    ensures p in s'.live && s'.live[p] == s.live[p] && SameContent(base, s.m, s'.m, p, o)
  {
    var q :| ZeroedSpec(s.m, base, true, total, s'.m, q) && s'.live == Granted(s.live, q, total);
    ZeroedKeepsContent(base, s, total, s'.m, q, p, o);
  }

  lemma FreeStepKeepsContent(base: word, s: State, q: word, s': State, p: word, o: nat)
    requires ArenaPlaced(base) && Inv(base, s) && FreeStep(base, s, q, s')
    requires p in s.live && p in s'.live && o < s.live[p]
    ensures s'.live[p] == s.live[p] && SameContent(base, s.m, s'.m, p, o)
  {
    var ok :| FreeSpec(s.m, base, true, q, s'.m, ok) && s'.live == if ok then s.live - {q} else s.live;
    FreeKeepsInv(base, s, q, s'.m, ok);
    FreeKeepsContent(base, s, q, s'.m, ok, p, o);
  }

  lemma CallocStepKeepsContent(base: word, s: State, count: word, size: word, s': State, p: word, o: nat)
    requires ArenaPlaced(base) && Inv(base, s) && CallocStep(base, s, count, size, s')
    requires p in s.live && o < s.live[p]
    ensures p in s'.live && s'.live[p] == s.live[p] && SameContent(base, s.m, s'.m, p, o)
  {
    if s' == s {
      SameContentIsReflexive(base, s, p, o);
    } else {
      var total := CallocStepIsZeroed(base, s, count, size, s');
      ZeroedStepKeepsContent(base, s, total, s', p, o);
    }
  }

  lemma CallocStepIsZeroed(base: word, s: State, count: word, size: word, s': State) returns (total: word)
    requires CallocStep(base, s, count, size, s') && s' != s
    ensures ZeroedStep(base, s, total, s')
  {
    total := count * size;
  }

  lemma StoreStepKeepsContent(base: word, s: State, q: word, offset: nat, v: byte, s': State, p: word, o: nat)
    requires ArenaPlaced(base) && Inv(base, s) && StoreStep(base, s, q, offset, v, s')
    requires p in s.live && o < s.live[p] && q + offset != p + o
    ensures s'.live == s.live && SameContent(base, s.m, s'.m, p, o)
  {
    SameContentIsReflexive(base, s, p, o);
    StoreKeepsContent(base, s, q, offset, v, s', p, o);
  }

  predicate StoresTo(op: Op, p: word, o: nat) {
    op.Store? && op.pointer + op.offset == p + o
  }

  /** One step changes no byte of an allocation that stays live, except the byte the client
      itself stores. */
  lemma StepKeepsContent(base: word, s: State, op: Op, s': State, p: word, o: nat)
    requires ArenaPlaced(base) && Inv(base, s) && Step(base, s, op, s')
    requires p in s.live && p in s'.live && o < s.live[p] && !StoresTo(op, p, o)
    ensures s'.live[p] == s.live[p] && SameContent(base, s.m, s'.m, p, o)
  {
    match op
    case Malloc(size) => MallocStepKeepsContent(base, s, size, s', p, o);
    case Calloc(count, size) => CallocStepKeepsContent(base, s, count, size, s', p, o);
    case Free(q) => FreeStepKeepsContent(base, s, q, s', p, o);
    case Store(q, offset, v) => StoreStepKeepsContent(base, s, q, offset, v, s', p, o);
  }

  /** Over a whole run an allocation keeps its contents, byte by byte, from any point to any
      later point, as long as the client neither frees it nor stores to that byte. */
  lemma {:induction false} RunKeepsContent(base: word, states: seq<State>, ops: seq<Op>, i: nat, j: nat, p: word,
                                           o: nat)
    requires ArenaPlaced(base) && IsRun(base, states, ops) && i <= j < |states|
    requires forall k :: i <= k <= j ==> p in states[k].live
    requires o < states[i].live[p]
    requires forall k :: i <= k < j ==> !StoresTo(ops[k], p, o)
    ensures states[j].live[p] == states[i].live[p]
    ensures SameContent(base, states[i].m, states[j].m, p, o)
    decreases j - i
  {
    if i == j {
      RunKeepsInv(base, states, ops, i);
      SameContentIsReflexive(base, states[i], p, o);
    } else {
      RunKeepsContent(base, states, ops, i, j - 1, p, o);
      RunKeepsInv(base, states, ops, j - 1);
      StepKeepsContent(base, states[j - 1], ops[j - 1], states[j], p, o);
      SameContentComposes(base, states[i].m, states[j - 1].m, states[j].m, p, o);
    }
  }

  // ----- exactness of first fit -----

  /** Free block b has room for so many bytes. */
  predicate HasRoom(b: Block, size: nat) {
    b.free && size <= 16 * b.size
  }

  /** kmalloc fails exactly on an empty request, one that rounding would wrap, and one that no
      free block has room for; a failure changes nothing. */
  lemma AllocationFailsExactly(base: word, m: seq<word>, bs: seq<Block>, size: word, m': seq<word>, p: word)
    requires ArenaPlaced(base) && Represents(m, base, bs) && MallocSpec(m, base, true, size, m', p)
    ensures p == 0 <==> size == 0 || size > 0xFFFF_FFF0 || forall i :: 0 <= i < |bs| ==> !HasRoom(bs[i], size)
    ensures p == 0 ==> m' == m
  {
    if p == 0 {
      MallocRefusalChangesNothing(base, m, size, m');
    }
    if Representable(size) {
      var n := Granules(size);
      var cs: seq<Block> :| Represents(m, base, cs) && MallocOutcome(m, base, cs, n, m', p);
      RepresentationIsUnique(m, base, bs, cs);
      if n > LargestFree(bs) {
        LargestFreeIsAttained(bs);
      } else {
        var i: nat :| IsFirstFit(bs, n, i) && MallocTakes(m, base, bs, n, m', p, i);
        assert HasRoom(bs[i], size);
      }
    }
  }

  /** A successful kmalloc takes the lowest block with room.  It cuts that block down to the
      request when the rest can hold a header and a granule, and keeps it whole otherwise, so it
      wastes less than 48 bytes; the free granules left are those before less the block taken and
      the header of the rest; one more block is allocated and every other stays. */
  lemma AllocationIsExact(base: word, m: seq<word>, bs: seq<Block>, size: word, m': seq<word>, p: word,
                          cs: seq<Block>, i: nat)
    requires ArenaPlaced(base) && Represents(m, base, bs) && MallocSpec(m, base, true, size, m', p) && p != 0
    requires Represents(m', base, cs) && IsLive(base, cs, i, p)
    ensures i < |bs| && bs[i].at == cs[i].at && HasRoom(bs[i], size)
    ensures forall j :: 0 <= j < i ==> !HasRoom(bs[j], size)
    ensures size <= 16 * cs[i].size < size + 48
    ensures var n, cut := (size + 15) / 16, bs[i].size >= (size + 15) / 16 + 3;
            && |cs| == |bs| + (if cut then 1 else 0)
            && cs[i].size == (if cut then n else bs[i].size)
            && FreeTotal(cs) + cs[i].size + (if cut then 2 else 0) == FreeTotal(bs)
    ensures AllocatedSet(cs) == AllocatedSet(bs) + {cs[i]} && AllocatedCount(cs) == AllocatedCount(bs) + 1
  {
    var n := Granules(size);
    var k := MallocWitness(base, m, bs, size, m', p);
    RepresentationIsUnique(m', base, cs, MallocAt(bs, k, n));
    OnlyOneBlockPerPointer(m', base, cs, i, p);
    MallocAllocatesOne(bs, k, n);
    assert IsLive(base, cs, k, p);
    MallocAccounts(bs, i, n);
  }

  /** Fresh kcalloc memory reads zero at every byte asked for; kcalloc refuses an empty product,
      one that does not fit 32 bits, and whatever kmalloc refuses of the product. */
  lemma CallocIsExact(base: word, m: seq<word>, bs: seq<Block>, count: word, size: word, m': seq<word>, p: word)
    requires ArenaPlaced(base) && Represents(m, base, bs) && CallocSpec(m, base, true, count, size, m', p)
    ensures p == 0 <==> count * size == 0 || count * size > 0xFFFF_FFF0
                        || forall i :: 0 <= i < |bs| ==> !HasRoom(bs[i], count * size)
    ensures p == 0 ==> m' == m
    ensures p != 0 ==> Placed(base, p, count * size) && |m'| == ARENA_WORDS
    ensures p != 0 ==> forall o :: p - base <= o < p - base + count * size ==> ByteAt(m', o) == 0
  {
    if ProductRepresentable(count, size) {
      var total: word := count * size;
      var m1 :| MallocSpec(m, base, true, total, m1, p) && CallocFills(base, total, m1, m', p);
      AllocationFailsExactly(base, m, bs, total, m1, p);
      if p != 0 {
        GrantedIsPlaced(base, m, total, m1, p);
      }
    } else {
      ProductIsOutOfRange(count, size);
    }
  }

  lemma ProductIsOutOfRange(count: word, size: word)
    requires !ProductRepresentable(count, size)
    ensures count * size == 0 || count * size > 0xFFFF_FFF0
  {
  }

  lemma GrantedIsPlaced(base: word, m: seq<word>, size: word, m': seq<word>, p: word)
    requires ArenaPlaced(base) && MallocSpec(m, base, true, size, m', p) && p != 0
    ensures Placed(base, p, size)
  {
    var bs, i := AllocatedBlockOf(m, base, true, size, m', p);
    BlocksEndInside(bs, ARENA, i);
  }

  // ----- what the statistics count -----

  lemma {:induction false} CountIsCardinality(bs: seq<Block>)
    requires forall i, j :: 0 <= i < j < |bs| ==> bs[i].at != bs[j].at
    ensures AllocatedCount(bs) == |AllocatedSet(bs)|
  {
    if bs == [] {
      assert AllocatedSet(bs) == {};
    } else {
      var rest, last := bs[..|bs| - 1], bs[|bs| - 1];
      CountIsCardinality(rest);
      AllocatedSetGrows(rest, last);
      assert bs == rest + [last];
      assert last !in AllocatedSet(rest);
    }
  }

  lemma AllocatedSetGrows(bs: seq<Block>, b: Block)
    ensures AllocatedSet(bs + [b]) == AllocatedSet(bs) + if b.free then {} else {b}
  {
    assert forall c :: c in bs + [b] <==> c in bs || c == b;
  }

  /** The statistics describe the blocks: every byte of the arena is free, allocated or header;
      the largest free size is attained and exceeded by none; the count is the number of
      allocated blocks. */
  lemma StatsDescribeBlocks(bs: seq<Block>)
    requires Contiguous(bs, ARENA)
    ensures var s := StatsOf(bs);
            && s.totalBytes == 0x40000 - 32
            && s.freeBytes + 16 * AllocatedTotal(bs) + 32 * |bs| == 0x40000
            && (forall i :: 0 <= i < |bs| && bs[i].free ==> 16 * bs[i].size <= s.largestFreeBlock)
            && (s.largestFreeBlock > 0
                ==> exists i :: 0 <= i < |bs| && bs[i].free && 16 * bs[i].size == s.largestFreeBlock)
            && s.allocatedBlocks == |AllocatedSet(bs)|
  {
    forall i, j | 0 <= i < j < |bs| ensures bs[i].at != bs[j].at {
      BlocksAreOrdered(bs, ARENA, i, j);
    }
    CountIsCardinality(bs);
    LargestFreeIsAttained(bs);
    FreeAndAllocatedMakeThePayload(bs);
    PayloadAndHeadersFillTheArena(bs, ARENA);
  }

  lemma {:induction false} PointersAreAsManyAsBlocks(base: word, pointers: set<word>, blocks: set<Block>)
    requires DistinctPlaces(blocks)
    requires forall b :: b in blocks ==> PointerTo(base, b) in pointers
    requires forall p :: p in pointers ==> exists b :: b in blocks && p == PointerTo(base, b)
    ensures |pointers| == |blocks|
    decreases |blocks|
  {
    if blocks == {} {
      assert pointers == {};
    } else {
      var b :| b in blocks;
      PointersAreAsManyAsBlocks(base, pointers - {PointerTo(base, b)}, blocks - {b});
    }
  }

  /** In every state of every run the statistics count as many allocated blocks as the client
      holds allocations, and the bytes they call free are those no allocation and no header has. */
  lemma EveryRunIsCounted(base: word, states: seq<State>, ops: seq<Op>, k: nat, bs: seq<Block>)
    requires ArenaPlaced(base) && IsRun(base, states, ops) && k < |states| && Represents(states[k].m, base, bs)
    ensures StatsOf(bs).allocatedBlocks == |states[k].live|
    ensures StatsOf(bs).freeBytes + 16 * AllocatedTotal(bs) + 32 * |bs| == 0x40000
  {
    RunKeepsInv(base, states, ops, k);
    InvIsCounted(base, states[k], bs);
    StatsDescribeBlocks(bs);
  }

  lemma InvIsCounted(base: word, s: State, bs: seq<Block>)
    requires ArenaPlaced(base) && Inv(base, s) && Represents(s.m, base, bs)
    ensures |s.live| == |AllocatedSet(bs)|
  {
    var cs := BlockList(base, s);
    RepresentationIsUnique(s.m, base, bs, cs);
    MatchingIsCounted(base, s.live, cs);
  }

  lemma MatchingIsCounted(base: word, live: map<word, nat>, bs: seq<Block>)
    requires Matches(base, live, AllocatedSet(bs)) && DistinctPlaces(set b | b in bs)
    ensures |live| == |AllocatedSet(bs)|
  {
    PointersAreAsManyAsBlocks(base, live.Keys, AllocatedSet(bs));
    assert |live| == |live.Keys|;
  }

  /** In any reachable state a representable request fails exactly when its rounded size is
      larger than the largest free block; otherwise it takes the lowest block that fits, and
      freeing it at once restores the block list. */
  lemma FirstFitIsExact(base: word, s: State, bs: seq<Block>, size: word, m': seq<word>, p: word, m'': seq<word>,
                        ok: bool)
    requires ArenaPlaced(base) && Represents(s.m, base, bs) && Representable(size)
    requires MallocSpec(s.m, base, true, size, m', p)
    requires FreeSpec(m', base, true, p, m'', ok)
    ensures p == 0 <==> Granules(size) > LargestFree(bs)
    ensures p != 0 ==> exists i: nat :: IsFirstFit(bs, Granules(size), i) && p == PointerTo(base, bs[i])
    ensures p != 0 ==> ok && Represents(m'', base, bs)
  {
    var n := Granules(size);
    var cs: seq<Block> :| Represents(s.m, base, cs) && MallocOutcome(s.m, base, cs, n, m', p);
    RepresentationIsUnique(s.m, base, bs, cs);
    if p != 0 {
      var i := MallocWitness(base, s.m, bs, size, m', p);
      FreeAfterMalloc(base, s.m, bs, i, n, m', p, m'', ok);
    }
  }

  lemma FreeAfterMalloc(base: word, m: seq<word>, bs: seq<Block>, i: nat, n: nat, m': seq<word>, p: word,
                        m'': seq<word>, ok: bool)
    requires ArenaPlaced(base) && Represents(m, base, bs) && IsFirstFit(bs, n, i) && n >= 1
    requires MallocTakes(m, base, bs, n, m', p, i) && FreeSpec(m', base, true, p, m'', ok)
    ensures ok && Represents(m'', base, bs)
  {
    var r := MallocAt(bs, i, n);
    MallocAllocatesOne(bs, i, n);
    assert IsLive(base, r, i, p);
    var j := FreeWitness(base, m', r, p, m'', ok);
    OnlyOneBlockPerPointer(m', base, r, i, p);
    FreeUndoesMalloc(bs, i, n);
  }
}
