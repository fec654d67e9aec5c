/** kernel/mm/pmm.c: the physical page allocator over two bitmaps. */
module Pmm {
  import opened Words
  import opened Bits

  const PAGE_COUNT: nat := 0x10_0000
  const BITMAP_WORDS: nat := 32768
  const PHYSICAL_LIMIT: int := 0x1_0000_0000

  // ----- bitmaps -----

  function WordOf(page: nat): nat { page / 32 }
  function BitOf(page: nat): nat { page % 32 }

  /** One of the two page bitmaps. */
  class Bitmap {
    const words: array<word>
    ghost var members: set<nat>

    ghost predicate Valid() reads this, words {
      && words.Length == BITMAP_WORDS
      && (forall p :: p in members ==> p < PAGE_COUNT)
      && (forall p: nat {:trigger WordOf(p)} :: p < PAGE_COUNT ==> (p in members <==> Bit(words[WordOf(p)], BitOf(p))))
    }

    constructor ()
      ensures Valid() && members == {} && fresh(words)
    {
      words := new word[BITMAP_WORDS](_ => 0);
      members := {};
      new;
      forall p: nat | p < PAGE_COUNT ensures !Bit(words[WordOf(p)], BitOf(p)) {
        ZeroHasNoBits(BitOf(p));
      }
    }

    method Clear()
      requires words.Length == BITMAP_WORDS
      modifies this, words
      ensures Valid() && members == {}
    {
      var w := 0;
      while w < BITMAP_WORDS
        invariant 0 <= w <= BITMAP_WORDS
        invariant forall k :: 0 <= k < w ==> words[k] == 0
      {
        words[w] := 0;
        w := w + 1;
      }
      members := {};
      forall p: nat | p < PAGE_COUNT ensures !Bit(words[WordOf(p)], BitOf(p)) {
        ZeroHasNoBits(BitOf(p));
      }
    }

    method Test(page: nat) returns (b: bool)
      requires Valid() && page < PAGE_COUNT
      ensures b <==> page in members
    {
      b := Bit(words[page / 32], page % 32);
      assert page / 32 == WordOf(page) && page % 32 == BitOf(page);
    }

    method Put(page: nat, value: bool)
      requires Valid() && page < PAGE_COUNT
      modifies this, words
      ensures Valid()
      ensures members == if value then old(members) + {page} else old(members) - {page}
    {
      var w, k := page / 32, page % 32;
      assert w == WordOf(page) && k == BitOf(page);
      ghost var before := words[w];
      WordWidthKept(before, k);
      if value {
        words[w] := SetBit(words[w], k);
        members := members + {page};
      } else {
        words[w] := ClearBit(words[w], k);
        members := members - {page};
      }
      forall p: nat | p < PAGE_COUNT ensures p in members <==> Bit(words[WordOf(p)], BitOf(p)) {
        if WordOf(p) == w {
          BitOfSetBit(before, k, BitOf(p));
          BitOfClearBit(before, k, BitOf(p));
          assert p == page <==> BitOf(p) == k;
        }
      }
    }
  }

  // ----- regions and pages -----

  /** A byte range handed to the allocator during boot. */
  datatype Region = Region(base: int, length: int) {
    function End(): int { base + length }
  }

  predicate PageWithin(base: int, end: int, p: nat) {
    base <= 4096 * p && 4096 * p + 4096 <= end
  }

  predicate PageMeets(base: int, end: int, p: nat) {
    base < end && base < 4096 * p + 4096 && 4096 * p < end
  }

  /** Page 0 always, and every page some reserved byte lies in. */
  ghost predicate Reserved(reserved: set<Region>, p: nat) {
    p == 0 || exists r :: r in reserved && PageMeets(r.base, r.End(), p)
  }

  /** Wholly inside one single usable region, and not reserved. */
  ghost predicate Usable(added: set<Region>, reserved: set<Region>, p: nat) {
    (exists r :: r in added && PageWithin(r.base, r.End(), p)) && !Reserved(reserved, p)
  }

  method ClipToPhysical(base: quad, length: quad) returns (ok: bool, low: quad, high: quad)
    ensures ok <==> length == 0 || base + length < QUAD_LIMIT
    ensures ok ==> high <= PHYSICAL_LIMIT && (low < high || high == low == 0)
    ensures ok ==>
            forall p: nat :: p < PAGE_COUNT ==> (PageWithin(base, base + length, p) <==> PageWithin(low, high, p))
    ensures ok ==> forall p: nat :: p < PAGE_COUNT ==> (PageMeets(base, base + length, p) <==> PageMeets(low, high, p))
  {
    ok, low, high := true, 0, 0;
    if length == 0 {
      return;
    }
    if base > QUAD_LIMIT - 1 - length {
      return false, 0, 0;
    }
    var end := base + length;
    if base >= PHYSICAL_LIMIT {
      return;
    }
    if end > PHYSICAL_LIMIT {
      end := PHYSICAL_LIMIT;
    }
    low, high := base, end;
  }

  /** The pages wholly inside a range, page 0 excluded. */
  method InwardPageSpan(base: quad, end: quad) returns (first: nat, last: nat)
    requires end <= PHYSICAL_LIMIT && base <= end
    ensures first <= last <= PAGE_COUNT && (first == 0 ==> last == 0)
    ensures forall p: nat :: first <= p < last <==> p != 0 && PageWithin(base, end, p)
  {
    var alignedStart := (base + 4095) / 4096 * 4096;
    var alignedEnd := end / 4096 * 4096;
    first, last := 0, 0;
    if alignedStart >= alignedEnd {
      return;
    }
    var startPage, endPage := alignedStart / 4096, alignedEnd / 4096;
    if startPage == 0 {
      startPage := 1;
    }
    if startPage >= endPage {
      return;
    }
    first, last := startPage, endPage;
  }

  /** The pages a range has a byte in. */
  method OutwardPageSpan(base: quad, end: quad) returns (first: nat, last: nat)
    requires end <= PHYSICAL_LIMIT
    ensures first <= last <= PAGE_COUNT
    ensures forall p: nat :: first <= p < last <==> PageMeets(base, end, p)
  {
    var alignedStart := base / 4096 * 4096;
    var alignedEnd := end;
    first, last := 0, 0;
    if base >= end {
      return;
    }
    if alignedEnd % 4096 != 0 {
      alignedEnd := (alignedEnd + 4095) / 4096 * 4096;
    }
    var startPage := alignedStart / 4096;
    var endPage;
    if alignedEnd >= PHYSICAL_LIMIT {
      endPage := PAGE_COUNT;
    } else {
      endPage := alignedEnd / 4096;
    }
    if startPage >= endPage {
      return;
    }
    first, last := startPage, endPage;
  }

  /** Clip, then round inwards. */
  method UsableSpan(base: quad, length: quad) returns (ok: bool, first: nat, last: nat)
    ensures ok <==> length == 0 || base + length < QUAD_LIMIT
    ensures ok ==>
            first <= last <= PAGE_COUNT && (first == 0 ==> last == 0) && SpanWithin(base, base + length, first, last)
  {
    first, last := 0, 0;
    var low, high;
    ok, low, high := ClipToPhysical(base, length);
    if ok {
      first, last := InwardPageSpan(low, high);
      ghost var end := base + length;
      forall p: nat | p < PAGE_COUNT ensures first <= p < last <==> p != 0 && PageWithin(base, end, p) {
        assert PageWithin(base, end, p) <==> PageWithin(low, high, p);
      }
    }
  }

  /** Clip, then round outwards. */
  method ReservedSpan(base: quad, length: quad) returns (ok: bool, first: nat, last: nat)
    ensures ok <==> length == 0 || base + length < QUAD_LIMIT
    ensures ok ==> first <= last <= PAGE_COUNT && SpanMeets(base, base + length, first, last)
  {
    first, last := 0, 0;
    var low, high;
    ok, low, high := ClipToPhysical(base, length);
    if ok {
      first, last := OutwardPageSpan(low, high);
      ghost var end := base + length;
      forall p: nat | p < PAGE_COUNT ensures first <= p < last <==> PageMeets(base, end, p) {
        assert PageMeets(base, end, p) <==> PageMeets(low, high, p);
      }
    }
  }

  ghost predicate SpanWithin(base: int, end: int, first: nat, last: nat) {
    forall p: nat :: p < PAGE_COUNT ==> (first <= p < last <==> p != 0 && PageWithin(base, end, p))
  }

  ghost predicate SpanMeets(base: int, end: int, first: nat, last: nat) {
    forall p: nat :: p < PAGE_COUNT ==> (first <= p < last <==> PageMeets(base, end, p))
  }

  // ----- the allocator -----

  class PageAllocator {
    const managed: Bitmap
    const marked: Bitmap        // allocated_pages
    var totalPages: nat
    var freePages: nat
    var frozen: bool
    ghost var added: set<Region>
    ghost var reserved: set<Region>

    ghost predicate Shaped() reads this, managed, managed.words, marked, marked.words {
      managed != marked && managed.words != marked.words && managed.Valid() && marked.Valid()
    }

    /** Counters are the populations of the bitmaps; the managed pages are exactly the usable
        ones, an unmanaged page is marked exactly when reserved, and before the freeze nothing
        is allocated. */
    ghost predicate Valid() reads this, managed, managed.words, marked, marked.words {
      && Shaped()
      && totalPages == |managed.members|
      && freePages == |managed.members - marked.members|
      && Classified(managed.members, marked.members, added, reserved)
      && (!frozen ==> managed.members !! marked.members)
    }

    ghost predicate IsFree(p: nat) reads this, managed, marked {
      p in managed.members && p !in marked.members
    }

    /** Pages handed out and not yet returned. */
    ghost function Outstanding(): set<nat> reads this, managed, marked {
      managed.members * marked.members
    }

    constructor ()
      ensures Valid() && !frozen && added == {} && reserved == {} && fresh(managed) && fresh(marked)
      ensures fresh(managed.words) && fresh(marked.words)
      ensures Outstanding() == {}
    {
      managed := new Bitmap();
      marked := new Bitmap();
      totalPages, freePages, frozen := 0, 0, false;
      added, reserved := {}, {};
      new;
      marked.Put(0, true);
    }

    ghost predicate Counted() reads this, managed, managed.words, marked, marked.words {
      Shaped() && totalPages == |managed.members| && freePages == |managed.members - marked.members|
    }

    /** A free page becomes reserved. */
    method RetirePage(page: nat)
      requires Counted() && page < PAGE_COUNT && IsFree(page)
      modifies this`totalPages, this`freePages, managed, managed.words, marked, marked.words
      ensures Counted() && managed.members == old(managed.members) - {page}
      ensures marked.members == old(marked.members) + {page}
    {
      RetiringSets(managed.members, marked.members, page);
      managed.Put(page, false);
      marked.Put(page, true);
      totalPages := totalPages - 1;
      freePages := freePages - 1;
    }

    /** An unknown page becomes free. */
    method ManagePage(page: nat)
      requires Counted() && page < PAGE_COUNT && page !in managed.members && page !in marked.members
      modifies this`totalPages, this`freePages, managed, managed.words, marked, marked.words
      ensures Counted() && managed.members == old(managed.members) + {page} && marked.members == old(marked.members)
    {
      UsingSets(managed.members, marked.members, page);
      managed.Put(page, true);
      marked.Put(page, false);
      totalPages := totalPages + 1;
      freePages := freePages + 1;
    }

    method MarkPageReserved(page: nat)
      requires Counted() && page < PAGE_COUNT
      modifies this`totalPages, this`freePages, managed, managed.words, marked, marked.words
      ensures Counted()
      ensures managed.members == if old(IsFree(page)) then old(managed.members) - {page} else old(managed.members)
      ensures marked.members == old(marked.members) + {page}
    {
      var isManaged := managed.Test(page);
      var isMarked := marked.Test(page);
      if !isManaged && isMarked {
        return;
      }
      if isManaged {
        if isMarked {
          return;
        }
        RetirePage(page);
        return;
      }
      assert managed.members - (marked.members + {page}) == managed.members - marked.members;
      marked.Put(page, true);
    }

    method MarkPageUsable(page: nat)
      requires Counted() && page < PAGE_COUNT
      modifies this`totalPages, this`freePages, managed, managed.words, marked, marked.words
      ensures Counted()
      ensures managed.members == if page != 0 && page !in old(marked.members) then old(managed.members) + {page}
              else old(managed.members)
      ensures marked.members == old(marked.members)
    {
      var isManaged := managed.Test(page);
      var isMarked := marked.Test(page);
      if page == 0 || (!isManaged && isMarked) || isManaged {
        return;
      }
      ManagePage(page);
    }

    method Reset()
      requires Shaped()
      modifies this, managed, managed.words, marked, marked.words
      ensures Valid() && !frozen && added == {} && reserved == {} && Outstanding() == {}
    {
      ClearMaps();
      frozen, added, reserved := false, {}, {};
      MarkPageReserved(0);
      NothingClassified();
    }

    method ClearMaps()
      requires Shaped()
      modifies this`totalPages, this`freePages, managed, managed.words, marked, marked.words
      ensures Counted() && managed.members == {} && marked.members == {}
    {
      managed.Clear();
      marked.Clear();
      totalPages, freePages := 0, 0;
    }

    /** Accepted exactly before the freeze and without overflow; then the region joins the usable
        ones, in whatever order the calls come. */
    method AddUsableRegion(base: quad, length: quad) returns (ok: bool)
      requires Valid()
      modifies this, managed, managed.words, marked, marked.words
      ensures Valid() && frozen == old(frozen) && reserved == old(reserved)
      ensures ok <==> !frozen && (length == 0 || base + length < QUAD_LIMIT)
      ensures added == if ok then old(added) + {Region(base, length)} else old(added)
      ensures !ok ==> unchanged(this, managed, managed.words, marked, marked.words)
    {
      if frozen {
        return false;
      }
      var clipped, first, last := UsableSpan(base, length);
      if !clipped {
        return false;
      }
      AdmitSpan(first, last, Region(base, length));
      return true;
    }

    method AdmitSpan(first: nat, last: nat, ghost r: Region)
      requires Valid() && !frozen && first <= last <= PAGE_COUNT && (first == 0 ==> last == 0)
      requires SpanWithin(r.base, r.End(), first, last)
      modifies this`totalPages, this`freePages, this`added, managed, managed.words, marked, marked.words
      ensures Valid() && added == old(added) + {r}
    {
      ghost var m := managed.members;
      UseSpan(first, last);
      AddClassifies(m, managed.members, marked.members, added, reserved, r, first, last);
      added := added + {r};
    }

    /** The loop of pmm_add_usable_region. */
    method UseSpan(first: nat, last: nat)
      requires Counted() && first <= last <= PAGE_COUNT && (first == 0 ==> last == 0)
      modifies this`totalPages, this`freePages, managed, managed.words, marked, marked.words
      ensures Counted() && marked.members == old(marked.members)
      ensures Grown(old(managed.members), managed.members, marked.members, first, last)
    {
      var page := first;
      while page < last
        invariant first <= page <= last && Counted()
        invariant marked.members == old(marked.members)
        invariant Grown(old(managed.members), managed.members, marked.members, first, page)
      {
        MarkPageUsable(page);
        page := page + 1;
      }
    }

    /** The loop of pmm_reserve_region. */
    method ReserveSpan(first: nat, last: nat)
      requires Counted() && first <= last <= PAGE_COUNT && managed.members !! marked.members
      modifies this`totalPages, this`freePages, managed, managed.words, marked, marked.words
      ensures Counted()
      ensures Shrunk(old(managed.members), managed.members, first, last)
      ensures Widened(old(marked.members), marked.members, first, last)
    {
      var page := first;
      while page < last
        invariant first <= page <= last && Counted()
        invariant Shrunk(old(managed.members), managed.members, first, page)
        invariant Widened(old(marked.members), marked.members, first, page)
      {
        MarkPageReserved(page);
        page := page + 1;
      }
    }

    method ReserveRegion(base: quad, length: quad) returns (ok: bool)
      requires Valid()
      modifies this, managed, managed.words, marked, marked.words
      ensures Valid() && frozen == old(frozen) && added == old(added)
      ensures ok <==> !frozen && (length == 0 || base + length < QUAD_LIMIT)
      ensures reserved == if ok then old(reserved) + {Region(base, length)} else old(reserved)
      ensures !ok ==> unchanged(this, managed, managed.words, marked, marked.words)
    {
      if frozen {
        return false;
      }
      var clipped, first, last := ReservedSpan(base, length);
      if !clipped {
        return false;
      }
      WithdrawSpan(first, last, Region(base, length));
      return true;
    }

    method WithdrawSpan(first: nat, last: nat, ghost r: Region)
      requires Valid() && !frozen && first <= last <= PAGE_COUNT && SpanMeets(r.base, r.End(), first, last)
      modifies this`totalPages, this`freePages, this`reserved, managed, managed.words, marked, marked.words
      ensures Valid() && reserved == old(reserved) + {r}
    {
      ghost var m, k := managed.members, marked.members;
      ReserveSpan(first, last);
      ReserveClassifies(m, managed.members, k, marked.members, added, reserved, r, first, last);
      reserved := reserved + {r};
    }

    /** Freezes ownership, then hands out the lowest free page; 0 exactly when none is free. */
    method AllocPage() returns (address: nat)
      requires Valid()
      modifies this, managed, managed.words, marked, marked.words
      ensures Valid() && frozen && added == old(added) && reserved == old(reserved)
      ensures totalPages == old(totalPages) && managed.members == old(managed.members)
      ensures address == 0 <==> old(freePages) == 0
      ensures address == 0 ==> freePages == 0 && marked.members == old(marked.members)
      ensures address != 0 ==> LowestFree(old(managed.members), old(marked.members), address)
      ensures address != 0 ==>
              && address % 4096 == 0 && old(IsFree(address / 4096))
              && forall q: nat :: q < address / 4096 ==> !old(IsFree(q))
      ensures address != 0 ==>
              freePages == old(freePages) - 1 && marked.members == old(marked.members) + {address / 4096}
    {
      frozen := true;
      if freePages == 0 {
        return 0;
      }
      address := TakeLowest();
    }

    method TakeLowest() returns (address: nat)
      requires Valid() && frozen && freePages != 0
      modifies this`freePages, marked, marked.words
      ensures Valid() && LowestFree(managed.members, old(marked.members), address)
      ensures freePages == old(freePages) - 1 && marked.members == old(marked.members) + {address / 4096}
    {
      ZeroIsNeverManaged();
      var page := FindFree();
      TakePage(page);
      return page * 4096;
    }

    /** The word scan of pmm_alloc_page. */
    method FindFree() returns (page: nat)
      requires Counted() && 0 !in managed.members
      ensures page == 0 <==> freePages == 0
      ensures page != 0 ==> LowestFree(managed.members, marked.members, page * 4096)
    {
      var word := 0;
      while word < BITMAP_WORDS
        invariant 0 <= word <= BITMAP_WORDS
        invariant forall q: nat :: q < 32 * word ==> !IsFree(q)
      {
        var mask := AndNot(managed.words[word], marked.words[word]);
        if mask != 0 {
          var bit := LowestBit(mask);
          LowestInWord(word);
          SomeFree(word * 32 + bit);
          return word * 32 + bit;
        }
        NoneInWord(word);
        word := word + 1;
      }
      NoneFree();
      return 0;
    }

    lemma SomeFree(page: nat)
      requires Counted() && IsFree(page)
      ensures freePages > 0
    {
      assert page in managed.members - marked.members;
    }

    lemma NoneFree()
      requires Counted() && forall q: nat :: q < PAGE_COUNT ==> !IsFree(q)
      ensures freePages == 0
    {
      assert forall q :: q in managed.members - marked.members ==> IsFree(q);
      assert managed.members - marked.members == {};
    }

    lemma NoneInWord(word: nat)
      requires Shaped() && word < BITMAP_WORDS && AndNot(managed.words[word], marked.words[word]) == 0
      ensures forall q: nat :: 32 * word <= q < 32 * word + 32 ==> !IsFree(q)
    {
      forall q: nat | 32 * word <= q < 32 * word + 32 ensures !IsFree(q) {
        BitOfAndNot(managed.words[word], marked.words[word], BitOf(q));
        ZeroHasNoBits(BitOf(q));
        assert WordOf(q) == word;
      }
    }

    lemma LowestInWord(word: nat)
      requires Shaped() && word < BITMAP_WORDS && AndNot(managed.words[word], marked.words[word]) != 0
      requires 0 !in managed.members
      requires forall q: nat :: q < 32 * word ==> !IsFree(q)
      ensures LowestFree(managed.members, marked.members,
              (word * 32 + LowestBit(AndNot(managed.words[word], marked.words[word]))) * 4096)
    {
      var a, b := managed.words[word], marked.words[word];
      var bit := LowestBit(AndNot(a, b));
      LowestOfMask(a, b);
      var page := word * 32 + bit;
      assert WordOf(page) == word && BitOf(page) == bit;
      forall q: nat | q < page ensures !IsFree(q) {
        if 32 * word <= q {
          assert WordOf(q) == word && BitOf(q) < bit;
        }
      }
      assert forall q: nat :: q < page && q in managed.members ==> (q in marked.members || IsFree(q));
      assert page * 4096 / 4096 == page;
    }

    method TakePage(page: nat)
      requires Valid() && frozen && page < PAGE_COUNT && IsFree(page)
      modifies this`freePages, marked, marked.words
      ensures Valid() && freePages == old(freePages) - 1 && marked.members == old(marked.members) + {page}
    {
      RetiringSets(managed.members, marked.members, page);
      assert managed.members - (marked.members + {page}) == (managed.members - marked.members) - {page};
      MarkingKeepsClassified(managed.members, marked.members, marked.members + {page}, added, reserved);
      marked.Put(page, true);
      freePages := freePages - 1;
    }

    /** Accepts exactly the addresses of outstanding pages. */
    method FreePage(address: nat) returns (ok: bool)
      requires Valid() && address < PHYSICAL_LIMIT
      modifies this`freePages, marked, marked.words
      ensures Valid()
      ensures ok <==> address % 4096 == 0 && address / 4096 in old(Outstanding())
      ensures ok ==> freePages == old(freePages) + 1 && marked.members == old(marked.members) - {address / 4096}
      ensures !ok ==> freePages == old(freePages) && marked.members == old(marked.members)
    {
      if address == 0 {
        ZeroIsNeverManaged();
        return false;
      }
      if address % 4096 != 0 {
        return false;
      }
      if address > (PAGE_COUNT - 1) * 4096 {
        return false;
      }
      var page := address / 4096;
      var isManaged := managed.Test(page);
      var isMarked := marked.Test(page);
      if !isManaged || !isMarked {
        return false;
      }
      ReturnPage(page);
      return true;
    }

    method ReturnPage(page: nat)
      requires Valid() && page in Outstanding()
      modifies this`freePages, marked, marked.words
      ensures Valid() && freePages == old(freePages) + 1 && marked.members == old(marked.members) - {page}
    {
      assert managed.members - (marked.members - {page}) == (managed.members - marked.members) + {page};
      MarkingKeepsClassified(managed.members, marked.members, marked.members - {page}, added, reserved);
      marked.Put(page, false);
      freePages := freePages + 1;
    }

    lemma ZeroIsNeverManaged()
      requires Valid()
      ensures 0 !in managed.members
    {
    }

    /** Counters never underflow, and every managed page is either free or outstanding. */
    lemma FreePlusOutstanding()
      requires Valid()
      ensures freePages + |Outstanding()| == totalPages
    {
      assert managed.members == (managed.members - marked.members) + Outstanding();
      assert (managed.members - marked.members) !! Outstanding();
    }

    lemma NothingLeft()
      requires Valid() && Outstanding() == {}
      ensures freePages == totalPages && (freePages == 0 <==> managed.members == {})
    {
      FreePlusOutstanding();
    }

    /** Before the freeze the free pages are exactly the usable ones, so the already-allocated
        branch of MarkPageReserved cannot be taken. */
    lemma FreeIffUsable(p: nat)
      requires Valid() && !frozen && p < PAGE_COUNT
      ensures IsFree(p) <==> Usable(added, reserved, p)
      ensures !(p in managed.members && p in marked.members)
    {
    }
  }

  /** Whatever the order of the calls, equal regions give equal bitmaps and equal counters. */
  lemma OrderDoesNotMatter(a: PageAllocator, b: PageAllocator)
    requires a.Valid() && b.Valid() && a.added == b.added && a.reserved == b.reserved
    ensures a.managed.members == b.managed.members && a.totalPages == b.totalPages
    ensures !a.frozen && !b.frozen ==> a.marked.members == b.marked.members && a.freePages == b.freePages
  {
    assert forall p: nat :: p in a.managed.members <==> p in b.managed.members;
    if !a.frozen && !b.frozen {
      assert forall p: nat :: p in a.marked.members <==> p in b.marked.members;
    }
  }

  lemma LowestOfMask(a: word, b: word)
    requires AndNot(a, b) != 0
    ensures var bit := LowestBit(AndNot(a, b)); bit < 32 && Bit(a, bit) && !Bit(b, bit)
    ensures forall j: nat :: j < LowestBit(AndNot(a, b)) && Bit(a, j) ==> Bit(b, j)
  {
    var mask := AndNot(a, b);
    AndNotWithin(a, b);
    Pow2Of32();
    SomeBitSet(mask, 32);
    LowestBitIsLowest(mask);
    BitOfAndNot(a, b, LowestBit(mask));
    forall j: nat | j < LowestBit(mask) ensures !Bit(a, j) || Bit(b, j) {
      BitOfAndNot(a, b, j);
    }
  }

  ghost predicate LowestFree(managed: set<nat>, marked: set<nat>, address: nat) {
    && address % 4096 == 0 && 0 < address / 4096 < PAGE_COUNT
    && address / 4096 in managed && address / 4096 !in marked
    && forall q: nat :: q < address / 4096 && q in managed ==> q in marked
  }

  lemma MarkingKeepsClassified(m: set<nat>, k: set<nat>, k': set<nat>, added: set<Region>, reserved: set<Region>)
    requires Classified(m, k, added, reserved) && forall p: nat :: p !in m ==> (p in k <==> p in k')
    ensures Classified(m, k', added, reserved)
  {
  }

  // ----- set arithmetic -----

  lemma RetiringSets(m: set<nat>, k: set<nat>, page: nat)
    requires page in m && page !in k
    ensures (m - {page}) - (k + {page}) == (m - k) - {page}
    ensures |m - {page}| == |m| - 1 && |(m - k) - {page}| == |m - k| - 1
  {
  }

  lemma UsingSets(m: set<nat>, k: set<nat>, page: nat)
    requires page !in m && page !in k
    ensures k - {page} == k && (m + {page}) - k == (m - k) + {page}
    ensures |m + {page}| == |m| + 1 && |(m - k) + {page}| == |m - k| + 1
  {
  }

  /** The managed pages are exactly the usable ones; an unmanaged page is marked exactly when it
      is reserved. */
  ghost predicate Classified(managed: set<nat>, marked: set<nat>, added: set<Region>, reserved: set<Region>) {
    && (forall p: nat :: p in managed <==> p < PAGE_COUNT && Usable(added, reserved, p))
    && (forall p: nat :: p < PAGE_COUNT && p !in managed ==> (p in marked <==> Reserved(reserved, p)))
  }

  lemma NothingClassified()
    ensures Classified({}, {0}, {}, {})
  {
  }

  ghost predicate Grown(m: set<nat>, m': set<nat>, k: set<nat>, first: nat, last: nat) {
    forall p: nat :: p in m' <==> p in m || (first <= p < last && p !in k)
  }

  ghost predicate Shrunk(m: set<nat>, m': set<nat>, first: nat, last: nat) {
    forall p: nat :: p in m' <==> p in m && !(first <= p < last)
  }

  ghost predicate Widened(k: set<nat>, k': set<nat>, first: nat, last: nat) {
    forall p: nat :: p in k' <==> p in k || first <= p < last
  }

  lemma AddClassifies(m: set<nat>, m': set<nat>, k: set<nat>, added: set<Region>, reserved: set<Region>, r: Region,
                      first: nat, last: nat)
    requires Classified(m, k, added, reserved) && m !! k && last <= PAGE_COUNT
    requires SpanWithin(r.base, r.End(), first, last) && Grown(m, m', k, first, last)
    ensures Classified(m', k, added + {r}, reserved) && m' !! k
  {
    forall p: nat | p < PAGE_COUNT
      ensures p in m' <==> Usable(added + {r}, reserved, p)
    {
      UsableAfterAdd(added, reserved, r, p);
    }
  }

  lemma UsableAfterAdd(added: set<Region>, reserved: set<Region>, r: Region, p: nat)
    ensures Usable(added + {r}, reserved, p) <==>
            Usable(added, reserved, p) || (PageWithin(r.base, r.End(), p) && !Reserved(reserved, p))
  {
    if PageWithin(r.base, r.End(), p) {
      assert r in added + {r};
    }
    if Usable(added, reserved, p) {
      var q :| q in added && PageWithin(q.base, q.End(), p);
      assert q in added + {r};
    }
  }

  lemma ReservedAfterReserve(reserved: set<Region>, r: Region, p: nat)
    ensures Reserved(reserved + {r}, p) <==> Reserved(reserved, p) || PageMeets(r.base, r.End(), p)
  {
    if PageMeets(r.base, r.End(), p) {
      assert r in reserved + {r};
    }
    if p != 0 && Reserved(reserved, p) {
      var q :| q in reserved && PageMeets(q.base, q.End(), p);
      assert q in reserved + {r};
    }
  }

  lemma ReserveClassifies(m: set<nat>, m': set<nat>, k: set<nat>, k': set<nat>, added: set<Region>,
                          reserved: set<Region>,
                          r: Region, first: nat, last: nat)
    requires Classified(m, k, added, reserved) && m !! k && last <= PAGE_COUNT
    requires SpanMeets(r.base, r.End(), first, last) && Shrunk(m, m', first, last) && Widened(k, k', first, last)
    ensures Classified(m', k', added, reserved + {r}) && m' !! k'
  {
    forall p: nat | p < PAGE_COUNT
      ensures p in m' <==> Usable(added, reserved + {r}, p)
      ensures p !in m' ==> (p in k' <==> Reserved(reserved + {r}, p))
    {
      ReservedAfterReserve(reserved, r, p);
    }
  }
}
