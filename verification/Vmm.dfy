/** kernel/mm/vmm.c: the two-level page table of the kernel address space. */
module Vmm {
  import opened Words
  import opened Counting

  const ENTRIES: nat := 1024
  const TABLES: nat := 64
  const IDENTITY_TABLES: nat := 32
  const NONE: nat := 0xFFFF
  const PAGES: int := 0x10_0000          // pages in the 32-bit address space
  const DYNAMIC_START: int := 0x4000_0000
  const DYNAMIC_END: int := 0xF000_0000

  // ----- entries -----

  /** A 4 KiB page: frame number and rights. */
  datatype Mapping = Mapping(frame: nat, writable: bool, user: bool)

  function Flag(b: bool, weight: int): int {
    if b then weight else 0
  }

  function Encode(m: Mapping): int {
    4096 * m.frame + 1 + Flag(m.writable, 2) + Flag(m.user, 4)
  }

  predicate Present(e: word) { e % 2 == 1 }
  predicate WritableBit(e: word) { (e / 2) % 2 == 1 }
  predicate UserBit(e: word) { (e / 4) % 2 == 1 }

  function FrameAddress(e: word): word {
    e - e % 4096
  }

  function SetUserBit(e: word): int {
    if UserBit(e) then e else e + 4
  }

  lemma Halve(x: int, q: int, r: int)
    requires x == 2 * q + r && 0 <= r < 2
    ensures x / 2 == q && x % 2 == r
  {
  }

  lemma QuarterIsHalfOfHalf(x: int)
    ensures x / 4 == (x / 2) / 2
  {
  }

  lemma LowPart(f: int, c: int)
    requires 0 <= c < 4096
    ensures (4096 * f + c) % 4096 == c
  {
  }

  /** Three flag bits below a page-aligned address can be read back one by one. */
  lemma LowBits(f: int, b0: int, b1: int, b2: int)
    requires 0 <= b0 < 2 && 0 <= b1 < 2 && 0 <= b2 < 2
    ensures var x := 4096 * f + b0 + 2 * b1 + 4 * b2;
            x % 2 == b0 && (x / 2) % 2 == b1 && (x / 4) % 2 == b2 && x - x % 4096 == 4096 * f
  {
    var x := 4096 * f + b0 + 2 * b1 + 4 * b2;
    Halve(x, 2048 * f + b1 + 2 * b2, b0);
    Halve(2048 * f + b1 + 2 * b2, 1024 * f + b2, b1);
    Halve(1024 * f + b2, 512 * f, b2);
    QuarterIsHalfOfHalf(x);
    LowPart(f, b0 + 2 * b1 + 4 * b2);
  }

  /** The bits of an encoded mapping are the mapping. */
  lemma EncodedBits(m: Mapping)
    requires m.frame < PAGES
    ensures 0 <= Encode(m) < WORD_LIMIT
    ensures Present(Encode(m)) && WritableBit(Encode(m)) == m.writable && UserBit(Encode(m)) == m.user
    ensures FrameAddress(Encode(m)) == 4096 * m.frame
  {
    LowBits(m.frame, 1, Flag(m.writable, 1), Flag(m.user, 1));
  }

  function IdentityMapping(p: nat): Mapping {
    Mapping(p, true, false)
  }

  predicate DynamicAddressIsValid(va: word) {
    DYNAMIC_START <= va < DYNAMIC_END && va % 4096 == 0
  }

  predicate DynamicPage(p: nat) {
    DYNAMIC_START / 4096 <= p < DYNAMIC_END / 4096
  }

  /** The arguments of vmm_map_page. */
  datatype Request = Request(va: word, pa: word, flags: word)

  const VMM_WRITABLE: word := 1
  const VMM_USER: word := 2

  /** The rights that the flags of a request ask for. */
  predicate Asks(flags: word, right: word) {
    flags == right || flags == VMM_WRITABLE + VMM_USER
  }

  /** Hardware flags of a vmm_map_page request. */
  function MakePageFlags(flags: word): word {
    1 + Flag(flags % 2 == 1, 2) + Flag((flags / 2) % 2 == 1, 4)
  }

  function Requested(pa: word, flags: word): Mapping {
    Mapping(pa / 4096, flags % 2 == 1, (flags / 2) % 2 == 1)
  }

  lemma RequestedRights(pa: word, flags: word)
    requires pa % 4096 == 0 && flags < 4
    ensures 4096 * Requested(pa, flags).frame == pa
    ensures Requested(pa, flags).writable == Asks(flags, VMM_WRITABLE)
    ensures Requested(pa, flags).user == Asks(flags, VMM_USER)
  {
  }

  /** An aligned address and request flags make the entry of the mapping asked for. */
  lemma RequestedEntry(pa: word, flags: word)
    requires pa % 4096 == 0
    ensures Requested(pa, flags).frame < PAGES && pa + MakePageFlags(flags) == Encode(Requested(pa, flags))
    ensures UserBit(pa + MakePageFlags(flags)) == Requested(pa, flags).user
  {
    EncodedBits(Requested(pa, flags));
  }

  // ----- regions -----

  /** The 4 MiB region of a page. */
  function Region(p: nat): nat {
    p / ENTRIES
  }

  function PageNumber(d: nat, e: nat): nat {
    ENTRIES * d + e
  }

  /** The regions that hold a mapped page. */
  ghost function Regions(mappings: map<nat, Mapping>): set<nat> {
    set p | p in mappings :: Region(p)
  }

  datatype Translation = Fault | Outside | Page(physical: int, writable: bool, user: bool)

  /** The address space as a map: identity below 128 MiB except page 0, then the mappings. */
  ghost function Translated(mappings: map<nat, Mapping>, va: word): Translation {
    var p := va / 4096;
    if p in mappings then Page(4096 * mappings[p].frame + va % 4096, mappings[p].writable, mappings[p].user)
    else if 1 <= p < ENTRIES * IDENTITY_TABLES then Page(va, true, false)
    else Fault
  }

  lemma SamePage(va: word, a: word)
    requires va % 4096 == 0
    ensures a / 4096 == va / 4096 <==> va <= a < va + 4096
    ensures va <= a < va + 4096 ==> a % 4096 == a - va
  {
  }

  /** Entering a page changes the translation of its 4096 bytes and of no other. */
  lemma TranslatedAfterMap(mappings: map<nat, Mapping>, va: word, m: Mapping, a: word)
    requires va % 4096 == 0
    ensures Translated(mappings[va / 4096 := m], a)
            == if va <= a < va + 4096 then Page(4096 * m.frame + (a - va), m.writable, m.user)
               else Translated(mappings, a)
  {
    SamePage(va, a);
  }

  /** Removing a dynamic page makes its 4096 bytes fault and changes no other. */
  lemma TranslatedAfterUnmap(mappings: map<nat, Mapping>, va: word, a: word)
    requires va % 4096 == 0 && DynamicPage(va / 4096)
    ensures Translated(mappings - {va / 4096}, a)
            == if va <= a < va + 4096 then Fault else Translated(mappings, a)
  {
    SamePage(va, a);
  }

  /** The end of a hardware walk through a present directory entry. */
  function WalkEntries(pde: word, pte: word, offset: nat): Translation {
    if !Present(pte) then Fault
    else Page(FrameAddress(pte) + offset, WritableBit(pde) && WritableBit(pte), UserBit(pde) && UserBit(pte))
  }

  /** A writable directory entry that admits users whenever the page does gives the page
      exactly its own rights. */
  lemma WalkOfEncoded(pde: word, m: Mapping, offset: nat)
    requires m.frame < PAGES && WritableBit(pde) && (m.user ==> UserBit(pde))
    ensures 0 <= Encode(m) < WORD_LIMIT
    ensures WalkEntries(pde, Encode(m), offset) == Page(4096 * m.frame + offset, m.writable, m.user)
  {
    EncodedBits(m);
  }

  class AddressSpace {
    const tableBase: word              // physical address of the table pool
    const directory: array<word>
    const tables: array2<word>
    const indices: array<nat>          // directory_table_indices
    const inUse: array<bool>
    var enabled: bool
    ghost var mappings: map<nat, Mapping>   // the dynamic pages, by page number
    ghost var owner: map<nat, nat>          // dynamic table in use -> its region

    ghost predicate Shaped() {
      && tableBase % 4096 == 0 && tableBase + 4096 * TABLES <= WORD_LIMIT
      && directory.Length == ENTRIES && indices.Length == ENTRIES && inUse.Length == TABLES
      && tables.Length0 == TABLES && tables.Length1 == ENTRIES
      && directory as object != indices as object
    }

    function TableEntry(t: nat, user: bool): int {
      tableBase + 4096 * t + 3 + Flag(user, 4)
    }

    ghost predicate IdentityIntact()
      requires Shaped()
      reads directory, indices, tables, inUse
    {
      && (forall d :: 0 <= d < IDENTITY_TABLES ==> indices[d] == d && directory[d] == TableEntry(d, false) && inUse[d])
      && (forall d, e :: 0 <= d < IDENTITY_TABLES && 0 <= e < ENTRIES ==>
            tables[d, e] == if d == 0 && e == 0 then 0 else Encode(IdentityMapping(PageNumber(d, e))))
    }

    /** Every region has no table and an empty directory entry, or a table of its own. */
    ghost predicate RegionsOwned()
      requires Shaped()
      reads this, directory, indices, inUse
    {
      && (forall d :: IDENTITY_TABLES <= d < ENTRIES ==>
            if indices[d] == NONE then directory[d] == 0
            else indices[d] in owner && owner[indices[d]] == d
                 && (directory[d] == TableEntry(indices[d], false) || directory[d] == TableEntry(indices[d], true)))
      && (forall t :: t in owner ==>
          IDENTITY_TABLES <= t < TABLES && IDENTITY_TABLES <= owner[t] < ENTRIES && indices[owner[t]] == t)
      && (forall t :: IDENTITY_TABLES <= t < TABLES ==> (inUse[t] <==> t in owner))
    }

    /** The entries of the dynamic tables are exactly the mappings. */
    ghost predicate EntriesMatch()
      requires Shaped()
      reads this, directory, indices, tables
    {
      && (forall p :: p in mappings ==>
            DynamicPage(p) && mappings[p].frame < PAGES && indices[Region(p)] != NONE
            && (mappings[p].user ==> directory[Region(p)] == TableEntry(indices[Region(p)], true)))
      && (forall t, e :: t in owner && IDENTITY_TABLES <= t < TABLES && 0 <= e < ENTRIES ==>
            tables[t, e] ==
              if PageNumber(owner[t], e) in mappings then Encode(mappings[PageNumber(owner[t], e)]) else 0)
    }

    ghost predicate Consistent()
      reads this, directory, indices, tables, inUse
    {
      Shaped() && IdentityIntact() && RegionsOwned() && EntriesMatch()
    }

    /** Once paging is on: consistent, and no dynamic table is held for an empty region. */
    ghost predicate Valid()
      reads this, directory, indices, tables, inUse
    {
      Shaped() && (enabled ==> Consistent() && forall t :: t in owner ==> owner[t] in Regions(mappings))
    }

    constructor (tableBase: word)
      requires tableBase % 4096 == 0 && tableBase + 4096 * TABLES <= WORD_LIMIT
      ensures Valid() && !enabled && this.tableBase == tableBase
    {
      this.tableBase := tableBase;
      directory := new word[ENTRIES];
      tables := new word[TABLES, ENTRIES];
      indices := new nat[ENTRIES];
      inUse := new bool[TABLES];
      enabled := false;
      mappings, owner := map[], map[];
    }

    // ----- the simple map, and the walk the hardware makes -----

    /** The address space as a map: identity below 128 MiB except page 0, then the mappings. */
    ghost predicate Mapped(p: nat) reads this {
      1 <= p < ENTRIES * IDENTITY_TABLES || p in mappings
    }

    ghost function Lookup(p: nat): Mapping
      requires Mapped(p)
      reads this
    {
      if p in mappings then mappings[p] else IdentityMapping(p)
    }

    /** Section 4.3 of the Intel SDM volume 3A: directory entry, table entry, page; a page is
        writable (user) when both entries say so (section 4.6). */
    ghost function HardwareWalk(va: word): Translation
      requires Shaped()
      reads directory, tables
    {
      var pde := directory[va / 0x40_0000];
      if !Present(pde) then Fault
      else if !(tableBase <= FrameAddress(pde) < tableBase + 4096 * TABLES) then Outside
      else
        WalkEntries(pde, tables[(FrameAddress(pde) - tableBase) / 4096, (va / 4096) % ENTRIES], va % 4096)
    }

    lemma DirectoryEntryBits(t: nat, user: bool)
      requires Shaped() && 0 <= t < TABLES
      ensures 0 <= TableEntry(t, user) < WORD_LIMIT
      ensures Present(TableEntry(t, user)) && WritableBit(TableEntry(t, user)) && UserBit(TableEntry(t, user)) == user
      ensures FrameAddress(TableEntry(t, user)) == tableBase + 4096 * t
    {
      LowBits(tableBase / 4096 + t, 1, 1, Flag(user, 1));
    }

    lemma PageOfAddress(va: word)
      ensures Region(va / 4096) == va / 0x40_0000
      ensures va / 4096 == PageNumber(va / 0x40_0000, (va / 4096) % ENTRIES)
    {
    }

    /** A present directory entry that holds the address of table t leads into table t. */
    lemma WalkThrough(va: word, t: nat)
      requires Shaped() && t < TABLES
      requires Present(directory[va / 0x40_0000]) && FrameAddress(directory[va / 0x40_0000]) == tableBase + 4096 * t
      ensures HardwareWalk(va) == WalkEntries(directory[va / 0x40_0000], tables[t, (va / 4096) % ENTRIES], va % 4096)
    {
    }

    lemma IdentityWalk(va: word)
      requires Valid() && enabled && va / 0x40_0000 < IDENTITY_TABLES
      ensures HardwareWalk(va) == Translated(mappings, va)
    {
      var p, d := va / 4096, va / 0x40_0000;
      PageOfAddress(va);
      DirectoryEntryBits(d, false);
      WalkThrough(va, d);
      assert p !in mappings;
      if p != 0 {
        WalkOfEncoded(directory[d], IdentityMapping(p), va % 4096);
      }
    }

    lemma DynamicWalk(va: word)
      requires Valid() && enabled && va / 0x40_0000 >= IDENTITY_TABLES
      ensures HardwareWalk(va) == Translated(mappings, va)
    {
      var p, d, e := va / 4096, va / 0x40_0000, (va / 4096) % ENTRIES;
      PageOfAddress(va);
      TableBehind(va);
      if indices[d] != NONE {
        WalkThrough(va, indices[d]);
        TableHolds(d, e);
        if p in mappings {
          WalkOfEncoded(directory[d], mappings[p], va % 4096);
        }
      }
    }

    /** What table and directory entry of an occupied region hold. */
    lemma TableHolds(d: nat, e: nat)
      requires Valid() && enabled && IDENTITY_TABLES <= d < ENTRIES && 0 <= e < ENTRIES && indices[d] != NONE
      ensures IDENTITY_TABLES <= indices[d] < TABLES
      ensures WritableBit(directory[d])
      ensures var p := PageNumber(d, e);
              if p in mappings then
                && mappings[p].frame < PAGES && tables[indices[d], e] == Encode(mappings[p])
                && (mappings[p].user ==> UserBit(directory[d]))
              else tables[indices[d], e] == 0
    {
      var t := indices[d];
      DirectoryEntryBits(t, false);
      DirectoryEntryBits(t, true);
      assert owner[t] == d;
      assert Region(PageNumber(d, e)) == d;
    }

    /** In every valid state the hardware walk and the simple map agree, rights included. */
    lemma WalkAgreesWithMap(va: word)
      requires Valid() && enabled
      ensures HardwareWalk(va) == Translated(mappings, va)
    {
      if va / 0x40_0000 < IDENTITY_TABLES {
        IdentityWalk(va);
      } else {
        DynamicWalk(va);
      }
    }

    /** Whatever is mapped and unmapped, [4 KiB, 128 MiB) stays the identity and page 0 absent. */
    lemma IdentityStays(va: word)
      requires Valid() && enabled && va < 0x800_0000
      ensures HardwareWalk(va) == if va < 4096 then Fault else Page(va, true, false)
    {
      WalkAgreesWithMap(va);
    }

    /** The hardware sees exactly this map. */
    ghost predicate Shows(m: map<nat, Mapping>)
      requires Shaped()
      reads directory, tables
    {
      forall a: word :: HardwareWalk(a) == Translated(m, a)
    }

    lemma HardwareShowsMappings()
      requires Valid() && enabled
      ensures Shows(mappings)
    {
      forall a: word ensures HardwareWalk(a) == Translated(mappings, a) {
        WalkAgreesWithMap(a);
      }
    }

    /** The hardware now translates every byte of the page at va to the same byte of the frame at
        pa, with exactly the rights asked for; every other address keeps its translation. */
    twostate predicate PageAppears(va: word, pa: word, flags: word)
      requires Shaped()
      reads directory, tables
    {
      forall a: word :: HardwareWalk(a)
        == if va <= a < va + 4096 then Page(pa + (a - va), Asks(flags, VMM_WRITABLE), Asks(flags, VMM_USER))
           else old(HardwareWalk(a))
    }

    /** The hardware now faults on every byte of the page at va; every other address keeps its
        translation. */
    twostate predicate PageVanishes(va: word)
      requires Shaped()
      reads directory, tables
    {
      forall a: word :: HardwareWalk(a) == if va <= a < va + 4096 then Fault else old(HardwareWalk(a))
    }

    twostate lemma NewPageAppears(r: Request)
      requires Shaped() && old(Shows(mappings)) && Shows(mappings)
      requires mappings == old(mappings)[r.va / 4096 := Requested(r.pa, r.flags)]
      requires old(MapAccepted(r.va, r.pa, r.flags))
      ensures PageAppears(r.va, r.pa, r.flags)
    {
      RequestedRights(r.pa, r.flags);
      forall a: word {
        TranslatedAfterMap(old(mappings), r.va, Requested(r.pa, r.flags), a);
      }
    }

    twostate lemma OldPageVanishes(va: word)
      requires Shaped() && old(Shows(mappings)) && Shows(mappings) && mappings == old(mappings) - {va / 4096}
      requires va % 4096 == 0 && DynamicPage(va / 4096)
      ensures PageVanishes(va)
    {
      forall a: word {
        TranslatedAfterUnmap(old(mappings), va, a);
      }
    }

    // ----- operations -----
    // ----- operations -----

    method ClearTable(t: nat)
      requires Shaped() && 0 <= t < TABLES
      modifies tables
      ensures forall e :: 0 <= e < ENTRIES ==> tables[t, e] == 0
      ensures forall u, e :: 0 <= u < TABLES && u != t && 0 <= e < ENTRIES ==> tables[u, e] == old(tables[u, e])
    {
      var entry := 0;
      while entry < ENTRIES
        invariant 0 <= entry <= ENTRIES
        invariant forall e :: 0 <= e < entry ==> tables[t, e] == 0
        invariant forall u, e :: 0 <= u < TABLES && u != t && 0 <= e < ENTRIES ==> tables[u, e] == old(tables[u, e])
      {
        tables[t, entry] := 0;
        entry := entry + 1;
      }
    }

    /** The first loops of vmm_init: nothing mapped, identity tables taken. */
    method ClearAll()
      requires Shaped()
      modifies directory, tables, indices, inUse
      ensures forall d :: 0 <= d < ENTRIES ==> directory[d] == 0 && indices[d] == NONE
      ensures forall t :: 0 <= t < TABLES ==> inUse[t] == (t < IDENTITY_TABLES)
      ensures forall t, e :: 0 <= t < TABLES && 0 <= e < ENTRIES ==> tables[t, e] == 0
    {
      var d := 0;
      while d < ENTRIES
        invariant 0 <= d <= ENTRIES
        invariant forall k :: 0 <= k < d ==> directory[k] == 0 && indices[k] == NONE
      {
        directory[d] := 0;
        indices[d] := NONE;
        d := d + 1;
      }
      var t := 0;
      while t < TABLES
        invariant 0 <= t <= TABLES
        invariant forall k :: 0 <= k < ENTRIES ==> directory[k] == 0 && indices[k] == NONE
        invariant forall k :: 0 <= k < t ==> inUse[k] == (k < IDENTITY_TABLES)
        invariant forall k, e :: 0 <= k < t && 0 <= e < ENTRIES ==> tables[k, e] == 0
      {
        inUse[t] := t < IDENTITY_TABLES;
        ClearTable(t);
        t := t + 1;
      }
    }

    /** Table t maps its 4 MiB onto themselves, page 0 excepted. */
    method FillIdentityTable(t: nat)
      requires Shaped() && 0 <= t < IDENTITY_TABLES
      requires forall e :: 0 <= e < ENTRIES ==> tables[t, e] == 0
      modifies tables
      ensures forall e :: 0 <= e < ENTRIES ==>
                tables[t, e] == if t == 0 && e == 0 then 0 else Encode(IdentityMapping(PageNumber(t, e)))
      ensures forall u, e :: 0 <= u < TABLES && u != t && 0 <= e < ENTRIES ==> tables[u, e] == old(tables[u, e])
    {
      var entry := 0;
      while entry < ENTRIES
        invariant 0 <= entry <= ENTRIES
        invariant forall e :: 0 <= e < entry ==>
                    tables[t, e] == if t == 0 && e == 0 then 0 else Encode(IdentityMapping(PageNumber(t, e)))
        invariant forall e :: entry <= e < ENTRIES ==> tables[t, e] == 0
        invariant forall u, e :: 0 <= u < TABLES && u != t && 0 <= e < ENTRIES ==> tables[u, e] == old(tables[u, e])
      {
        var physicalAddress := (t * ENTRIES + entry) * 4096;
        if physicalAddress != 0 {
          tables[t, entry] := physicalAddress + 1 + 2;
        }
        entry := entry + 1;
      }
    }

    method Init() returns (ok: bool)
      requires Valid()
      modifies this, directory, tables, indices, inUse
      ensures ok && enabled && Valid()
      ensures mappings == if old(enabled) then old(mappings) else map[]
    {
      if enabled {
        return true;
      }
      ClearAll();
      var t := 0;
      while t < IDENTITY_TABLES
        invariant 0 <= t <= IDENTITY_TABLES && !enabled
        invariant forall k :: 0 <= k < t ==> indices[k] == k && directory[k] == TableEntry(k, false)
        invariant forall k :: t <= k < ENTRIES ==> directory[k] == 0 && indices[k] == NONE
        invariant forall k :: 0 <= k < TABLES ==> inUse[k] == (k < IDENTITY_TABLES)
        invariant forall k, e :: 0 <= k < t && 0 <= e < ENTRIES ==>
                    tables[k, e] == if k == 0 && e == 0 then 0 else Encode(IdentityMapping(PageNumber(k, e)))
        invariant forall k, e :: t <= k < TABLES && 0 <= e < ENTRIES ==> tables[k, e] == 0
      {
        indices[t] := t;
        directory[t] := tableBase + 4096 * t + 1 + 2;
        FillIdentityTable(t);
        t := t + 1;
      }
      mappings, owner := map[], map[];
      enabled := true;
      ok := true;
    }

    /** Translate an address, as vmm_translate does, through the side index. */
    method Translate(va: word, output: word) returns (ok: bool, physical: word)
      requires Valid()
      ensures ok <==> enabled && Mapped(va / 4096)
      ensures ok ==> physical == 4096 * Lookup(va / 4096).frame + va % 4096
      ensures !ok ==> physical == output
      ensures enabled ==> (ok <==> HardwareWalk(va).Page?) && (ok ==> physical == HardwareWalk(va).physical)
    {
      ok, physical := false, output;
      var d, e := va / 0x40_0000, (va / 4096) % ENTRIES;
      if !enabled {
        return;
      }
      WalkAgreesWithMap(va);
      TableBehind(va);
      if !Present(directory[d]) {
        return;
      }
      var t := indices[d];
      if t == NONE {
        return;
      }
      var entry := tables[t, e];
      if !Present(entry) {
        return;
      }
      ok, physical := true, FrameAddress(entry) + va % 4096;
    }

    /** The side index names the table the directory entry points to. */
    lemma TableBehind(va: word)
      requires Valid() && enabled
      ensures var d := va / 0x40_0000;
              if indices[d] == NONE then !Present(directory[d])
              else
                && 0 <= indices[d] < TABLES && Present(directory[d])
                && FrameAddress(directory[d]) == tableBase + 4096 * indices[d]
    {
      var d := va / 0x40_0000;
      if indices[d] != NONE {
        DirectoryEntryBits(indices[d], false);
        DirectoryEntryBits(indices[d], true);
      }
    }

    /** The search of allocate_dynamic_table: the first free dynamic table, or NONE. */
    method FindFreeTable() returns (index: nat)
      requires Shaped()
      ensures index == NONE ==> forall t :: IDENTITY_TABLES <= t < TABLES ==> inUse[t]
      ensures index != NONE ==> IDENTITY_TABLES <= index < TABLES && !inUse[index]
    {
      index := IDENTITY_TABLES;
      while index < TABLES
        invariant IDENTITY_TABLES <= index <= TABLES
        invariant forall t :: IDENTITY_TABLES <= t < index ==> inUse[t]
      {
        if !inUse[index] {
          return;
        }
        index := index + 1;
      }
      index := NONE;
    }

    method TableIsEmpty(t: nat) returns (empty: bool)
      requires Shaped() && 0 <= t < TABLES
      ensures empty <==> forall e :: 0 <= e < ENTRIES ==> !Present(tables[t, e])
    {
      var entry := 0;
      while entry < ENTRIES
        invariant 0 <= entry <= ENTRIES
        invariant forall e :: 0 <= e < entry ==> !Present(tables[t, e])
      {
        if Present(tables[t, entry]) {
          return false;
        }
        entry := entry + 1;
      }
      return true;
    }

    // ----- occupied regions and tables in use -----

    /** A dynamic table is in use exactly when it serves a region with a mapped page. */
    lemma TableInUseIffServing(t: nat)
      requires Valid() && enabled && IDENTITY_TABLES <= t < TABLES
      ensures inUse[t] <==> exists p :: p in mappings && indices[Region(p)] == t
    {
      if inUse[t] {
        assert owner[t] in Regions(mappings);
        var p :| p in mappings && Region(p) == owner[t];
        assert indices[Region(p)] == t;
      }
    }

    /** No two regions share a table, so there are as many tables in use as occupied regions. */
    lemma TablesServeRegions()
      requires Valid() && enabled
      ensures forall d, e :: 0 <= d < ENTRIES && 0 <= e < ENTRIES && indices[d] == indices[e] != NONE ==> d == e
      ensures forall d :: IDENTITY_TABLES <= d < ENTRIES ==> (indices[d] != NONE <==> d in Regions(mappings))
      ensures owner.Values == Regions(mappings) && |owner| == |Regions(mappings)|
    {
      forall r | r in Regions(mappings) ensures r in owner.Values {
        var p :| p in mappings && Region(p) == r;
        assert indices[r] in owner && owner[indices[r]] == r;
      }
      InjectiveMapSize(owner);
    }

    lemma PoolIsFullIffAllRegionsTaken()
      requires Valid() && enabled
      ensures (forall t :: IDENTITY_TABLES <= t < TABLES ==> inUse[t]) <==> |Regions(mappings)| == 32
      ensures |Regions(mappings)| <= 32
    {
      TablesServeRegions();
      FullIntervalSize(owner, IDENTITY_TABLES, TABLES);
    }

    // ----- mapping -----

    /** Exactly the requests that vmm_map_page serves. */
    ghost predicate MapAccepted(va: word, pa: word, flags: word) reads this {
      && enabled && DynamicAddressIsValid(va) && pa % 4096 == 0 && flags < 4
      && va / 4096 !in mappings
      && (Region(va / 4096) in Regions(mappings) || |Regions(mappings)| < 32)
    }

    /** The same in hardware terms. */
    lemma AcceptedMeans(va: word, pa: word, flags: word)
      requires Valid() && enabled
      ensures MapAccepted(va, pa, flags) <==>
                && 0x4000_0000 <= va < 0xF000_0000 && va % 4096 == 0 && pa % 4096 == 0 && flags < 4
                && HardwareWalk(va) == Fault
                && (va / 0x40_0000 in Regions(mappings) || |Regions(mappings)| < 32)
    {
      WalkAgreesWithMap(va);
      PageOfAddress(va);
    }

    lemma UnservedRegionIsEmpty(d: nat)
      requires Consistent() && d < ENTRIES && indices[d] == NONE
      ensures forall e: nat :: e < ENTRIES ==> PageNumber(d, e) !in mappings
      ensures d !in Regions(mappings)
    {
      forall e: nat | e < ENTRIES ensures PageNumber(d, e) !in mappings {
        assert Region(PageNumber(d, e)) == d;
      }
    }

    /** Take table t for region d, clear it and enter it in the directory; still empty. */
    method AttachTable(d: nat, t: nat)
      requires Consistent() && DYNAMIC_START / 0x40_0000 <= d < DYNAMIC_END / 0x40_0000 && indices[d] == NONE
      requires IDENTITY_TABLES <= t < TABLES && !inUse[t]
      modifies this`owner, directory, tables, indices, inUse
      ensures Consistent() && enabled == old(enabled) && mappings == old(mappings)
      ensures indices[d] == t && owner == old(owner)[t := d]
      ensures forall k :: 0 <= k < ENTRIES && k != d ==> indices[k] == old(indices[k])
    {
      UnservedRegionIsEmpty(d);
      assert t !in owner && forall u :: u in owner ==> owner[u] != d;
      inUse[t] := true;
      ClearTable(t);
      indices[d] := t;
      directory[d] := tableBase + 4096 * t + 1 + 2;
      owner := owner[t := d];
      assert IdentityIntact();
      assert RegionsOwned();
      assert EntriesMatch();
    }

    /** Let user accesses through the directory entry of region d. */
    method AdmitUsers(d: nat)
      requires Consistent() && IDENTITY_TABLES <= d < ENTRIES && indices[d] != NONE
      modifies directory
      ensures Consistent() && directory[d] == TableEntry(indices[d], true)
    {
      DirectoryEntryBits(indices[d], false);
      DirectoryEntryBits(indices[d], true);
      directory[d] := SetUserBit(directory[d]);
      assert IdentityIntact();
      assert RegionsOwned();
      assert EntriesMatch();
    }

    /** Write the entry of page p into the table of its region. */
    method EnterPage(p: nat, entry: word, ghost m: Mapping)
      requires Consistent() && DynamicPage(p) && m.frame < PAGES && p !in mappings && indices[Region(p)] != NONE
      requires entry == Encode(m) && UserBit(entry) == m.user
      modifies this, directory, tables
      ensures Consistent() && enabled == old(enabled) && owner == old(owner)
      ensures mappings == old(mappings)[p := m]
    {
      if UserBit(entry) {
        AdmitUsers(p / ENTRIES);
      }
      StoreEntry(p, entry, m);
    }

    /** The entry itself, once the directory entry admits whom the page admits. */
    method StoreEntry(p: nat, entry: word, ghost m: Mapping)
      requires Consistent() && DynamicPage(p) && m.frame < PAGES && p !in mappings && indices[Region(p)] != NONE
      requires entry == Encode(m)
      requires m.user ==> directory[Region(p)] == TableEntry(indices[Region(p)], true)
      modifies this`mappings, tables
      ensures Consistent() && mappings == old(mappings)[p := m]
    {
      var d, e := p / ENTRIES, p % ENTRIES;
      assert p == PageNumber(d, e);
      tables[indices[d], e] := entry;
      mappings := mappings[p := m];
      assert IdentityIntact();
      assert RegionsOwned();
      assert EntriesMatch();
    }

    method FillPage(p: nat, pa: word, flags: word)
      requires Consistent() && DynamicPage(p) && pa % 4096 == 0 && p !in mappings && indices[Region(p)] != NONE
      modifies this, directory, tables
      ensures Consistent() && enabled == old(enabled) && owner == old(owner)
      ensures mappings == old(mappings)[p := Requested(pa, flags)]
    {
      RequestedEntry(pa, flags);
      var hardwareFlags := MakePageFlags(flags);
      EnterPage(p, pa + hardwareFlags, Requested(pa, flags));
    }

    /** vmm_map_page on the tables, and on the map they stand for. */
    method InstallPage(va: word, pa: word, flags: word) returns (ok: bool)
      requires Valid()
      modifies this, directory, tables, indices, inUse
      ensures Valid() && enabled == old(enabled)
      ensures ok <==> old(MapAccepted(va, pa, flags))
      ensures mappings == if ok then old(mappings)[va / 4096 := Requested(pa, flags)] else old(mappings)
      ensures !ok ==> unchanged(this, directory, tables, indices, inUse)
    {
      if !enabled || !DynamicAddressIsValid(va) || pa % 4096 != 0 || flags >= 4 {
        return false;
      }
      var d, e, p := va / 0x40_0000, (va / 4096) % ENTRIES, va / 4096;
      PageOfAddress(va);
      PoolIsFullIffAllRegionsTaken();
      if indices[d] == NONE {
        UnservedRegionIsEmpty(d);
        var t := FindFreeTable();
        if t == NONE {
          return false;
        }
        AttachTable(d, t);
      } else {
        ServedRegionIsOccupied(d);
      }
      PresentIffMapped(d, e);
      if Present(tables[indices[d], e]) {
        return false;
      }
      FillPage(p, pa, flags);
      assert Region(p) in Regions(mappings);
      return true;
    }

    /** Exactly an absent page of the dynamic range is mapped, if its region has a table or one is
        left; then, for the hardware, that page and nothing else appears. */
    method MapPage(va: word, pa: word, flags: word) returns (ok: bool)
      requires Valid()
      modifies this, directory, tables, indices, inUse
      ensures Valid() && enabled == old(enabled)
      ensures ok <==>
                && old(enabled) && 0x4000_0000 <= va < 0xF000_0000 && va % 4096 == 0 && pa % 4096 == 0 && flags < 4
                && old(HardwareWalk(va) == Fault)
                && old(va / 0x40_0000 in Regions(mappings) || |Regions(mappings)| < 32)
      ensures mappings == if ok then old(mappings)[va / 4096 := Requested(pa, flags)] else old(mappings)
      ensures ok ==> PageAppears(va, pa, flags)
      ensures !ok ==> unchanged(this, directory, tables, indices, inUse)
    {
      if enabled {
        HardwareShowsMappings();
        AcceptedMeans(va, pa, flags);
      }
      ok := InstallPage(va, pa, flags);
      if ok {
        HardwareShowsMappings();
        NewPageAppears(Request(va, pa, flags));
      }
    }

    lemma ServedRegionIsOccupied(d: nat)
      requires Valid() && enabled && IDENTITY_TABLES <= d < ENTRIES && indices[d] != NONE
      ensures d in Regions(mappings)
    {
      assert owner[indices[d]] == d;
    }

    lemma PresentIffMapped(d: nat, e: nat)
      requires Consistent() && IDENTITY_TABLES <= d < ENTRIES && e < ENTRIES && indices[d] != NONE
      ensures IDENTITY_TABLES <= indices[d] < TABLES
      ensures var x := tables[indices[d], e];
              if PageNumber(d, e) in mappings
                  then Present(x) && FrameAddress(x) == 4096 * mappings[PageNumber(d, e)].frame
              else x == 0
    {
      assert owner[indices[d]] == d;
      if PageNumber(d, e) in mappings {
        EncodedBits(mappings[PageNumber(d, e)]);
      }
    }

    // ----- unmapping -----

    method RemovePage(p: nat)
      requires Consistent() && p in mappings
      modifies this`mappings, tables
      ensures Consistent() && enabled == old(enabled) && owner == old(owner)
      ensures mappings == old(mappings) - {p}
    {
      var d, e := p / ENTRIES, p % ENTRIES;
      assert p == PageNumber(d, e);
      tables[indices[d], e] := 0;
      mappings := mappings - {p};
      assert IdentityIntact();
      assert RegionsOwned();
      assert EntriesMatch();
    }

    /** Return the table of a region without mapped pages to the pool. */
    method DetachTable(d: nat)
      requires Consistent() && IDENTITY_TABLES <= d < ENTRIES && indices[d] != NONE && d !in Regions(mappings)
      modifies this`owner, directory, indices, inUse
      ensures Consistent() && enabled == old(enabled) && mappings == old(mappings)
      ensures owner == old(owner) - {old(indices[d])}
    {
      var t := indices[d];
      assert forall p :: p in mappings ==> Region(p) in Regions(mappings);
      directory[d] := 0;
      indices[d] := NONE;
      inUse[t] := false;
      owner := owner - {t};
      assert IdentityIntact();
      assert RegionsOwned();
      assert EntriesMatch();
    }

    /** vmm_unmap_page on the tables, and on the map they stand for. */
    method WithdrawPage(va: word, output: word) returns (ok: bool, physical: word)
      requires Valid()
      modifies this, directory, tables, indices, inUse
      ensures Valid() && enabled == old(enabled)
      ensures ok <==> old(enabled) && va % 4096 == 0 && va / 4096 in old(mappings)
      ensures physical == if ok then 4096 * old(mappings)[va / 4096].frame else output
      ensures mappings == if ok then old(mappings) - {va / 4096} else old(mappings)
      ensures !ok ==> unchanged(this, directory, tables, indices, inUse)
    {
      ok, physical := false, output;
      if !enabled || !DynamicAddressIsValid(va) {
        return;
      }
      var d, e, p := va / 0x40_0000, (va / 4096) % ENTRIES, va / 4096;
      PageOfAddress(va);
      var t := indices[d];
      if t == NONE {
        UnservedRegionIsEmpty(d);
        return;
      }
      PresentIffMapped(d, e);
      var entry := tables[t, e];
      if !Present(entry) {
        return;
      }
      ok, physical := true, FrameAddress(entry);
      RemovePage(p);
      RegionsWithout(old(mappings), p);
      RetireTable(d);
    }

    /** Exactly a mapped dynamic page is unmapped: its address in memory is handed back, the
        hardware faults on each of its bytes and keeps every other translation. */
    method UnmapPage(va: word, output: word) returns (ok: bool, physical: word)
      requires Valid()
      modifies this, directory, tables, indices, inUse
      ensures Valid() && enabled == old(enabled)
      ensures ok <==> old(enabled && HardwareWalk(va).Page?) && va % 4096 == 0 && 0x4000_0000 <= va < 0xF000_0000
      ensures ok ==> physical == old(HardwareWalk(va)).physical
      ensures !ok ==> physical == output
      ensures mappings == if ok then old(mappings) - {va / 4096} else old(mappings)
      ensures ok ==> PageVanishes(va)
      ensures !ok ==> unchanged(this, directory, tables, indices, inUse)
    {
      if enabled {
        HardwareShowsMappings();
        WalkAgreesWithMap(va);
      }
      ok, physical := WithdrawPage(va, output);
      if ok {
        HardwareShowsMappings();
        OldPageVanishes(va);
      }
    }

    /** The end of vmm_unmap_page: a table without present entries goes back to the pool. */
    method RetireTable(d: nat)
      requires Consistent() && enabled && IDENTITY_TABLES <= d < ENTRIES && indices[d] != NONE
      requires forall t :: t in owner && owner[t] != d ==> owner[t] in Regions(mappings)
      modifies this, directory, indices, inUse
      ensures Valid() && enabled && mappings == old(mappings)
    {
      var t := indices[d];
      assert owner[t] == d;
      EmptyTableMeansEmptyRegion(d);
      if t >= IDENTITY_TABLES {
        var empty := TableIsEmpty(t);
        if empty {
          DetachTable(d);
        }
      }
    }

    lemma RegionsWithout(m: map<nat, Mapping>, p: nat)
      requires p in m
      ensures Regions(m) - {Region(p)} <= Regions(m - {p})
    {
      forall r | r in Regions(m) && r != Region(p) ensures r in Regions(m - {p}) {
        var q :| q in m && Region(q) == r;
        assert q in m - {p};
      }
    }

    lemma EmptyTableMeansEmptyRegion(d: nat)
      requires Consistent() && IDENTITY_TABLES <= d < ENTRIES && indices[d] != NONE
      ensures IDENTITY_TABLES <= indices[d] < TABLES
      ensures (forall e :: 0 <= e < ENTRIES ==> !Present(tables[indices[d], e])) <==> d !in Regions(mappings)
    {
      var t := indices[d];
      assert owner[t] == d;
      if e :| 0 <= e < ENTRIES && Present(tables[t, e]) {
        PresentIffMapped(d, e);
        assert Region(PageNumber(d, e)) == d;
      }
      if d in Regions(mappings) {
        var p :| p in mappings && Region(p) == d;
        PresentIffMapped(d, p % ENTRIES);
        assert p == PageNumber(d, p % ENTRIES);
      }
    }
  }
}
