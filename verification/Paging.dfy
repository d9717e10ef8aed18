/** The two-level page tables (kernel/mem/paging.c): their construction with one table reached from two
    directory entries, mapping a page, and what the walk of the processor then finds. */
module Paging {
  import opened Bits

  const PRESENT: nat := 1
  const WRITE: nat := 2
  const ENTRIES: nat := 1024
  const PAGE: nat := 4096
  const TABLES: nat := 16

  /** The frame address and the flag bits of an entry. */
  function Frame(e: nat): (f: nat) { e - e % PAGE }

  function Flags(e: nat): (f: nat) { e % PAGE }

  predicate IsPresent(e: nat) { e % 2 == 1 }

  function DirIndex(virt: nat): (i: nat)
    ensures virt < 0x1_0000_0000 ==> i < ENTRIES
  {
    virt / 0x40_0000
  }

  function TableIndex(virt: nat): (i: nat)
    ensures i < ENTRIES
  {
    virt / PAGE % ENTRIES
  }

  /** A page directory, and the page tables in memory by their addresses. */
  datatype Space = Space(dir: seq<nat>, tables: map<nat, seq<nat>>)

  datatype Walk = Fault | Mapped(frame: nat, flags: nat)

  /** What the processor finds for a virtual address. */
  function Translate(s: Space, virt: nat): (w: Walk)
    requires |s.dir| == ENTRIES && virt < 0x1_0000_0000
  {
    var pde := s.dir[DirIndex(virt)];
    if !IsPresent(pde) || Frame(pde) !in s.tables || |s.tables[Frame(pde)]| != ENTRIES then Fault
    else
      var pte := s.tables[Frame(pde)][TableIndex(virt)];
      if IsPresent(pte) then Mapped(Frame(pte), Flags(pte)) else Fault
  }

  /** Directory entries 0 and 768 may share a table; no others do. */
  predicate Aliases(i: nat, j: nat) { i == j || (i == 0 && j == 768) || (i == 768 && j == 0) }

  /** Both entries are present and lead to the same table. */
  predicate Shared(s: Space, i: nat, j: nat)
    requires |s.dir| == ENTRIES && i < ENTRIES && j < ENTRIES
  {
    IsPresent(s.dir[i]) && IsPresent(s.dir[j]) && Frame(s.dir[i]) == Frame(s.dir[j])
  }

  ghost predicate SpaceOk(s: Space)
  {
    && |s.dir| == ENTRIES
    && (forall i :: 0 <= i < ENTRIES && IsPresent(s.dir[i]) ==>
          Frame(s.dir[i]) in s.tables && |s.tables[Frame(s.dir[i])]| == ENTRIES)
    && forall i: nat, j: nat :: i < ENTRIES && j < ENTRIES && Shared(s, i, j) ==> Aliases(i, j)
  }

  predicate SamePage(v: nat, w: nat) { v / PAGE == w / PAGE }

  /** The entry stored for a frame and flags. */
  function EntryFor(fis: nat, flags: nat): (e: nat)
  {
    Frame(fis) + (flags % PAGE - flags % 2 + 1)
  }

  lemma EntryMeans(fis: nat, flags: nat)
    ensures var e := EntryFor(fis, flags);
      IsPresent(e) && Frame(e) == Frame(fis) && Flags(e) == flags % PAGE - flags % 2 + 1 < PAGE
  {
    var low := flags % PAGE - flags % 2 + 1;
    assert low < PAGE && low % 2 == 1 by { LowOdd(flags); }
    AddLow(Frame(fis), low);
  }

  lemma LowOdd(flags: nat)
    ensures flags % PAGE % 2 == flags % 2 && 0 <= flags % PAGE - flags % 2 && flags % PAGE - flags % 2 + 1 < PAGE
    ensures (flags % PAGE - flags % 2 + 1) % 2 == 1
  {
    LowParity(flags / PAGE, flags % PAGE);
  }

  lemma LowParity(q: nat, low: nat)
    requires low < PAGE
    ensures (PAGE * q + low) % 2 == low % 2 <= low && low - low % 2 + 1 < PAGE && (low - low % 2 + 1) % 2 == 1
  {
    Parity(2048 * q + low / 2, low % 2);
    Parity(low / 2, 1);
  }

  lemma Parity(h: nat, b: nat)
    requires b < 2
    ensures (2 * h + b) % 2 == b
  {
  }

  lemma AddLow(h: nat, low: nat)
    requires h % PAGE == 0 && low < PAGE
    ensures (h + low) % PAGE == low && (h + low) % 2 == low % 2
  {
    assert h == PAGE * (h / PAGE);
  }

  /** The space after a page is mapped; page is what pmm_alloc gives out for a missing table, 0 if it has
      nothing. */
  function MapPage(s: Space, virt: nat, fis: nat, flags: nat, page: nat): (s': Space)
    requires |s.dir| == ENTRIES && virt < 0x1_0000_0000
  {
    var d := DirIndex(virt);
    if IsPresent(s.dir[d]) then
      if Frame(s.dir[d]) !in s.tables || |s.tables[Frame(s.dir[d])]| != ENTRIES then s
      else
        var table: seq<nat> := s.tables[Frame(s.dir[d])][TableIndex(virt) := EntryFor(fis, flags)];
        s.(tables := s.tables[Frame(s.dir[d]) := table])
    else if page == 0 then s
    else
      var blank := seq<nat>(ENTRIES, _ => 0);
      var table: seq<nat> := blank[TableIndex(virt) := EntryFor(fis, flags)];
      Space(s.dir[d := page + PRESENT + WRITE], s.tables[page := table])
  }

  /** A page for a table: aligned, in memory, and no table yet. */
  predicate FreshPage(s: Space, page: nat)
  {
    page % PAGE == 0 && page < 0x1_0000_0000 && page !in s.tables
  }

  lemma MapKeeps(s: Space, virt: nat, fis: nat, flags: nat, page: nat)
    requires SpaceOk(s) && virt < 0x1_0000_0000 && (page != 0 ==> FreshPage(s, page))
    ensures SpaceOk(MapPage(s, virt, fis, flags, page))
  {
    var d, s' := DirIndex(virt), MapPage(s, virt, fis, flags, page);
    if !IsPresent(s.dir[d]) && page != 0 {
      AddLow(page, PRESENT + WRITE);
      assert Frame(s'.dir[d]) == page;
    }
  }

  /** The main result: the page leads to the frame with the flags and the present bit; every other page
      leads where it led before, except that a page reached through the shared table changes with its
      twin. */
  lemma MapThenTranslate(s: Space, virt: nat, fis: nat, flags: nat, page: nat, w: nat)
    requires SpaceOk(s) && virt < 0x1_0000_0000 && w < 0x1_0000_0000 && (page != 0 ==> FreshPage(s, page))
    requires IsPresent(s.dir[DirIndex(virt)]) || page != 0
    ensures var s' := MapPage(s, virt, fis, flags, page);
      && Translate(s', virt) == Mapped(Frame(fis), flags % PAGE - flags % 2 + 1)
      && Translate(s', w) ==
        if SamePage(virt, w) || Twin(s, virt, w) then Translate(s', virt) else Translate(s, w)
  {
    EntryMeans(fis, flags);
    PageIsIndices(virt, w);
    hide SamePage, EntryFor, Flags;
    if IsPresent(s.dir[DirIndex(virt)]) {
      MapInTable(s, virt, fis, flags, page, w);
    } else {
      MapNewTable(s, virt, fis, flags, page, w);
    }
  }

  /** Two pages with the same place in a table reached from entries 0 and 768. */
  predicate Twin(s: Space, v: nat, w: nat)
    requires |s.dir| == ENTRIES && v < 0x1_0000_0000 && w < 0x1_0000_0000
  {
    && DirIndex(v) != DirIndex(w) && Aliases(DirIndex(v), DirIndex(w)) && TableIndex(v) == TableIndex(w)
    && Shared(s, DirIndex(v), DirIndex(w))
  }

  lemma PageIsIndices(v: nat, w: nat)
    ensures SamePage(v, w) <==> DirIndex(v) == DirIndex(w) && TableIndex(v) == TableIndex(w)
  {
    DivDiv(v);
    DivDiv(w);
    assert v / PAGE == ENTRIES * (v / PAGE / ENTRIES) + v / PAGE % ENTRIES;
    assert w / PAGE == ENTRIES * (w / PAGE / ENTRIES) + w / PAGE % ENTRIES;
  }

  lemma DivDiv(v: nat)
    ensures v / PAGE / ENTRIES == v / 0x40_0000
  {
  }

  lemma MapInTable(s: Space, virt: nat, fis: nat, flags: nat, page: nat, w: nat)
    requires SpaceOk(s) && virt < 0x1_0000_0000 && w < 0x1_0000_0000 && IsPresent(s.dir[DirIndex(virt)])
    requires var e := EntryFor(fis, flags); IsPresent(e)
    ensures var s' := MapPage(s, virt, fis, flags, page); var e := EntryFor(fis, flags);
      && Translate(s', virt) == Mapped(Frame(e), Flags(e))
      && Translate(s', w) ==
        if (DirIndex(virt) == DirIndex(w) && TableIndex(virt) == TableIndex(w)) || Twin(s, virt, w)
        then Translate(s', virt) else Translate(s, w)
  {
    hide Frame, Flags, EntryFor, IsPresent, DirIndex, TableIndex;
  }

  lemma MapNewTable(s: Space, virt: nat, fis: nat, flags: nat, page: nat, w: nat)
    requires SpaceOk(s) && virt < 0x1_0000_0000 && w < 0x1_0000_0000 && !IsPresent(s.dir[DirIndex(virt)])
    requires page != 0 && FreshPage(s, page)
    requires var e := EntryFor(fis, flags); IsPresent(e)
    ensures var s' := MapPage(s, virt, fis, flags, page); var e := EntryFor(fis, flags);
      && Translate(s', virt) == Mapped(Frame(e), Flags(e))
      && Translate(s', w) ==
        if DirIndex(virt) == DirIndex(w) && TableIndex(virt) == TableIndex(w)
        then Translate(s', virt) else Translate(s, w)
  {
    AddLow(page, PRESENT + WRITE);
    assert IsPresent(page + PRESENT + WRITE) && Frame(page + PRESENT + WRITE) == page && !IsPresent(0);
    hide Frame, Flags, EntryFor, IsPresent, DirIndex, TableIndex;
  }

  /** A table that was missing: the directory entry leads to the new page, present and writable, and all
      entries of the table but that of the address are zero; nothing else changes. */
  lemma NewTableIs(s: Space, virt: nat, fis: nat, flags: nat, page: nat, k: nat)
    requires |s.dir| == 1024 && virt < 0x1_0000_0000 && s.dir[virt / 0x40_0000] % 2 == 0 && page != 0 && k < 1024
    ensures var s' := MapPage(s, virt, fis, flags, page);
      && s'.dir == s.dir[virt / 0x40_0000 := page + 3]
      && page in s'.tables && |s'.tables[page]| == 1024
      && s'.tables[page][k] ==
        (if k == virt / 4096 % 1024 then fis / 4096 * 4096 + flags % 4096 / 2 * 2 + 1 else 0)
      && forall a: nat :: a != page ==> (a in s'.tables <==> a in s.tables)
                                        && (a in s.tables ==> s'.tables[a] == s.tables[a])
  {
    EntryIs(fis, flags);
    hide EntryFor;
  }

  lemma EntryIs(fis: nat, flags: nat)
    ensures EntryFor(fis, flags) == fis / 4096 * 4096 + flags % 4096 / 2 * 2 + 1
  {
    LowOdd(flags);
    assert flags % 4096 % 2 == flags % 2;
  }

  /** ---- Access from user code ---- */

  /** PAGE_USUARIO in an entry. */
  predicate UserBit(e: nat) { e / 4 % 2 == 1 }

  /** The processor lets user code through when both entries of the walk have the bit. */
  predicate UserMay(s: Space, virt: nat)
    requires |s.dir| == 1024 && virt < 0x1_0000_0000
  {
    UserBit(s.dir[virt / 0x40_0000]) && Translate(s, virt).Mapped? && UserBit(Translate(s, virt).flags)
  }

  predicate NoUserEntry(s: Space)
  {
    |s.dir| == 1024 && forall i :: 0 <= i < 1024 ==> !UserBit(s.dir[i])
  }

  /** A page mapped for user code, with flags 7, is open to it exactly when its directory entry was there
      and had the bit: an entry made for a new table has not. */
  lemma UserMappingIff(s: Space, virt: nat, fis: nat, page: nat)
    requires SpaceOk(s) && virt < 0x1_0000_0000 && (page != 0 ==> FreshPage(s, page))
    requires IsPresent(s.dir[virt / 0x40_0000]) || page != 0
    ensures UserMay(MapPage(s, virt, fis, 7, page), virt)
       <==> s.dir[virt / 0x40_0000] % 2 == 1 && UserBit(s.dir[virt / 0x40_0000])
  {
    MapThenTranslate(s, virt, fis, 7, page, virt);
    assert UserBit(7);
    var d, s' := virt / 0x40_0000, MapPage(s, virt, fis, 7, page);
    if s.dir[d] % 2 == 1 {
      assert s'.dir[d] == s.dir[d];
    } else {
      NewTableIs(s, virt, fis, 7, page, 0);
      TableEntryNoUser(page);
    }
  }

  /** The entry made for a table. */
  lemma TableEntryNoUser(at: nat)
    requires at % 4096 == 0
    ensures !UserBit(at + 3)
  {
    var k := at / 4096;
    FourthOf(k);
    assert at == 4096 * k;
  }

  lemma FourthOf(k: nat)
    ensures (4096 * k + 3) / 4 == 2 * (512 * k) && 2 * (512 * k) % 2 == 0
  {
  }

  datatype Mapping = Mapping(virt: nat, fis: nat, flags: nat, page: nat)

  /** A run of mappings, each with an address of the space and a fresh page, or none. */
  function MapAll(s: Space, ms: seq<Mapping>): (s': Space)
    requires |s.dir| == 1024
    ensures |s'.dir| == 1024
    decreases |ms|
  {
    if ms == [] then s
    else
      var m := ms[0];
      var s1 := if m.virt < 0x1_0000_0000 && (m.page == 0 || FreshPage(s, m.page))
                then MapPage(s, m.virt, m.fis, m.flags, m.page) else s;
      MapAll(s1, ms[1..])
  }

  /** From the tables of paging_init no run of mappings, whatever their flags, opens a page to user code. */
  lemma {:induction false} RunNeverUser(s: Space, ms: seq<Mapping>, virt: nat)
    requires SpaceOk(s) && NoUserEntry(s) && virt < 0x1_0000_0000
    ensures SpaceOk(MapAll(s, ms)) && NoUserEntry(MapAll(s, ms)) && !UserMay(MapAll(s, ms), virt)
    decreases |ms|
  {
    hide SpaceOk, MapPage, Translate, UserBit;
    if ms != [] {
      var m := ms[0];
      if m.virt < 0x1_0000_0000 && (m.page == 0 || FreshPage(s, m.page)) {
        MapKeeps(s, m.virt, m.fis, m.flags, m.page);
        MapNoUser(s, m.virt, m.fis, m.flags, m.page);
        RunNeverUser(MapPage(s, m.virt, m.fis, m.flags, m.page), ms[1..], virt);
      } else {
        RunNeverUser(s, ms[1..], virt);
      }
    }
  }

  lemma MapNoUser(s: Space, virt: nat, fis: nat, flags: nat, page: nat)
    requires NoUserEntry(s) && virt < 0x1_0000_0000 && (page == 0 || FreshPage(s, page))
    ensures |MapPage(s, virt, fis, flags, page).dir| == 1024 && NoUserEntry(MapPage(s, virt, fis, flags, page))
  {
    hide EntryFor, UserBit;
    if page != 0 { TableEntryNoUser(page); }
  }

  lemma InitialNoUser(s: Space, tablesAt: nat)
    requires Initial(s, tablesAt)
    ensures NoUserEntry(s)
  {
    hide UserBit, IdentityTable;
    assert !UserBit(2) by { BitOfTwo(); }
    forall i: nat | i < 1024 ensures !UserBit(s.dir[i]) {
      if i < 16 { TableEntryNoUser(tablesAt + i * 4096); }
      if i == 768 { TableEntryNoUser(tablesAt); }
    }
  }

  lemma BitOfTwo()
    ensures !UserBit(2)
  {
  }

  /** ---- The program ---- */

  /** An address with the bits PRESENT and WRITE set. */
  lemma OrPresentWrite(h: nat)
    requires h % PAGE == 0 && h < 0x1_0000_0000
    ensures Or32(Or32(h, PRESENT), WRITE) == Or32(Or32(h, 1), 2) == h + 3
  {
    hide Bitwise;
    Pow2Values();
    OrLowField(h, 0, 1, 12, 32);
    OrLowField(h, 1, 2, 12, 32);
    SmallOrs();
  }

  lemma SmallOrs()
    ensures Bitwise(Or, 0, 1, 32) == 1 && Bitwise(Or, 1, 2, 32) == 3
  {
    OrOne(0, 32);
    ZeroIsNeutral(Or, 1, 31);
    assert Bitwise(Or, 1, 2, 32) == 1 + 2 * Bitwise(Or, 0, 1, 31);
  }

  /** (fis & ~0xFFF) | (flags & 0xFFF) | PRESENT. */
  lemma EntryIsMasked(fis: nat, flags: nat)
    requires fis < 0x1_0000_0000 && flags < 0x1_0000_0000
    ensures Or32(Or32(And32(fis, Not32(0xFFF)), And32(flags, 0xFFF)), 1) == EntryFor(fis, flags)
  {
    hide Bitwise;
    Pow2Values();
    HighMask(fis, 12, 32);
    LowMask(flags, 12, 32);
    var h, low := Frame(fis), flags % PAGE;
    OrLowField(h, 0, low, 12, 32);
    ZeroIsNeutral(Or, low, 32);
    OrLowField(h, low, 1, 12, 32);
    OrOne(low, 32);
    LowOdd(flags);
  }

  lemma PresentIsMasked(e: nat)
    requires e < 0x1_0000_0000
    ensures And32(e, 1) != 0 <==> IsPresent(e)
    ensures And32(e, Not32(0xFFF)) == Frame(e)
  {
    hide Bitwise;
    Pow2Values();
    LowMask(e, 1, 32);
    HighMask(e, 12, 32);
  }

  lemma IndexIsMasked(virt: nat)
    ensures And32(virt / 4096, 0x3FF) == TableIndex(virt) && virt / 0x40_0000 == DirIndex(virt)
  {
    hide Bitwise;
    assert Pow2(10) == 0x400;
    LowMask(virt / PAGE, 10, 32);
  }

  class Pager {
    const dir: array<nat>
    var tables: map<nat, seq<nat>>

    ghost function View(): (s: Space)
      reads this, dir
    {
      Space(dir[..], tables)
    }

    ghost predicate Valid()
      reads this, dir
    {
      SpaceOk(View()) && forall i :: 0 <= i < dir.Length ==> dir[i] < 0x1_0000_0000
    }

    /** paging_init: an empty directory, sixteen tables that map the first 64 MB to themselves, and the
        first table once more for the kernel at 3 GB. */
    constructor (tablesAt: nat)
      requires tablesAt % PAGE == 0 && tablesAt + TABLES * PAGE <= 0x1_0000_0000
      ensures Valid() && fresh(dir)
      ensures forall virt: nat {:trigger Translate(View(), virt)} :: virt < 0x1_0000_0000 ==>
        Translate(View(), virt) ==
          if virt < 0x400_0000 then Mapped(virt / 4096 * 4096, 3)
          else if 0xC000_0000 <= virt < 0xC040_0000 then Mapped((virt - 0xC000_0000) / 4096 * 4096, 3)
          else Fault
      ensures NoUserEntry(View())
    {
      dir := new nat[ENTRIES](_ => WRITE);
      tables := map[];
      new;
      FillDirectory(tablesAt);
      InitialOk(View(), tablesAt);
      InitialNoUser(View(), tablesAt);
      hide Translate, IdentityWalk;
      forall virt: nat | virt < 0x1_0000_0000
        ensures Translate(View(), virt) ==
          if virt < 0x400_0000 then Mapped(virt / 4096 * 4096, 3)
          else if 0xC000_0000 <= virt < 0xC040_0000 then Mapped((virt - 0xC000_0000) / 4096 * 4096, 3)
          else Fault
      {
        InitialWalk(View(), tablesAt, virt);
        IdentityWalkIs(virt);
      }
    }

    /** The loop of paging_init over the first sixteen tables, and the entry for 3 GB. */
    method FillDirectory(tablesAt: nat)
      requires tablesAt % PAGE == 0 && tablesAt + TABLES * PAGE <= 0x1_0000_0000
      requires dir.Length == ENTRIES && tables == map[] && forall i :: 0 <= i < ENTRIES ==> dir[i] == WRITE
      modifies this`tables, dir
      ensures Initial(View(), tablesAt) && dir.Length == ENTRIES && forall i :: 0 <= i < ENTRIES ==>
              dir[i] < 0x1_0000_0000
    {
      hide And32, Or32, IdentityTable;
      var pt: nat := 0;
      while pt < TABLES
        invariant pt <= TABLES
        invariant forall i :: 0 <= i < ENTRIES ==> dir[i] == if i < pt then tablesAt + i * PAGE + 3 else WRITE
        invariant forall i: nat :: i < pt ==> IdentityTable(tables, tablesAt, i)
      {
        var table := BuildTable(pt);
        ghost var before := tables;
        tables := tables[tablesAt + pt * PAGE := table];
        forall i: nat | i < pt + 1 ensures IdentityTable(tables, tablesAt, i) {
          IdentityTableBuilt(before, tablesAt, pt, table, i);
        }
        OrPresentWrite(tablesAt + pt * PAGE);
        dir[pt] := Or32(Or32(tablesAt + pt * PAGE, PRESENT), WRITE);
        pt := pt + 1;
      }
      OrPresentWrite(tablesAt);
      dir[768] := Or32(Or32(tablesAt, PRESENT), WRITE);
    }

    /** paging_mapear; page is what pmm_alloc gives out, 0 if it has nothing. */
    method Map(virt: nat, fis: nat, flags: nat, page: nat)
      requires Valid() && virt < 0x1_0000_0000 && fis < 0x1_0000_0000 && flags < 0x1_0000_0000
      requires page != 0 ==> FreshPage(View(), page)
      modifies this, dir
      ensures Valid() && View() == MapPage(old(View()), virt, fis, flags, page)
    {
      hide And32, Or32;
      var pd := virt / 0x40_0000;
      var pt := And32(virt / PAGE, 0x3FF);
      IndexIsMasked(virt);
      PresentIsMasked(dir[pd]);
      MapKeeps(View(), virt, fis, flags, page);
      EntryIsMasked(fis, flags);
      ghost var s := View();
      if And32(dir[pd], PRESENT) == 0 {
        if page == 0 { return; }
        tables := tables[page := seq<nat>(ENTRIES, _ => 0)];
        OrPresentWrite(page);
        dir[pd] := Or32(Or32(page, PRESENT), WRITE);
        AddLow(page, 3);
        PresentIsMasked(dir[pd]);
      }
      var at := And32(dir[pd], Not32(0xFFF));
      var e := Or32(Or32(And32(fis, Not32(0xFFF)), And32(flags, 0xFFF)), PRESENT);
      tables := tables[at := tables[at][pt := e]];
      assert View().tables == MapPage(s, virt, fis, flags, page).tables;
    }
  }

  /** Table number pt maps its part of the first 64 MB to itself. */
  ghost predicate IdentityTable(tables: map<nat, seq<nat>>, tablesAt: nat, pt: nat)
  {
    && tablesAt + pt * PAGE in tables
    && IdentityEntries(tables[tablesAt + pt * PAGE], pt)
  }

  lemma IdentityTableBuilt(tables: map<nat, seq<nat>>, tablesAt: nat, pt: nat, table: seq<nat>, i: nat)
    requires i <= pt && IdentityEntries(table, pt) && (i < pt ==> IdentityTable(tables, tablesAt, i))
    ensures IdentityTable(tables[tablesAt + pt * PAGE := table], tablesAt, i)
  {
    hide IdentityEntries;
    if i < pt { assert tablesAt + i * PAGE != tablesAt + pt * PAGE; }
  }

  predicate IdentityEntries(table: seq<nat>, pt: nat)
  {
    |table| == ENTRIES && forall i :: 0 <= i < ENTRIES ==> table[i] == (pt * ENTRIES + i) * PAGE + 3
  }

  /** The inner loop of paging_init. */
  method BuildTable(pt: nat) returns (table: seq<nat>)
    requires pt < TABLES
    ensures IdentityEntries(table, pt)
  {
    table := [];
    var i: nat := 0;
    while i < ENTRIES
      invariant i <= ENTRIES && |table| == i
      invariant forall k :: 0 <= k < i ==> table[k] == (pt * ENTRIES + k) * PAGE + 3
    {
      OrPresentWrite((pt * ENTRIES + i) * PAGE);
      table := table + [Or32(Or32((pt * ENTRIES + i) * PAGE, PRESENT), WRITE)];
      i := i + 1;
    }
  }

  /** The state paging_init leaves. */
  ghost predicate Initial(s: Space, tablesAt: nat)
  {
    && |s.dir| == ENTRIES && tablesAt % PAGE == 0
    && (forall i :: 0 <= i < ENTRIES ==>
          s.dir[i] == if i < TABLES then tablesAt + i * PAGE + 3 else if i == 768 then tablesAt + 3 else WRITE)
    && forall i: nat :: i < TABLES ==> IdentityTable(s.tables, tablesAt, i)
  }

  lemma InitialEntry(s: Space, tablesAt: nat, i: nat)
    requires Initial(s, tablesAt) && i < ENTRIES
    ensures IsPresent(s.dir[i]) <==> i < TABLES || i == 768
    ensures i < TABLES ==> Frame(s.dir[i]) == tablesAt + i * PAGE
    ensures i == 768 ==> Frame(s.dir[i]) == tablesAt
  {
    if i < TABLES { AddLow(tablesAt + i * PAGE, 3); }
    if i == 768 { AddLow(tablesAt, 3); }
  }

  lemma InitialOk(s: Space, tablesAt: nat)
    requires Initial(s, tablesAt)
    ensures SpaceOk(s)
  {
    hide IsPresent, Frame;
    forall i: nat | i < ENTRIES && IsPresent(s.dir[i])
      ensures Frame(s.dir[i]) in s.tables && |s.tables[Frame(s.dir[i])]| == ENTRIES
    {
      InitialEntry(s, tablesAt, i);
      assert IdentityTable(s.tables, tablesAt, if i < TABLES then i else 0);
    }
    forall i: nat, j: nat | i < ENTRIES && j < ENTRIES && Shared(s, i, j) ensures Aliases(i, j) {
      InitialEntry(s, tablesAt, i);
      InitialEntry(s, tablesAt, j);
    }
  }

  /** What an address leads to after paging_init. */
  function IdentityWalk(virt: nat): (w: Walk)
    requires virt < 0x1_0000_0000
  {
    if virt < 0x400_0000 then Mapped(Frame(virt), PRESENT + WRITE)
    else if DirIndex(virt) == 768 then Mapped(KernelFrame(virt), PRESENT + WRITE)
    else Fault
  }

  /** The frame behind an address of the 4 MB at 3 GB. */
  function KernelFrame(virt: nat): (f: nat)
    requires DirIndex(virt) == 768
  {
    assert virt >= 0xC000_0000 && Frame(virt) >= 0xC000_0000;
    Frame(virt) - 0xC000_0000
  }

  lemma InitialWalk(s: Space, tablesAt: nat, virt: nat)
    requires Initial(s, tablesAt) && virt < 0x1_0000_0000
    ensures Translate(s, virt) == IdentityWalk(virt)
  {
    DivDiv(virt);
    var d, t := DirIndex(virt), TableIndex(virt);
    InitialEntry(s, tablesAt, d);
    FrameOfIndices(virt);
    if d < TABLES {
      assert IdentityTable(s.tables, tablesAt, d);
      AddLow((d * ENTRIES + t) * PAGE, 3);
    } else if d == 768 {
      assert IdentityTable(s.tables, tablesAt, 0);
      AddLow(t * PAGE, 3);
    }
  }

  lemma IdentityWalkIs(virt: nat)
    requires virt < 0x1_0000_0000
    ensures IdentityWalk(virt) ==
      if virt < 0x400_0000 then Mapped(virt / 4096 * 4096, 3)
      else if 0xC000_0000 <= virt < 0xC040_0000 then Mapped((virt - 0xC000_0000) / 4096 * 4096, 3)
      else Fault
  {
    assert Frame(virt) == virt / 4096 * 4096;
    if 0xC000_0000 <= virt { assert Frame(virt) - 0xC000_0000 == (virt - 0xC000_0000) / 4096 * 4096; }
  }

  lemma FrameOfIndices(virt: nat)
    ensures Frame(virt) == (DirIndex(virt) * ENTRIES + TableIndex(virt)) * PAGE
    ensures virt < 0x400_0000 <==> DirIndex(virt) < TABLES
  {
    DivDiv(virt);
    assert virt / PAGE == ENTRIES * (virt / PAGE / ENTRIES) + virt / PAGE % ENTRIES;
  }
}
