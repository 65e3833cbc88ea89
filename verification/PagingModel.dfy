/**
 The two levels of paging structures as values, what the processor reads from them, and what the kernel does
 to them (src/kernel/mm/vmm.cpp, src/kernel/include/mm/vmm.hpp). Pages are 4 KiB.
 */
module PagingModel {
  import opened Options

  const PAGE_SIZE: nat := 0x1000
  const ENTRIES: nat := 1024
  const ADDRESSES: nat := 0x1_0000_0000
  const PAGES: nat := 0x10_0000

  type Address = a: nat | a < ADDRESSES

  function PdIndex(v: Address): (i: nat)
    ensures i < ENTRIES
  {
    v / 0x40_0000
  }

  function PtIndex(v: Address): (j: nat)
    ensures j < ENTRIES
  {
    v / 0x1000 % 0x400
  }

  function PageOffset(v: Address): nat { v % 0x1000 }

  function PhysToFrame(a: Address): (f: nat)
    ensures f < PAGES
  {
    a / 0x1000
  }

  function FrameToPhys(f: nat): Address
    requires f < PAGES
  {
    f * 0x1000
  }

  /** The page of an address. */
  function PageOf(v: Address): (p: nat)
    ensures p < PAGES
  {
    v / PAGE_SIZE
  }

  /** Flag number `k`. */
  predicate Flag(flags: nat, k: nat)
    requires k <= 8
  {
    var weight :=
      if k == 0 then 1 else if k == 1 then 2 else if k == 2 then 4 else if k == 3 then 8 else if k == 4 then 16
      else if k == 5 then 32 else if k == 6 then 64 else if k == 7 then 128 else 256;
    flags / weight % 2 == 1
  }

  predicate PresentFlag(flags: nat) { Flag(flags, 0) }

  datatype Rights = Rights(writable: bool, user: bool, writeThrough: bool, cacheDisable: bool)

  function RightsOf(flags: nat): Rights { Rights(Flag(flags, 1), Flag(flags, 2), Flag(flags, 3), Flag(flags, 4)) }

  datatype DirEntry = DirEntry(present: bool, rights: Rights, address: nat)

  datatype PageEntry = PageEntry(present: bool, rights: Rights, pat: bool, global: bool, address: nat)

  const NO_RIGHTS := Rights(false, false, false, false)
  const EMPTY_DIR := DirEntry(false, NO_RIGHTS, 0)
  const EMPTY_PAGE := PageEntry(false, NO_RIGHTS, false, false, 0)

  /** A fresh page table: its frame is zeroed. */
  function EmptyTable(): (t: seq<PageEntry>)
    ensures |t| == ENTRIES && forall j :: 0 <= j < ENTRIES ==> t[j] == EMPTY_PAGE
  {
    seq(ENTRIES, j => EMPTY_PAGE)
  }

  /**
   The page directory, the kernel's own pointers to the page tables, and the page tables in memory by their
   frames. `supply` tells which frame the frame allocator hands out when directory entry `i` needs a table.
   */
  datatype Paging = Paging(active: bool, dir: seq<DirEntry>, tables: seq<Option<nat>>, memory: map<nat,
      seq<PageEntry>>, supply: seq<nat>)

  predicate Sized(s: Paging)
  {
    |s.dir| == ENTRIES && |s.tables| == ENTRIES && |s.supply| == ENTRIES
  }

  /** Tables are where the pointers say, in frames of their own, and a present directory entry points to its table. */
  ghost predicate Shaped(s: Paging)
  {
    && Sized(s)
    && (forall i :: 0 <= i < ENTRIES ==> s.supply[i] < PAGES)
    && (forall i, j :: 0 <= i < j < ENTRIES ==> s.supply[i] != s.supply[j])
    && (forall i :: 0 <= i < ENTRIES ==> s.tables[i].Some? ==> HasTable(s, i))
    && (forall i :: 0 <= i < ENTRIES ==> s.dir[i].present ==> s.tables[i] == Some(s.dir[i].address))
  }

  ghost predicate HasTable(s: Paging, i: nat)
    requires Sized(s) && i < ENTRIES && s.tables[i].Some?
  {
    var f := s.tables[i].value;
    && f == s.supply[i] && f in s.memory && |s.memory[f]| == ENTRIES
    && forall j :: 0 <= j < ENTRIES ==> s.memory[f][j].address < PAGES
  }

  /** The kernel has a table exactly where the directory entry is present. */
  ghost predicate Wired(s: Paging)
    requires Sized(s)
  {
    forall i :: 0 <= i < ENTRIES ==> (s.tables[i].Some? <==> s.dir[i].present)
  }

  // ---------------------------------------------------------------------------------------------
  // The processor's view

  datatype Translation = Translation(frame: nat, rights: Rights)

  /** Both levels must allow an access (section 4.6 of the Intel SDM, Volume 3A). */
  function Combine(dir: Rights, page: Rights): Rights
  {
    page.(writable := dir.writable && page.writable, user := dir.user && page.user)
  }

  /** What the processor finds for a page when it walks the structures (section 4.3). */
  function Walk(s: Paging, p: nat): Option<Translation>
    requires Sized(s) && p < PAGES
  {
    var d, j := s.dir[p / ENTRIES], p % ENTRIES;
    if !d.present || d.address !in s.memory || |s.memory[d.address]| <= j || !s.memory[d.address][j].present then None
    else Some(Translation(s.memory[d.address][j].address, Combine(d.rights, s.memory[d.address][j].rights)))
  }

  // ---------------------------------------------------------------------------------------------
  // The operations

  function NewDirEntry(flags: nat, frame: nat): DirEntry
  {
    DirEntry(PresentFlag(flags), RightsOf(flags), frame)
  }

  function NewPageEntry(flags: nat, phys: Address): PageEntry
  {
    PageEntry(PresentFlag(flags), RightsOf(flags), Flag(flags, 7), Flag(flags, 8), PhysToFrame(phys))
  }

  /** The structures with a table for directory entry `i`, which takes over the flags of the page that needs it. */
  function WithTable(s: Paging, i: nat, flags: nat): (s': Paging)
    requires Sized(s) && i < ENTRIES
    ensures Sized(s')
  {
    if s.tables[i].Some? then s
    else s.(dir := s.dir[i := NewDirEntry(flags, s.supply[i])], tables := s.tables[i := Some(s.supply[i])],
            memory := s.memory[s.supply[i] := EmptyTable()])
  }

  function SetPage(s: Paging, i: nat, j: nat, e: PageEntry): (s': Paging)
    requires Shaped(s) && i < ENTRIES && j < ENTRIES && s.tables[i].Some?
    ensures Sized(s')
  {
    assert HasTable(s, i);
    var f := s.tables[i].value;
    s.(memory := s.memory[f := s.memory[f][j := e]])
  }

  lemma WithTableShaped(s: Paging, i: nat, flags: nat)
    requires Shaped(s) && i < ENTRIES
    ensures Shaped(WithTable(s, i, flags))
  {
    var s' := WithTable(s, i, flags);
    forall k | 0 <= k < ENTRIES && s'.tables[k].Some?
      ensures HasTable(s', k)
    {
      if s.tables[k].Some? {
        assert HasTable(s, k);
      }
    }
  }

  function AllocPage(s: Paging, virt: Address, phys: Address, flags: nat): (s': Paging)
    requires Shaped(s)
    ensures Sized(s')
  {
    if !s.active then s
    else
      WithTableShaped(s, PdIndex(virt), flags);
      SetPage(WithTable(s, PdIndex(virt), flags), PdIndex(virt), PtIndex(virt), NewPageEntry(flags, phys))
  }

  /** Whether the kernel's tables hold a present entry for an address. */
  predicate HasPage(s: Paging, virt: Address)
    requires Shaped(s)
  {
    s.tables[PdIndex(virt)].Some? && (assert HasTable(s, PdIndex(virt));
        s.memory[s.tables[PdIndex(virt)].value][PtIndex(virt)].present)
  }

  function FreePage(s: Paging, virt: Address): (s': Paging)
    requires Shaped(s)
    ensures Sized(s')
  {
    var i, j := PdIndex(virt), PtIndex(virt);
    if !s.active || !HasPage(s, virt) then s
    else
      assert HasTable(s, i);
      SetPage(s, i, j, s.memory[s.tables[i].value][j].(present := false))
  }

  /** Whether `free_page` reports success. */
  predicate Freed(s: Paging, virt: Address)
    requires Shaped(s)
  {
    !s.active || HasPage(s, virt)
  }

  /** The physical address of an address; 0 stands for none. */
  function VirtualToPhysical(s: Paging, virt: Address): Address
    requires Shaped(s)
  {
    if !s.active then virt
    else if !HasPage(s, virt) then 0
    else
      assert HasTable(s, PdIndex(virt));
      FrameToPhys(s.memory[s.tables[PdIndex(virt)].value][PtIndex(virt)].address) + PageOffset(virt)
  }

  predicate IsMapped(s: Paging, virt: Address)
    requires Shaped(s)
  {
    s.active && s.dir[PdIndex(virt)].present && HasPage(s, virt)
  }
}
