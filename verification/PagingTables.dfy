/** The virtual memory manager as it updates its directory and tables in place, proved against the values. */
module PagingTables {
  import opened Options
  import opened PagingModel
  import opened PagingProofs

  class Vmm {
    /** Paging is on, or is being set up. */
    var active: bool
    const entries: array<DirEntry>
    const pageTables: array<Option<nat>>
    /** The page tables in memory, by their frames. */
    var memory: map<nat, seq<PageEntry>>
    /** The frame that the frame allocator hands out for each table. */
    const supply: seq<nat>

    ghost function View(): Paging
      reads this, entries, pageTables
    {
      Paging(active, entries[..], pageTables[..], memory, supply)
    }

    ghost predicate Valid()
      reads this, entries, pageTables
    {
      Shaped(View())
    }

    constructor (supply: seq<nat>)
      requires |supply| == ENTRIES && forall i :: 0 <= i < ENTRIES ==> supply[i] < PAGES
      requires forall i, j :: 0 <= i < j < ENTRIES ==> supply[i] != supply[j]
      ensures Valid() && Wired(View()) && active && Frames(View()) == map[]
      ensures fresh(entries) && fresh(pageTables)
    {
      active, memory := true, map[];
      entries := new DirEntry[ENTRIES](i => EMPTY_DIR);
      pageTables := new Option<nat>[ENTRIES](i => None);
      this.supply := supply;
    }

    method AllocPage(virt: Address, phys: Address, flags: nat)
      requires Valid()
      modifies this`memory, entries, pageTables
      ensures Valid() && View() == PagingModel.AllocPage(old(View()), virt, phys, flags)
    {
      if !active { return; }
      AllocPageShaped(View(), virt, phys, flags);
      var i, j := PdIndex(virt), PtIndex(virt);
      if pageTables[i].None? {
        var frame := supply[i];
        memory := memory[frame := EmptyTable()];
        pageTables[i] := Some(frame);
        entries[i] := NewDirEntry(flags, frame);
      }
      var table := pageTables[i].value;
      memory := memory[table := memory[table][j := NewPageEntry(flags, phys)]];
    }

    method FreePage(virt: Address) returns (freed: bool)
      requires Valid()
      modifies this`memory
      ensures Valid() && View() == PagingModel.FreePage(old(View()), virt) && (freed <==> Freed(old(View()), virt))
    {
      if !active { return true; }
      FreePageWalk(View(), virt, 0);
      var i, j := PdIndex(virt), PtIndex(virt);
      if pageTables[i].None? { return false; }
      assert HasTable(View(), i);
      var table := pageTables[i].value;
      if !memory[table][j].present { return false; }
      memory := memory[table := memory[table][j := memory[table][j].(present := false)]];
      return true;
    }

    method VirtualToPhysical(virt: Address) returns (phys: Address)
      requires Valid()
      ensures phys == PagingModel.VirtualToPhysical(View(), virt)
    {
      if !active { return virt; }
      var i, j := PdIndex(virt), PtIndex(virt);
      if pageTables[i].None? { return 0; }
      assert HasTable(View(), i);
      var table := pageTables[i].value;
      if !memory[table][j].present { return 0; }
      return FrameToPhys(memory[table][j].address) + PageOffset(virt);
    }

    method IsMapped(virt: Address) returns (mapped: bool)
      requires Valid()
      ensures mapped <==> PagingModel.IsMapped(View(), virt)
    {
      if !active { return false; }
      var i, j := PdIndex(virt), PtIndex(virt);
      if !entries[i].present { return false; }
      assert HasTable(View(), i);
      return memory[pageTables[i].value][j].present;
    }

    /** For regions that the loop can leave, as `LoopEndsIff` tells. */
    method IdentityMapRegion(start: Address, end: Address, flags: nat)
      requires Valid() && LoopEnds(start, end)
      modifies this`memory, entries, pageTables
      ensures Valid() && View() == IdentityMap(old(View()), start, end, flags)
    {
      var addr: Address := start;
      while addr <= end
        invariant Valid() && LoopEnds(addr, end)
        invariant IdentityMap(View(), addr, end, flags) == IdentityMap(old(View()), start, end, flags)
        decreases ADDRESSES - addr
      {
        NextAddress(addr, end);
        AllocPage(addr, addr, flags);
        addr := (addr + PAGE_SIZE) % ADDRESSES;
      }
    }
  }
}
