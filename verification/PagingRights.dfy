/** What the processor finds in an allocated page, told by the numbers that are passed. */
module PagingRights {
  import opened Options
  import opened PagingModel
  import opened PagingProofs

  /** The rights that the flags' number asks for. */
  ghost predicate RightsAre(r: Rights, flags: nat)
  {
    && (r.writable <==> flags / 2 % 2 == 1) && (r.user <==> flags / 4 % 2 == 1)
    && (r.writeThrough <==> flags / 8 % 2 == 1) && (r.cacheDisable <==> flags / 16 % 2 == 1)
  }

  /** The two entries that lead to an allocated page, and all others. */
  lemma AllocPageEntries(s: Paging, virt: Address, phys: Address, flags: nat)
    requires Shaped(s) && s.active
    ensures var s', i, j := AllocPage(s, virt, phys, flags), virt / 0x40_0000, virt / 0x1000 % 0x400;
            && i < ENTRIES && j < ENTRIES && s'.active && s'.supply == s.supply
            && var d := s'.dir[i];
               && (if s.tables[i].Some? then d == s.dir[i] && s'.tables[i] == s.tables[i]
                   else (d.present <==> flags % 2 == 1) && RightsAre(d.rights, flags) && d.address == s.supply[i]
                        && s'.tables[i] == Some(s.supply[i]))
               && (forall k :: 0 <= k < ENTRIES && k != i ==> s'.dir[k] == s.dir[k] && s'.tables[k] == s.tables[k])
               && var f := s'.tables[i].value;
                  && f in s'.memory && |s'.memory[f]| == ENTRIES
                  && var e := s'.memory[f][j];
                     && (e.present <==> flags % 2 == 1) && RightsAre(e.rights, flags)
                     && (e.pat <==> flags / 128 % 2 == 1) && (e.global <==> flags / 256 % 2 == 1)
                     && e.address == phys / 0x1000
  {
    assert s.tables[PdIndex(virt)].Some? ==> HasTable(s, PdIndex(virt));
  }

  /** What the processor finds for an allocated page: both entries must allow writing and user access. */
  lemma AllocPageNumbers(s: Paging, virt: Address, phys: Address, flags: nat)
    requires Shaped(s) && s.active
    ensures var found, i := Walk(AllocPage(s, virt, phys, flags), virt / 0x1000), virt / 0x40_0000;
            && (found.Some? <==> flags % 2 == 1 && (s.tables[i].Some? ==> s.dir[i].present))
            && (found.Some? ==>
                  var t := found.value;
                  && t.frame == phys / 0x1000
                  && (t.rights.writable <==>
                        flags / 2 % 2 == 1 && (s.tables[i].Some? ==> s.dir[i].rights.writable))
                  && (t.rights.user <==> flags / 4 % 2 == 1 && (s.tables[i].Some? ==> s.dir[i].rights.user))
                  && (t.rights.writeThrough <==> flags / 8 % 2 == 1)
                  && (t.rights.cacheDisable <==> flags / 16 % 2 == 1))
  {
    AllocPageWalk(s, virt, phys, flags, PageOf(virt));
    hide Walk;
    hide AllocPage;
  }

  /** An allocated page is translated to the frame asked for, and other pages as before. */
  lemma AllocThenTranslate(s: Paging, virt: Address, phys: Address, flags: nat, a: Address)
    requires Shaped(s) && Wired(s) && s.active && flags % 2 == 1
    ensures var s' := AllocPage(s, virt, phys, flags);
            && Shaped(s') && Wired(s')
            && VirtualToPhysical(s', a) == (if a / 0x1000 == virt / 0x1000 then phys / 0x1000 * 0x1000 + a % 0x1000
                                            else VirtualToPhysical(s, a))
            && (IsMapped(s', a) <==> a / 0x1000 == virt / 0x1000 || IsMapped(s, a))
  {
    hide Walk;
    hide VirtualToPhysical;
    hide IsMapped;
    hide HasTable;
    var s' := AllocPage(s, virt, phys, flags);
    AllocPageShaped(s, virt, phys, flags);
    AllocPageWiredIff(s, virt, phys, flags);
    AllocPageWalk(s, virt, phys, flags, PageOf(a));
    assert s.tables[PdIndex(virt)].Some? <==> s.dir[PdIndex(virt)].present;
    LookupsAgree(s, a);
    LookupsAgree(s', a);
  }

  /** A released page is translated to nothing, and other pages as before. */
  lemma FreeThenTranslate(s: Paging, virt: Address, a: Address)
    requires Shaped(s) && Wired(s) && s.active
    ensures var s' := FreePage(s, virt);
            && Shaped(s') && Wired(s')
            && VirtualToPhysical(s', a) == (if a / 0x1000 == virt / 0x1000 then 0 else VirtualToPhysical(s, a))
            && (IsMapped(s', a) <==> a / 0x1000 != virt / 0x1000 && IsMapped(s, a))
            && (Freed(s, virt) <==> IsMapped(s, virt))
  {
    hide Walk;
    hide VirtualToPhysical;
    hide IsMapped;
    hide HasTable;
    hide Wired;
    var s' := FreePage(s, virt);
    FreePageWalk(s, virt, PageOf(a));
    FreePageWired(s, virt);
    LookupsAgree(s, virt);
    LookupsAgree(s, a);
    LookupsAgree(s', a);
  }

  /** While paging is off, nothing changes and addresses are physical. */
  lemma InactiveStays(s: Paging, op: Op, a: Address)
    requires Shaped(s) && !s.active
    ensures Step(s, op) == s && VirtualToPhysical(s, a) == a && !IsMapped(s, a)
  {
  }

  /** The pages of an identity mapping have the rights asked for as far as directory entries from before allow. */
  lemma {:induction false} IdentityMapRights(s: Paging, start: Address, end: Address, flags: nat, q: nat)
    requires Shaped(s) && Wired(s) && s.active && PresentFlag(flags) && LoopEnds(start, end) && q < PAGES
    ensures Walk(IdentityMap(s, start, end, flags), q)
         == if !Visited(start, end, q) then Walk(s, q)
            else
              var dir := if s.tables[q / ENTRIES].Some? then s.dir[q / ENTRIES].rights else RightsOf(flags);
              Some(Translation(q, Combine(dir, RightsOf(flags))))
    decreases ADDRESSES - start
  {
    hide Walk;
    if start <= end {
      var s1, p := AllocPage(s, start, start, flags), PageOf(start);
      AddressParts(start);
      AllocPageShaped(s, start, start, flags);
      AllocPageWiredIff(s, start, start, flags);
      AllocPageWalk(s, start, start, flags, q);
      DirAfter(s, start, flags, q / ENTRIES);
      assert s.tables[PdIndex(start)].Some? <==> s.dir[PdIndex(start)].present;
      hide AllocPage;
      hide RightsOf;
      NextAddress(start, end);
      IdentityMapRights(s1, start + PAGE_SIZE, end, flags, q);
    }
  }

  lemma DirAfter(s: Paging, virt: Address, flags: nat, k: nat)
    requires Shaped(s) && s.active && k < ENTRIES
    ensures var s' := AllocPage(s, virt, virt, flags);
            if s.tables[k].Some? || k != PdIndex(virt) then s'.dir[k] == s.dir[k] && s'.tables[k] == s.tables[k]
            else s'.dir[k].rights == RightsOf(flags) && s'.tables[k].Some?
  {
  }

  /** For an identity mapping into empty tables these are the flags' own. */
  lemma IdentityMapNumbers(s: Paging, start: Address, end: Address, flags: nat, q: nat)
    requires Shaped(s) && Wired(s) && s.active && flags % 2 == 1 && LoopEnds(start, end)
    requires q < PAGES && Visited(start, end, q) && s.tables[q / ENTRIES].None?
    ensures var found := Walk(IdentityMap(s, start, end, flags), q);
            found.Some? && found.value.frame == q && RightsAre(found.value.rights, flags)
  {
    hide Walk;
    hide IdentityMap;
    IdentityMapRights(s, start, end, flags, q);
  }
}
