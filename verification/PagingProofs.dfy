/** Paging changes one page at a time, refines a partial map from pages to frames, and keeps the TLB coherent. */
module PagingProofs {
  import opened Options
  import opened PagingModel

  // ---------------------------------------------------------------------------------------------
  // Addresses

  /** An address is its directory index, its table index and its offset. */
  lemma AddressParts(v: Address)
    ensures v == PdIndex(v) * 0x40_0000 + PtIndex(v) * PAGE_SIZE + PageOffset(v)
    ensures PageOf(v) / ENTRIES == PdIndex(v) && PageOf(v) % ENTRIES == PtIndex(v)
  {
  }

  lemma SamePage(p: nat, q: nat)
    ensures p == q <==> p / ENTRIES == q / ENTRIES && p % ENTRIES == q % ENTRIES
  {
  }

  // ---------------------------------------------------------------------------------------------
  // One page changes

  lemma SetPageShaped(s: Paging, i: nat, j: nat, e: PageEntry)
    requires Shaped(s) && i < ENTRIES && j < ENTRIES && s.tables[i].Some? && e.address < PAGES
    ensures Shaped(SetPage(s, i, j, e))
  {
    var s' := SetPage(s, i, j, e);
    assert HasTable(s, i);
    forall k | 0 <= k < ENTRIES && s'.tables[k].Some?
      ensures HasTable(s', k)
    {
      assert HasTable(s, k);
    }
  }

  /** What the processor finds after a page entry has been set. */
  lemma SetPageWalk(s: Paging, i: nat, j: nat, e: PageEntry, q: nat)
    requires Shaped(s) && i < ENTRIES && j < ENTRIES && s.tables[i].Some? && e.address < PAGES && q < PAGES
    ensures Walk(SetPage(s, i, j, e), q)
            == if q / ENTRIES == i && q % ENTRIES == j then
                 if s.dir[i].present && e.present
                     then Some(Translation(e.address, Combine(s.dir[i].rights, e.rights))) else None
               else Walk(s, q)
  {
    assert HasTable(s, i);
    var k := q / ENTRIES;
    if s.dir[k].present {
      assert HasTable(s, k);
      assert k != i ==> s.supply[k] != s.supply[i];
    }
  }

  /** A fresh table maps nothing. */
  lemma WithTableWalk(s: Paging, i: nat, flags: nat, q: nat)
    requires Shaped(s) && i < ENTRIES && q < PAGES
    ensures Walk(WithTable(s, i, flags), q) == Walk(s, q)
  {
    var k := q / ENTRIES;
    if s.dir[k].present {
      assert HasTable(s, k);
      assert k != i ==> s.supply[k] != s.supply[i];
    }
  }

  /** The rights that the directory entry of a page has once the page has been allocated. */
  function DirRights(s: Paging, virt: Address, flags: nat): Rights
    requires Sized(s)
  {
    if s.tables[PdIndex(virt)].Some? then s.dir[PdIndex(virt)].rights else RightsOf(flags)
  }

  /** Whether an allocated page can be reached: its directory entry is, or becomes, present. */
  predicate Reachable(s: Paging, virt: Address, flags: nat)
    requires Sized(s)
  {
    if s.tables[PdIndex(virt)].Some? then s.dir[PdIndex(virt)].present else PresentFlag(flags)
  }

  /** Allocating a page changes what the processor finds for that page and for no other. */
  lemma AllocPageWalk(s: Paging, virt: Address, phys: Address, flags: nat, q: nat)
    requires Shaped(s) && s.active && q < PAGES
    ensures var s' := AllocPage(s, virt, phys, flags);
            Walk(s', q) == if q != PageOf(virt) then Walk(s, q)
                           else if PresentFlag(flags) && Reachable(s, virt, flags)
                           then
                             Some(Translation(PhysToFrame(phys), Combine(DirRights(s, virt, flags), RightsOf(flags))))
                           else None
  {
    hide Walk;
    hide HasTable;
    var i, j := PdIndex(virt), PtIndex(virt);
    AddressParts(virt);
    SamePage(q, PageOf(virt));
    WithTableShaped(s, i, flags);
    WithTableWalk(s, i, flags, q);
    SetPageWalk(WithTable(s, i, flags), i, j, NewPageEntry(flags, phys), q);
  }

  /** A present page gets the rights asked for exactly if the first page of its table was given them too. */
  lemma RightsAsAskedIff(s: Paging, virt: Address, phys: Address, flags: nat)
    requires Shaped(s) && s.active && PresentFlag(flags) && Reachable(s, virt, flags)
    ensures Walk(AllocPage(s, virt, phys, flags), PageOf(virt)) == Some(Translation(PhysToFrame(phys), RightsOf(flags)))
            <==> s.tables[PdIndex(virt)].Some? ==>
                   (RightsOf(flags).writable ==> s.dir[PdIndex(virt)].rights.writable)
                   && (RightsOf(flags).user ==> s.dir[PdIndex(virt)].rights.user)
  {
    hide Walk;
    hide AllocPage;
    AllocPageWalk(s, virt, phys, flags, PageOf(virt));
  }

  lemma AllocPageShaped(s: Paging, virt: Address, phys: Address, flags: nat)
    requires Shaped(s)
    ensures Shaped(AllocPage(s, virt, phys, flags))
  {
    if s.active {
      WithTableShaped(s, PdIndex(virt), flags);
      SetPageShaped(WithTable(s, PdIndex(virt), flags), PdIndex(virt), PtIndex(virt), NewPageEntry(flags, phys));
    }
  }

  /** Freeing a page removes that page and no other, and succeeds exactly if the tables had it. */
  lemma FreePageWalk(s: Paging, virt: Address, q: nat)
    requires Shaped(s) && s.active && q < PAGES
    ensures Shaped(FreePage(s, virt))
    ensures Walk(FreePage(s, virt), q) == if q != PageOf(virt) then Walk(s, q) else None
    ensures Wired(s) ==> (Freed(s, virt) <==> Walk(s, PageOf(virt)).Some?)
  {
    var i, j := PdIndex(virt), PtIndex(virt);
    AddressParts(virt);
    SamePage(q, PageOf(virt));
    HasPageWalk(s, virt);
    if HasPage(s, virt) {
      assert HasTable(s, i);
      var e := s.memory[s.tables[i].value][j].(present := false);
      hide HasPage;
      SetPageShaped(s, i, j, e);
      SetPageWalk(s, i, j, e, q);
    }
  }

  /** The kernel's tables and the processor agree on a page, unless its directory entry is not present. */
  lemma HasPageWalk(s: Paging, virt: Address)
    requires Shaped(s)
    ensures Walk(s, PageOf(virt)).Some? <==> HasPage(s, virt) && s.dir[PdIndex(virt)].present
    ensures HasTable?(s, virt) && Walk(s, PageOf(virt)).Some? ==>
              var entry := s.memory[s.tables[PdIndex(virt)].value][PtIndex(virt)];
              Walk(s, PageOf(virt)).value.frame == entry.address < PAGES
  {
    AddressParts(virt);
    var i := PdIndex(virt);
    if s.tables[i].Some? {
      assert HasTable(s, i);
    }
  }

  predicate HasTable?(s: Paging, virt: Address)
    requires Shaped(s)
  {
    s.tables[PdIndex(virt)].Some? && (assert HasTable(s, PdIndex(virt)); true)
  }

  // ---------------------------------------------------------------------------------------------
  // Exactly when the tables stay wired

  /** Only a first page without the present flag leaves a table behind a directory entry that is not present. */
  lemma AllocPageWiredIff(s: Paging, virt: Address, phys: Address, flags: nat)
    requires Shaped(s) && Wired(s) && s.active
    ensures Wired(AllocPage(s, virt, phys, flags)) <==> PresentFlag(flags) || s.tables[PdIndex(virt)].Some?
  {
    var i, s' := PdIndex(virt), AllocPage(s, virt, phys, flags);
    assert s.tables[i].Some? <==> s.dir[i].present;
    assert s'.tables[i].Some? && (s'.dir[i].present <==> s.dir[i].present || (s.tables[i].None? && PresentFlag(flags)));
    assert forall k :: 0 <= k < ENTRIES && k != i ==> s'.tables[k] == s.tables[k] && s'.dir[k] == s.dir[k];
  }

  lemma FreePageWired(s: Paging, virt: Address)
    requires Shaped(s) && Wired(s)
    ensures Wired(FreePage(s, virt))
  {
  }

  /** On wired tables the kernel's look-ups tell what the processor would find. */
  lemma LookupsAgree(s: Paging, virt: Address)
    requires Shaped(s) && Wired(s) && s.active
    ensures IsMapped(s, virt) <==> Walk(s, PageOf(virt)).Some?
    ensures match Walk(s, PageOf(virt))
            case Some(t) => t.frame < PAGES && VirtualToPhysical(s, virt) == FrameToPhys(t.frame) + PageOffset(virt)
            case None => VirtualToPhysical(s, virt) == 0
  {
    HasPageWalk(s, virt);
    assert s.tables[PdIndex(virt)].Some? <==> s.dir[PdIndex(virt)].present;
    if HasPage(s, virt) {
      assert HasTable?(s, virt);
    }
  }

  /** The offset carries over: within a page, addresses keep their distance. */
  lemma OffsetsCarryOver(s: Paging, virt: Address, off: nat)
    requires Shaped(s) && virt % PAGE_SIZE == 0 && off < PAGE_SIZE && virt + off < ADDRESSES
    requires HasPage(s, virt)
    ensures VirtualToPhysical(s, virt + off) == VirtualToPhysical(s, virt) + off
  {
    AddressParts(virt);
    AddressParts(virt + off);
    assert PageOf(virt + off) == PageOf(virt);
  }

  /** Zero stands for "not mapped" and for the first byte of the physical memory alike. */
  lemma ZeroIsAmbiguousIff(s: Paging, virt: Address)
    requires Shaped(s) && Wired(s) && s.active
    ensures VirtualToPhysical(s, virt) == 0 <==>
              (Walk(s, PageOf(virt)).None? || (Walk(s, PageOf(virt)).value.frame == 0 && PageOffset(virt) == 0))
  {
    LookupsAgree(s, virt);
  }

  // ---------------------------------------------------------------------------------------------
  // A partial map from pages to frames

  /** What the processor finds, as a map. */
  ghost function Frames(s: Paging): map<nat, nat>
    requires Sized(s)
  {
    map p: nat | p < PAGES && Walk(s, p).Some? :: Walk(s, p).value.frame
  }

  datatype Op = AllocOp(virt: Address, phys: Address, flags: nat) | FreeOp(virt: Address)

  function Step(s: Paging, op: Op): (s': Paging)
    requires Shaped(s)
    ensures Sized(s')
  {
    match op
    case AllocOp(virt, phys, flags) => AllocPage(s, virt, phys, flags)
    case FreeOp(virt) => FreePage(s, virt)
  }

  /** The same operation on a plain map. */
  function MapStep(m: map<nat, nat>, op: Op): map<nat, nat>
  {
    match op
    case AllocOp(virt, phys, flags) => m[PageOf(virt) := PhysToFrame(phys)]
    case FreeOp(virt) => m - {PageOf(virt)}
  }

  predicate MapsPresent(op: Op) { op.AllocOp? ==> PresentFlag(op.flags) }

  lemma StepRefines(s: Paging, op: Op)
    requires Shaped(s) && Wired(s) && s.active && MapsPresent(op)
    ensures var s' := Step(s, op);
            && Shaped(s') && Wired(s') && s'.active && Frames(s') == MapStep(Frames(s), op)
  {
    hide Walk;
    hide HasTable;
    var s' := Step(s, op);
    match op
    case AllocOp(virt, phys, flags) =>
      AllocPageShaped(s, virt, phys, flags);
      AllocPageWiredIff(s, virt, phys, flags);
      assert s.tables[PdIndex(virt)].Some? <==> s.dir[PdIndex(virt)].present;
      forall q: nat | q < PAGES
        ensures Walk(s', q) == Walk(s, q) || (q == PageOf(virt) && Walk(s', q).Some?
                && Walk(s', q).value.frame == PhysToFrame(phys))
        ensures q == PageOf(virt) ==> Walk(s', q).Some? && Walk(s', q).value.frame == PhysToFrame(phys)
      {
        AllocPageWalk(s, virt, phys, flags, q);
      }
      assert Frames(s') == MapStep(Frames(s), op);
    case FreeOp(virt) =>
      FreePageWired(s, virt);
      FreePageWalk(s, virt, 0);
      forall q: nat | q < PAGES
        ensures Walk(s', q) == if q == PageOf(virt) then None else Walk(s, q)
      {
        FreePageWalk(s, virt, q);
      }
      assert Frames(s') == MapStep(Frames(s), op);
  }

  ghost function Run(s: Paging, ops: seq<Op>): (s': Paging)
    requires Sized(s)
    ensures Sized(s')
    decreases |ops|
  {
    if ops == [] || !Shaped(s) then s else Run(Step(s, ops[0]), ops[1..])
  }

  function MapRun(m: map<nat, nat>, ops: seq<Op>): map<nat, nat>
    decreases |ops|
  {
    if ops == [] then m else MapRun(MapStep(m, ops[0]), ops[1..])
  }

  /** In every run of allocations with the present flag and releases the two levels behave like one map. */
  lemma {:induction false} RunRefines(s: Paging, ops: seq<Op>)
    requires Shaped(s) && Wired(s) && s.active && forall k :: 0 <= k < |ops| ==> MapsPresent(ops[k])
    ensures Shaped(Run(s, ops)) && Wired(Run(s, ops)) && Frames(Run(s, ops)) == MapRun(Frames(s), ops)
    decreases |ops|
  {
    if ops != [] {
      assert MapsPresent(ops[0]);
      StepRefines(s, ops[0]);
      hide Frames;
      hide Step;
      hide MapStep;
      hide Wired;
      RunRefines(Step(s, ops[0]), ops[1..]);
    }
  }

  // ---------------------------------------------------------------------------------------------
  // The translation look-aside buffer

  /** The paging structures and the translations that the processor has cached. */
  datatype Cpu = Cpu(paging: Paging, tlb: map<nat, Translation>)

  /** The processor may cache or drop a translation at any time; the kernel's calls end with `invlpg`. */
  datatype CpuStep = Load(p: nat) | Evict(p: nat) | Kernel(op: Op)

  ghost function CpuNext(c: Cpu, step: CpuStep): Cpu
    requires Shaped(c.paging)
  {
    match step
    case Load(p) => if p < PAGES && Walk(c.paging, p).Some? && p !in c.tlb
        then c.(tlb := c.tlb[p := Walk(c.paging, p).value]) else c
    case Evict(p) => c.(tlb := c.tlb - {p})
    case Kernel(op) =>
      var s' := Step(c.paging, op);
      Cpu(s', if c.paging.active && (op.FreeOp? ==> Freed(c.paging, op.virt)) then c.tlb - {PageOf(op.virt)} else c.tlb)
  }

  /** Every cached translation is what a walk would find. */
  ghost predicate Coherent(c: Cpu)
    requires Sized(c.paging)
  {
    forall p :: p in c.tlb ==> p < PAGES && Walk(c.paging, p) == Some(c.tlb[p])
  }

  /** How the processor translates a page: from the buffer if it can. */
  function Translate(c: Cpu, p: nat): Option<Translation>
    requires Sized(c.paging) && p < PAGES
  {
    if p in c.tlb then Some(c.tlb[p]) else Walk(c.paging, p)
  }

  lemma CpuStepCoherent(c: Cpu, step: CpuStep)
    requires Shaped(c.paging) && Coherent(c)
    ensures Shaped(CpuNext(c, step).paging) && Coherent(CpuNext(c, step))
  {
    hide Walk;
    hide HasTable;
    var c' := CpuNext(c, step);
    if step.Kernel? {
      var s, op := c.paging, step.op;
      KernelShaped(s, op);
      forall p | p in c'.tlb
        ensures p < PAGES && Walk(c'.paging, p) == Some(c'.tlb[p])
      {
        KernelWalk(s, op, p);
      }
    }
  }

  lemma KernelShaped(s: Paging, op: Op)
    requires Shaped(s)
    ensures Shaped(Step(s, op))
  {
    match op
    case AllocOp(virt, phys, flags) => AllocPageShaped(s, virt, phys, flags);
    case FreeOp(virt) => if s.active { FreePageWalk(s, virt, 0); }
  }

  /** A page is left alone by calls for other pages, by calls while paging is off, and by releases that fail. */
  lemma KernelWalk(s: Paging, op: Op, p: nat)
    requires Shaped(s) && p < PAGES
    requires p != PageOf(op.virt) || !s.active || (op.FreeOp? && !Freed(s, op.virt))
    ensures Walk(Step(s, op), p) == Walk(s, p)
  {
    hide Walk;
    if s.active {
      match op
      case AllocOp(virt, phys, flags) => AllocPageWalk(s, virt, phys, flags, p);
      case FreeOp(virt) => if p != PageOf(virt) { FreePageWalk(s, virt, p); }
    }
  }

  ghost function CpuRun(c: Cpu, steps: seq<CpuStep>): Cpu
    decreases |steps|
  {
    if steps == [] || !Shaped(c.paging) then c else CpuRun(CpuNext(c, steps[0]), steps[1..])
  }

  /** Whatever the processor caches and when, its translations are those of the tables. */
  lemma {:induction false} TlbInvisible(c: Cpu, steps: seq<CpuStep>, p: nat)
    requires Shaped(c.paging) && Coherent(c) && p < PAGES
    ensures var c' := CpuRun(c, steps); Shaped(c'.paging) && Coherent(c') && Translate(c', p) == Walk(c'.paging, p)
    decreases |steps|
  {
    if steps != [] {
      CpuStepCoherent(c, steps[0]);
      hide Coherent;
      hide CpuNext;
      TlbInvisible(CpuNext(c, steps[0]), steps[1..], p);
    }
  }

  // ---------------------------------------------------------------------------------------------
  // Identity mapping a region

  /** The `n`-th address of the loop, in 32 bits. */
  function LoopAddress(start: Address, n: nat): Address { (start + n * PAGE_SIZE) % ADDRESSES }

  /** The highest address that the loop can reach before it wraps around. */
  function LastAddress(start: Address): Address { ADDRESSES - PAGE_SIZE + start % PAGE_SIZE }

  predicate LoopEnds(start: Address, end: Address) { end < LastAddress(start) }

  /** The loop ends exactly if the end lies below the highest address it can reach. */
  lemma LoopEndsIff(start: Address, end: Address)
    ensures (exists n: nat :: LoopAddress(start, n) > end) <==> LoopEnds(start, end)
  {
    var last := LastAddress(start);
    if LoopEnds(start, end) {
      var n := (last - start) / PAGE_SIZE;
      assert LoopAddress(start, n) == last;
    }
    if n: nat :| LoopAddress(start, n) > end {
      LoopAddressBound(start, n);
    }
  }

  lemma LoopAddressBound(start: Address, n: nat)
    ensures LoopAddress(start, n) <= LastAddress(start)
  {
    var a := LoopAddress(start, n);
    assert a % PAGE_SIZE == start % PAGE_SIZE;
  }

  /** The region mapped page by page. */
  function IdentityMap(s: Paging, start: Address, end: Address, flags: nat): (s': Paging)
    requires Shaped(s) && LoopEnds(start, end)
    ensures Shaped(s')
    decreases ADDRESSES - start
  {
    if start > end then s
    else
      AllocPageShaped(s, start, start, flags);
      NextAddress(start, end);
      IdentityMap(AllocPage(s, start, start, flags), start + PAGE_SIZE, end, flags)
  }

  lemma NextAddress(start: Address, end: Address)
    requires start <= end && LoopEnds(start, end)
    ensures start + PAGE_SIZE < ADDRESSES && LoopEnds(start + PAGE_SIZE, end)
    ensures PageOf(start + PAGE_SIZE) == PageOf(start) + 1
  {
  }

  /** The pages that the loop visits. */
  predicate Visited(start: Address, end: Address, q: nat)
  {
    PageOf(start) <= q && start + (q - PageOf(start)) * PAGE_SIZE <= end
  }

  /** Afterwards the visited pages are mapped to the frames of the same number, and no other page has changed. */
  lemma {:induction false} IdentityMapFrames(s: Paging, start: Address, end: Address, flags: nat, q: nat)
    requires Shaped(s) && Wired(s) && s.active && PresentFlag(flags) && LoopEnds(start, end)
    ensures var s' := IdentityMap(s, start, end, flags);
            && Wired(s') && s'.active
            && (q in Frames(s') <==> Visited(start, end, q) || q in Frames(s))
            && (q in Frames(s') ==> Frames(s')[q] == if Visited(start, end, q) then q else Frames(s)[q])
    decreases ADDRESSES - start
  {
    hide Frames;
    hide Walk;
    hide AllocPage;
    if start <= end {
      var s1 := AllocPage(s, start, start, flags);
      assert s1 == Step(s, AllocOp(start, start, flags));
      StepRefines(s, AllocOp(start, start, flags));
      NextAddress(start, end);
      IdentityMapFrames(s1, start + PAGE_SIZE, end, flags, q);
    }
  }

  /** The whole region is mapped exactly if its start lies no further into its page than its end does. */
  lemma RegionCoveredIff(start: Address, end: Address)
    requires start <= end
    ensures (forall a: Address :: start <= a <= end ==> Visited(start, end, PageOf(a))) <==>
            PageOffset(start) <= PageOffset(end)
  {
    if PageOffset(start) <= PageOffset(end) {
      forall a: Address | start <= a <= end
        ensures Visited(start, end, PageOf(a))
      {
      }
    } else {
      assert !Visited(start, end, PageOf(end));
    }
  }
}
