/** A run in which `kfree` takes the size of a block in use. */
module HeapFault {
  import opened Options
  import opened Words
  import opened HeapModel
  import opened HeapProofs
  import opened HeapMerge
  import opened HeapReentry
  import opened HeapRefine
  import opened HeapFree
  import opened HeapQuiet
  import opened HeapKept
  import opened HeapRuns
  import opened HeapCoded
  import opened HeapAllocator

  const SIZE: nat := 16
  const STEP: nat := HEADER + SIZE

  /** After `heap::init`, `n` blocks of sixteen bytes were allocated, and nothing was written behind the headers. */
  ghost predicate Taken(h: Heap, n: nat)
  {
    && n < 4 && WellFormed(h) && |h.path| == n + 1
    && (forall j :: 0 <= j <= n ==> h.path[j] == STEP * j)
    && (forall j :: 0 <= j < n ==> At(h, j) == Header(SIZE, false, HEAP_START + STEP * (j + 1)))
    && At(h, n) == Header(HEAP_SIZE - HEADER - STEP * n, true, 0)
    && forall x {:trigger h.mem[x]} :: 0 <= x < HEAP_SIZE && x % STEP >= HEADER ==> h.mem[x] == 0
  }

  lemma InitialTaken()
    ensures Taken(Initial(), 0)
  {
    var m := Zeros(HEAP_SIZE);
    InitialWellFormed();
    SetSizeHeader(m, 0, HEAP_SIZE - HEADER);
    var m1 := SetSize(m, 0, HEAP_SIZE - HEADER);
    SetFreeHeader(m1, 0, true);
    var m2 := SetFree(m1, 0, true);
    SetNextHeader(m2, 0, 0);
    hide HeaderAt;
    hide Store;
    hide WellFormed;
  }

  lemma TakeNext(h: Heap, n: nat)
    requires Taken(h, n) && n < 3
    ensures FirstFit(h, 0, SIZE) == n && Step(h, MallocOp(SIZE)) == MallocAt(h, n, SIZE)
    ensures Taken(Step(h, MallocOp(SIZE)), n + 1)
  {
    hide HeaderAt;
    StepWellFormed(h, MallocOp(SIZE));
    var h' := MallocAt(h, n, SIZE);
    FitsLast(h, n, 0);
    MallocDivides(h, n, SIZE);
    DividedBytes(h, n, SIZE);
    hide MallocAt;
    hide WellFormed;
    assert h.path[n] == STEP * n && h'.path[n + 1] == STEP * (n + 1);
    forall x | 0 <= x < HEAP_SIZE && x % STEP >= HEADER
      ensures h'.mem[x] == 0
    {
      assert x / STEP == n ==> x >= STEP * n + HEADER;
    }
  }

  lemma {:induction false} FitsLast(h: Heap, n: nat, i: nat)
    requires Taken(h, n) && n < 3 && i <= n
    ensures FirstFit(h, i, SIZE) == n
    decreases n - i
  {
    hide HeaderAt;
    hide WellFormed;
    if i < n {
      FitsLast(h, n, i + 1);
    }
  }

  /** A list of which no two neighbours are free is walked without merging. */
  lemma {:induction false} NothingMerged(h: Heap, i: nat)
    requires WellFormed(h) && i <= |h.path| && NoFreeNeighbours(h)
    ensures MergePass(h, i) == h && FirstHit(h, i) == None
    decreases |h.path| - i
  {
    if i < |h.path| {
      assert !BothFree(h, i);
      NothingMerged(h, i + 1);
    }
  }

  /** Then the first of the three blocks is freed. */
  lemma FirstFreed(h: Heap)
    requires Taken(h, 3)
    ensures Freeable(h, 0) && Quiet(h, 0) && WellFormed(FreeAt(h, 0)) && FreeAt(h, 0).path == h.path
    ensures var h' := FreeAt(h, 0);
            && At(h', 0).free && (forall j :: 1 <= j <= 3 ==> At(h', j) == At(h, j)) && h'.mem[48] == 0
  {
    hide HeaderAt;
    hide Store;
    assert Freeable(h, 0);
    var marked := Marked(h, 0);
    MarkedWellFormed(h, 0);
    MarkedNodes(h, 0);
    assert NoFreeNeighbours(marked);
    NothingMerged(marked, 0);
    StoreLoad(marked.mem, HEADER, 0);
    PayloadWritten(marked, Store(marked.mem, HEADER, 0), 0, HEADER, 4);
    assert marked.mem[48] == h.mem[48] by {
      assert 48 % STEP >= HEADER;
    }
  }

  /** `kmalloc` or `kcalloc` of sixteen bytes three times, and the first block freed again. */
  function Calls(): seq<Op> { [MallocOp(SIZE), MallocOp(SIZE), MallocOp(SIZE), FreeOp(0)] }

  /** All these calls do what they are for. */
  lemma CallsRun() returns (h: Heap)
    ensures WellFormed(Initial()) && CanRun(Initial(), Calls()) && h == Run(Initial(), Calls())
    ensures RoomyFree(h, 1) && NoFreeNeighbours(h) && Doomed(h, 1) && |h.path| == 4 && h.path[2] == 56
    ensures At(h, 2) == Header(SIZE, false, HEAP_START + 84) && At(h, 0).free && !At(h, 1).free
  {
    hide HeaderAt;
    hide FreeAt;
    hide MallocAt;
    hide Initial;
    hide Quiet;
    hide Yields;
    InitialTaken();
    var h0 := Initial();
    TakeNext(h0, 0);
    var h1 := Step(h0, MallocOp(SIZE));
    TakeNext(h1, 1);
    var h2 := Step(h1, MallocOp(SIZE));
    TakeNext(h2, 2);
    var h3 := Step(h2, MallocOp(SIZE));
    FirstFreed(h3);
    h := FreeAt(h3, 0);
    assert CodedFree(h3, 0) == h;
    hide WellFormed;
    assert CanRun(h, []);
    assert Calls()[1..][1..] == [MallocOp(SIZE), FreeOp(0)] && Calls()[1..][1..][1..] == [FreeOp(0)];
    ReadyToBreak(h3, h);
  }

  lemma ReadyToBreak(h3: Heap, h: Heap)
    requires Taken(h3, 3) && WellFormed(h) && h.path == h3.path && At(h, 0).free && h.mem[48] == 0
    requires forall j :: 1 <= j <= 3 ==> At(h, j) == At(h3, j)
    ensures RoomyFree(h, 1) && NoFreeNeighbours(h) && Doomed(h, 1) && h.path[2] == 56
    ensures At(h, 2) == Header(SIZE, false, HEAP_START + 84) && !At(h, 1).free
  {
    hide HeaderAt;
  }

  /** Freeing the second block as well takes the size of the third. */
  lemma LastFreed(h: Heap, m': Arena)
    requires RoomyFree(h, 1) && NoFreeNeighbours(h) && Doomed(h, 1) && |h.path| == 4 && At(h, 0).free
    requires !At(h, 1).free && !At(h, 2).free && Yields(h.mem, PtrOf(h, 1), m')
    ensures !Quiet(h, 1) && HeaderAt(m', h.path[2]) == At(h, 2).(size := 0)
  {
    hide HeaderAt;
    hide Yields;
    hide Marked;
    hide Peek;
    hide RoomyFree;
    RoomyParts(h, 1);
    hide Lost;
    hide Quiet;
    LostBefore(h, 1, 2);
    QuietIff(h, 1);
    OtherBlock(h, 1, m', 2);
  }

  /**
   Freeing the second block returns, and the third one, which is in use, then has the size 0: the re-entrant call for
   its header took a byte of the second block's payload for the free flag.
   */
  lemma ThirdBlockLosesItsSize()
    ensures WellFormed(Initial()) && CanRun(Initial(), Calls())
    ensures var h := Run(Initial(), Calls());
            && Permitted(h, FreeOp(1)) && (56, SIZE) in Live(h) && h.path[1] != 56
            && LosesNow(h, FreeOp(1), 56) && Load(CodedStep(h, FreeOp(1)).mem, 56) == 0
  {
    var h := CallsRun();
    hide HeaderAt;
    hide Yields;
    hide Run;
    hide CanRun;
    hide Marked;
    hide Peek;
    hide RoomyFree;
    hide Quiet;
    hide Lost;
    RoomyParts(h, 1);
    assert (h.path[2], At(h, 2).size) in Live(h);
    LostBefore(h, 1, 2);
    QuietIff(h, 1);
    var m' := CodedFree(h, 1).mem;
    LastFreed(h, m');
    HeaderSize(m', 56);
  }

  /** `kcalloc` clears bytes that are 0 already. */
  lemma ClearedAgain(h: Heap, n: nat, m: Arena)
    requires Taken(h, n + 1)
    requires forall x :: 0 <= x < HEAP_SIZE ==> m[x] == if InPayload(h, n, x) then 0 else h.mem[x]
    ensures Heap(m, h.path) == h
  {
    hide WellFormed;
    hide HeaderAt;
    forall x | 0 <= x < HEAP_SIZE && InPayload(h, n, x)
      ensures h.mem[x] == 0
    {
      assert STEP * n + HEADER <= x < STEP * (n + 1);
      assert x % STEP == x - STEP * n;
    }
    assert m == h.mem;
  }

  method Calloc16(heap: KernelHeap, ghost n: nat) returns (ptr: nat)
    requires heap.Valid() && Taken(heap.View(), n) && n < 3
    modifies heap, heap.mem
    ensures heap.Valid() && heap.View() == Step(old(heap.View()), MallocOp(SIZE)) && Taken(heap.View(), n + 1)
    ensures ptr == PtrOf(heap.View(), n)
  {
    hide HeaderAt;
    hide Load;
    hide Store;
    hide FirstFit;
    hide MallocAt;
    TakeNext(heap.View(), n);
    ghost var h := Step(heap.View(), MallocOp(SIZE));
    ptr := heap.KCalloc(1, SIZE);
    ClearedAgain(h, n, heap.mem[..]);
  }

  /** The same run on the heap itself: the size of the third block before and after the second one is freed. */
  method SizeLost() returns (before: nat, after: nat)
    ensures before == SIZE && after == 0
  {
    hide Load;
    hide Store;
    hide Yields;
    hide FreeAt;
    hide Quiet;
    hide RoomyFree;
    hide Doomed;
    var heap := new KernelHeap();
    InitialTaken();
    var a := Calloc16(heap, 0);
    var b := Calloc16(heap, 1);
    var c := Calloc16(heap, 2);
    ghost var h3 := heap.View();
    FirstFreed(h3);
    QuietFree(h3, 0);
    heap.KFree(a, 0);
    ReadyToBreak(h3, heap.View());
    ghost var h := heap.View();
    FreeReturns(h, 1);
    before := heap.GetWord(c - HEADER - HEAP_START);
    heap.KFree(b, 1);
    LastFreed(h, heap.mem[..]);
    after := heap.GetWord(c - HEADER - HEAP_START);
  }

  // ---------------------------------------------------------------------------------------------
  // A block of fewer than four bytes

  /** `kfree` without anything to merge, for a block of any size. */
  lemma PlainFree(h: Heap, i: nat)
    requires WellFormed(h) && i < |h.path| && h.path[i] + HEADER + 4 <= HEAP_SIZE && !At(h, i).free
    requires WellFormed(Marked(h, i)) && NoFreeNeighbours(Marked(h, i))
    ensures Yields(h.mem, PtrOf(h, i), Store(Marked(h, i).mem, h.path[i] + HEADER, 0))
  {
    NothingMerged(Marked(h, i), 0);
    QuietWalk(Marked(h, i), 0, |h.path|);
    hide Walk;
    hide MergePass;
    hide Store;
    assert Kfree(h.mem, PtrOf(h, i), |h.path| + 1) == Some(Store(Marked(h, i).mem, h.path[i] + HEADER, 0));
  }

  function TinyCalls(): seq<Op> { [MallocOp(1), MallocOp(SIZE)] }

  /** One byte and sixteen bytes are allocated. */
  lemma TinyRun() returns (h: Heap)
    ensures WellFormed(Initial()) && CanRun(Initial(), TinyCalls()) && h == Run(Initial(), TinyCalls()) && WellFormed(h)
    ensures h.path == [0, 13, 41] && At(h, 0) == Header(1, false, HEAP_START + 13)
    ensures At(h, 1) == Header(SIZE, false, HEAP_START + 41) && At(h, 2).free
  {
    hide HeaderAt;
    hide MallocAt;
    InitialTaken();
    var h0 := Initial();
    hide Initial;
    MallocDivides(h0, 0, 1);
    StepWellFormed(h0, MallocOp(1));
    assert FirstFit(h0, 0, 1) == 0;
    var h1 := MallocAt(h0, 0, 1);
    MallocDivides(h1, 1, SIZE);
    StepWellFormed(h1, MallocOp(SIZE));
    assert FirstFit(h1, 0, SIZE) == 1 by {
      assert FirstFit(h1, 1, SIZE) == 1;
    }
    h := MallocAt(h1, 1, SIZE);
    assert CodedStep(h0, MallocOp(1)) == h1 && CodedStep(h1, MallocOp(SIZE)) == h;
    assert CanRun(h, []) && TinyCalls()[1..] == [MallocOp(SIZE)] && TinyCalls()[1..][1..] == [];
    assert Run(h1, TinyCalls()[1..]) == h;
  }

  /** Freeing the block of one byte takes the size of the one behind: the cleared word reaches into its header. */
  lemma TinyBlockTakesASize()
    ensures WellFormed(Initial()) && CanRun(Initial(), TinyCalls())
    ensures var h := Run(Initial(), TinyCalls());
            && |h.path| > 1 && !Freeable(h, 0) && h.path[1] == 13 && At(h, 1).size == SIZE && !At(h, 1).free
            && (exists m' :: Yields(h.mem, PtrOf(h, 0), m'))
            && forall m' :: Yields(h.mem, PtrOf(h, 0), m') ==> Load(m', 13) == 0
  {
    var h := TinyRun();
    hide Run;
    hide CanRun;
    hide Yields;
    MarkedWellFormed(h, 0);
    MarkedNodes(h, 0);
    TinyLoad(h);
    hide HeaderAt;
    PlainFree(h, 0);
    forall m' | Yields(h.mem, PtrOf(h, 0), m')
      ensures Load(m', 13) == 0
    {
      YieldsOne(h.mem, PtrOf(h, 0), m', Store(Marked(h, 0).mem, HEADER, 0));
    }
  }

  lemma TinyLoad(h: Heap)
    requires WellFormed(h) && |h.path| > 1 && h.path[0] == 0 && Load(h.mem, 13) == SIZE
    ensures Load(Store(Marked(h, 0).mem, HEADER, 0), 13) == 0
  {
    StoreLoad(Marked(h, 0).mem, HEADER, 0);
    hide Store;
  }
}
