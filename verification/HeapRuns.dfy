/** The calls of the heap as they are meant to be, and writes to payloads. */
module HeapRuns {
  import opened Options
  import opened Words
  import opened HeapModel
  import opened HeapProofs
  import opened HeapMerge

  // ---------------------------------------------------------------------------------------------
  // Events

  /** Calls, and writes of bytes to payloads. */
  datatype Op = MallocOp(size: nat) | FreeOp(block: nat) | WriteOp(at: nat, value: byte)

  ghost predicate Writable(h: Heap, x: nat)
    requires InArena(h)
  {
    exists i {:trigger InPayload(h, i, x)} :: 0 <= i < |h.path| && !At(h, i).free && InPayload(h, i, x)
  }

  ghost predicate Enabled(h: Heap, op: Op)
    requires InArena(h)
  {
    match op
    case MallocOp(size) => size < 0x1_0000_0000
    case FreeOp(i) => Freeable(h, i)
    case WriteOp(x, value) => x < HEAP_SIZE && Writable(h, x)
  }

  function Step(h: Heap, op: Op): Heap
    requires WellFormed(h) && Enabled(h, op)
  {
    match op
    case MallocOp(size) =>
      var k := FirstFit(h, 0, size);
      if size == 0 || k == |h.path| then h else MallocAt(h, k, size)
    case FreeOp(i) => FreeAt(h, i)
    case WriteOp(x, value) => Heap(h.mem[x := value], h.path)
  }

  lemma WriteKeeps(h: Heap, x: nat, value: byte)
    requires WellFormed(h) && x < HEAP_SIZE && Writable(h, x)
    ensures var h' := Heap(h.mem[x := value], h.path); WellFormed(h') && Live(h') == Live(h)
  {
    var i :| 0 <= i < |h.path| && !At(h, i).free && InPayload(h, i, x);
    assert h.path[i] + HEADER + At(h, i).size <= Until(h.path, i);
    PayloadWritten(h, h.mem[x := value], i, x, 1);
    SameLive(h, Heap(h.mem[x := value], h.path));
  }

  /** What one event does to the blocks in use. */
  lemma StepKeeps(h: Heap, op: Op, b: (nat, nat))
    requires WellFormed(h) && Enabled(h, op) && b in Live(h)
    requires op.FreeOp? ==> op.block < |h.path| && h.path[op.block] != b.0
    ensures WellFormed(Step(h, op)) && b in Live(Step(h, op))
    ensures forall x :: 0 <= x < HEAP_SIZE && InBlock(b, x) && !(op.WriteOp? && op.at == x) ==>
              Step(h, op).mem[x] == h.mem[x]
  {
    StepWellFormed(h, op);
    hide HeaderAt;
    match op
    case MallocOp(size) =>
      var k := FirstFit(h, 0, size);
      if size != 0 && k < |h.path| {
        MallocKeeps(h, k, size);
        KeptBlocks(h, MallocAt(h, k, size), None, Live(h));
      }
    case FreeOp(i) => FreeKeeps(h, i);
    case WriteOp(x, value) => WriteKeeps(h, x, value);
  }

  lemma StepWellFormed(h: Heap, op: Op)
    requires WellFormed(h) && Enabled(h, op)
    ensures WellFormed(Step(h, op))
  {
    hide HeaderAt;
    match op
    case MallocOp(size) =>
      var k := FirstFit(h, 0, size);
      if size != 0 && k < |h.path| {
        MallocKeeps(h, k, size);
      }
    case FreeOp(i) => FreeKeeps(h, i);
    case WriteOp(x, value) => WriteKeeps(h, x, value);
  }

  // ---------------------------------------------------------------------------------------------
  // Capacity

  /** The sizes of the first `k` blocks, headers included. */
  function SizesBefore(h: Heap, k: nat): nat
    requires InArena(h) && k <= |h.path|
  {
    if k == 0 then 0 else SizesBefore(h, k - 1) + HEADER + At(h, k - 1).size
  }

  /** All blocks together are no larger than the heap; memory given up by tight fits makes it an inequality. */
  lemma {:induction false} SizesFit(h: Heap, k: nat)
    requires WellFormed(h) && k <= |h.path|
    ensures SizesBefore(h, k) <= if k < |h.path| then h.path[k] else HEAP_SIZE
    decreases k
  {
    if k > 0 {
      SizesFit(h, k - 1);
      assert h.path[k - 1] + HEADER + At(h, k - 1).size <= Until(h.path, k - 1);
    }
  }

  /** The heap that `heap::init` sets up. */
  lemma InitialWellFormed()
    ensures WellFormed(Initial()) && Live(Initial()) == {}
  {
    var m := Zeros(HEAP_SIZE);
    SetSizeHeader(m, 0, HEAP_SIZE - HEADER);
    var m1 := SetSize(m, 0, HEAP_SIZE - HEADER);
    SetFreeHeader(m1, 0, true);
    var m2 := SetFree(m1, 0, true);
    SetNextHeader(m2, 0, 0);
    hide HeaderAt;
    assert At(Initial(), 0) == Header(HEAP_SIZE - HEADER, true, 0);
  }
}
