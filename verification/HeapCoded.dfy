/** Runs of heap calls as the code has them, with the nested calls of `kfree`. */
module HeapCoded {
  import opened Options
  import opened Words
  import opened HeapModel
  import opened HeapProofs
  import opened HeapMerge
  import opened HeapReentry
  import opened HeapCells
  import opened HeapRefine
  import opened HeapFree
  import opened HeapRuns

  /** The `j`-th block is in use and lies at `p`, and the byte `x` lies before the next header. */
  ghost predicate OwnsAt(h: Heap, j: nat, p: nat, x: nat)
    requires InArena(h)
  {
    j < |h.path| && !At(h, j).free && h.path[j] == p && p + HEADER <= x < Until(h.path, j) && x < HEAP_SIZE
  }

  ghost predicate Owns(h: Heap, p: nat, x: nat)
    requires InArena(h)
  {
    exists j :: OwnsAt(h, j, p, x)
  }

  /**
   Events that may happen: writes to bytes that blocks in use own, also where the size is lost, and releases that
   meet no byte that is 0 or find at least eight bytes in each free block.
   */
  ghost predicate Permitted(h: Heap, op: Op)
    requires WellFormed(h)
  {
    match op
    case MallocOp(size) => size < 0x1_0000_0000
    case FreeOp(i) => Freeable(h, i) && (Quiet(h, i) || RoomyFree(h, i))
    case WriteOp(x, value) => x < HEAP_SIZE && exists p :: Owns(h, p, x)
  }

  /** The list after `kfree` with its nested calls. */
  ghost function CodedFree(h: Heap, i: nat): (h': Heap)
    requires WellFormed(h) && Freeable(h, i) && (Quiet(h, i) || RoomyFree(h, i))
    ensures WellFormed(h') && Yields(h.mem, PtrOf(h, i), h'.mem)
  {
    if Quiet(h, i) then
      QuietFree(h, i);
      FreeKeeps(h, i);
      FreeAt(h, i)
    else
      FreeReturns(h, i);
      var m' :| Yields(h.mem, PtrOf(h, i), m');
      FreedOnly(h, i, m');
      FreedInOrder(h, i, m');
      FreedList(h, i, m')
  }

  ghost function CodedStep(h: Heap, op: Op): (h': Heap)
    requires WellFormed(h) && Permitted(h, op)
    ensures WellFormed(h')
  {
    match op
    case MallocOp(size) =>
      StepWellFormed(h, op);
      Step(h, op)
    case FreeOp(i) => CodedFree(h, i)
    case WriteOp(x, value) =>
      OwnedWritten(h, x, value);
      Heap(h.mem[x := value], h.path)
  }

  /** A write to a byte that a block in use owns changes no header. */
  lemma OwnedWritten(h: Heap, x: nat, value: byte)
    requires WellFormed(h) && x < HEAP_SIZE && exists p :: Owns(h, p, x)
    ensures var h' := Heap(h.mem[x := value], h.path);
            WellFormed(h') && forall j :: 0 <= j < |h.path| ==> At(h', j) == At(h, j)
  {
    var p :| Owns(h, p, x);
    var j :| OwnsAt(h, j, p, x);
    PayloadWritten(h, h.mem[x := value], j, x, 1);
  }

  // ---------------------------------------------------------------------------------------------
  // What one event leaves alone

  /** The block still owns the byte, which has its value, and has its size or none. */
  ghost predicate Untouched(h: Heap, h': Heap, p: nat, x: nat, lost: bool)
    requires InArena(h) && InArena(h') && p + HEADER <= HEAP_SIZE && x < HEAP_SIZE
  {
    Owns(h', p, x) && h'.mem[x] == h.mem[x] && Load(h'.mem, p) == if lost then 0 else Load(h.mem, p)
  }

  /** Dividing a block changes nothing outside its header and that of the rest. */
  lemma DividedBytes(h: Heap, i: nat, size: uint32)
    requires WellFormed(h) && i < |h.path| && At(h, i).free && Splits(h, i, size)
    ensures forall x :: 0 <= x < HEAP_SIZE && !(h.path[i] <= x < h.path[i] + HEADER) &&
                        !(h.path[i] + HEADER + size <= x < h.path[i] + HEADER + size + HEADER) ==>
              MallocAt(h, i, size).mem[x] == h.mem[x]
  {
    hide Store;
    hide Load;
    Inside(h, i);
    RestHeader(h, i, size);
    TakenHeader(h, RestWritten(h, i, size), i, size);
  }

  lemma MallocUntouched(h: Heap, k: nat, size: uint32, j: nat, p: nat, x: nat)
    requires WellFormed(h) && k < |h.path| && At(h, k).free && At(h, k).size >= size && OwnsAt(h, j, p, x)
    requires WellFormed(MallocAt(h, k, size))
    ensures Untouched(h, MallocAt(h, k, size), p, x, false)
  {
    hide Load;
    hide MallocAt;
    var h' := MallocAt(h, k, size);
    Sides(h, k, j);
    Sides(h, j, k);
    assert h.path[k] + HEADER + At(h, k).size <= Until(h.path, k);
    if Splits(h, k, size) {
      MallocDivides(h, k, size);
      DividedBytes(h, k, size);
      assert OwnsAt(h', if j < k then j else j + 1, p, x);
    } else {
      WholeHeaders(h, k, size);
      HeaderChanged(h, h'.mem, k);
      assert OwnsAt(h', j, p, x) by {
        assert At(Heap(h'.mem, h.path), j) == At(h, j);
      }
    }
  }

  lemma WriteUntouched(h: Heap, y: nat, value: byte, j: nat, p: nat, x: nat)
    requires WellFormed(h) && y < HEAP_SIZE && (exists q :: Owns(h, q, y)) && OwnsAt(h, j, p, x) && x != y
    ensures WellFormed(Heap(h.mem[y := value], h.path))
    ensures Untouched(h, Heap(h.mem[y := value], h.path), p, x, false)
  {
    OwnedWritten(h, y, value);
    var h' := Heap(h.mem[y := value], h.path);
    hide Load;
    assert At(h', j) == At(h, j);
    assert OwnsAt(h', j, p, x);
  }

  // ---------------------------------------------------------------------------------------------
  // Releases

  lemma MergeUntouched(h: Heap, i: nat, j: nat, p: nat, x: nat) returns (j': nat)
    requires WellFormed(h) && i + 1 < |h.path| && BothFree(h, i) && OwnsAt(h, j, p, x)
    ensures WellFormed(MergeAt(h, i)) && OwnsAt(MergeAt(h, i), j', p, x)
    ensures MergeAt(h, i).mem[x] == h.mem[x] && Load(MergeAt(h, i).mem, p) == Load(h.mem, p)
  {
    hide Load;
    hide MergeAt;
    MergeKeeps(h, i);
    MergeJoins(h, i);
    MergedHeader(h, i);
    Sides(h, i, j);
    Sides(h, j, i);
    var h' := MergeAt(h, i);
    j' := if j <= i then j else j - 1;
    JoinedNode(h, h', i, j');
    if j' + 1 < |h'.path| {
      JoinedNode(h, h', i, j' + 1);
    }
  }

  lemma {:induction false} PassUntouched(h: Heap, i: nat, j: nat, p: nat, x: nat) returns (j': nat)
    requires WellFormed(h) && i <= |h.path| && OwnsAt(h, j, p, x)
    ensures OwnsAt(MergePass(h, i), j', p, x)
    ensures MergePass(h, i).mem[x] == h.mem[x] && Load(MergePass(h, i).mem, p) == Load(h.mem, p)
    decreases |h.path| - i
  {
    hide HeaderAt;
    hide Load;
    hide MergeAt;
    hide OwnsAt;
    OwnsInside(h, j, p, x);
    if i == |h.path| {
      j' := j;
    } else if BothFree(h, i) {
      MergeKeeps(h, i);
      var j1 := MergeUntouched(h, i, j, p, x);
      j' := PassUntouched(MergeAt(h, i), i + 1, j1, p, x);
    } else {
      j' := PassUntouched(h, i + 1, j, p, x);
    }
  }

  lemma OwnsInside(h: Heap, j: nat, p: nat, x: nat)
    requires InArena(h) && OwnsAt(h, j, p, x)
    ensures p + HEADER <= x < HEAP_SIZE
  {
  }

  /** A release as it is meant to be. */
  lemma FreeUntouched(h: Heap, i: nat, j: nat, p: nat, x: nat)
    requires WellFormed(h) && Freeable(h, i) && OwnsAt(h, j, p, x) && j != i
    ensures WellFormed(FreeAt(h, i)) && p + HEADER <= HEAP_SIZE && Untouched(h, FreeAt(h, i), p, x, false)
  {
    hide HeaderAt;
    hide Load;
    hide MergePass;
    FreeKeeps(h, i);
    MarkedWellFormed(h, i);
    MarkedNodes(h, i);
    MarkedByte(h, i, j, p, x);
    var j1 := PassUntouched(Marked(h, i), 0, j, p, x);
    StoreLoad(MergePass(Marked(h, i), 0).mem, h.path[i] + HEADER, 0);
    ClearedUntouched(h, i, j, MergePass(Marked(h, i), 0), j1, p, x);
  }

  lemma MarkedByte(h: Heap, i: nat, j: nat, p: nat, x: nat)
    requires WellFormed(h) && Freeable(h, i) && OwnsAt(h, j, p, x) && j != i
    ensures InArena(Marked(h, i)) && OwnsAt(Marked(h, i), j, p, x)
    ensures Marked(h, i).mem[x] == h.mem[x] && Load(Marked(h, i).mem, p) == Load(h.mem, p)
  {
    MarkedNodes(h, i);
    Sides(h, i, j);
    Sides(h, j, i);
    hide Load;
    assert At(Marked(h, i), j) == At(h, j);
  }

  /** The store of a zero word to the freed payload. */
  lemma ClearedUntouched(h: Heap, i: nat, j: nat, h1: Heap, j1: nat, p: nat, x: nat)
    requires WellFormed(h) && Freeable(h, i) && OwnsAt(h, j, p, x) && j != i && InArena(h1) && OwnsAt(h1, j1, p, x)
    ensures var h' := Heap(Store(h1.mem, h.path[i] + HEADER, 0), h1.path);
            && InArena(h') && OwnsAt(h', j1, p, x) && h'.mem[x] == h1.mem[x] && Load(h'.mem, p) == Load(h1.mem, p)
  {
    Sides(h, i, j);
    Sides(h, j, i);
    StoreLoad(h1.mem, h.path[i] + HEADER, 0);
    hide Store;
    assert p + HEADER <= h.path[i] || h.path[i] + HEADER + 4 <= p;
  }

  /** A release with nested calls that set bytes. */
  lemma FreedUntouched(h: Heap, i: nat, m': Arena, j: nat, p: nat, x: nat)
    requires RoomyFree(h, i) && Yields(h.mem, PtrOf(h, i), m') && WellFormed(h) && OwnsAt(h, j, p, x) && j != i
    ensures FreedMemory(h, i, m') && WellFormed(FreedList(h, i, m')) && p + HEADER <= HEAP_SIZE
    ensures Untouched(h, FreedList(h, i, m'), p, x, j in Lost(h, i))
  {
    hide Load;
    hide HeaderAt;
    hide Yields;
    hide RoomyFree;
    hide FreedMemory;
    hide Lost;
    hide NextOf;
    RoomyParts(h, i);
    HeaderSize(h.mem, p);
    HeaderSize(m', p);
    FreedOnly(h, i, m');
    FreedInOrder(h, i, m');
    OtherBlock(h, i, m', j);
    OtherPayload(h, i, m', j, x);
    var h' := FreedList(h, i, m');
    assert h'.mem == m';
    hide FreedList;
    UsedOnce(h, i, j);
    var k :| 0 <= k < |h'.path| && !At(h', k).free && h'.path[k] == p;
    SameOwner(h, h', j, k, p, x);
  }

  lemma HeaderSize(m: Arena, a: nat)
    requires a + HEADER <= HEAP_SIZE
    ensures HeaderAt(m, a).size == Load(m, a)
  {
  }

  lemma UsedOnce(h: Heap, i: nat, j: nat)
    requires WellFormed(h) && i < |h.path| && j < |h.path| && i != j && !At(h, j).free
    ensures h.path[j] in UsedAt(h) - {h.path[i]}
  {
    hide HeaderAt;
    if j < i { Ordered(h, j, i); } else { Ordered(h, i, j); }
  }

  /** A header that leads to the same place owns the same bytes. */
  lemma SameOwner(h: Heap, h': Heap, j: nat, k: nat, p: nat, x: nat)
    requires WellFormed(h) && WellFormed(h') && OwnsAt(h, j, p, x) && k < |h'.path| && h'.path[k] == p
    requires !At(h', k).free && At(h', k).next == At(h, j).next
    ensures OwnsAt(h', k, p, x)
  {
    hide HeaderAt;
    assert At(h', k).next == NextOf(h'.path, k) && At(h, j).next == NextOf(h.path, j);
  }

  // ---------------------------------------------------------------------------------------------
  // Whole runs

  /** The block that owns `p` loses its size in this event. */
  ghost predicate LosesNow(h: Heap, op: Op, p: nat)
    requires WellFormed(h) && Permitted(h, op)
  {
    op.FreeOp? && !Quiet(h, op.block) && exists j :: j in Lost(h, op.block) && j < |h.path| && h.path[j] == p
  }

  lemma StepUntouched(h: Heap, op: Op, p: nat, x: nat)
    requires WellFormed(h) && Permitted(h, op) && Owns(h, p, x) && p + HEADER <= HEAP_SIZE && x < HEAP_SIZE
    requires op.FreeOp? ==> op.block < |h.path| && h.path[op.block] != p
    requires op.WriteOp? ==> op.at != x
    ensures Untouched(h, CodedStep(h, op), p, x, LosesNow(h, op, p))
  {
    hide Load;
    hide HeaderAt;
    hide Quiet;
    hide RoomyFree;
    hide Lost;
    hide Yields;
    var j :| OwnsAt(h, j, p, x);
    match op
    case MallocOp(size) =>
      var k := FirstFit(h, 0, size);
      StepWellFormed(h, op);
      if size != 0 && k < |h.path| {
        MallocUntouched(h, k, size, j, p, x);
      }
    case FreeOp(i) =>
      if Quiet(h, i) {
        FreeUntouched(h, i, j, p, x);
      } else {
        FreeReturns(h, i);
        FreedUntouched(h, i, CodedFree(h, i).mem, j, p, x);
        OnlyAt(h, j, p);
      }
    case WriteOp(y, value) => WriteUntouched(h, y, value, j, p, x);
  }

  lemma OnlyAt(h: Heap, j: nat, p: nat)
    requires WellFormed(h) && j < |h.path| && h.path[j] == p
    ensures forall k :: 0 <= k < |h.path| && h.path[k] == p ==> k == j
  {
    forall k | 0 <= k < |h.path| && h.path[k] == p
      ensures k == j
    {
      if k < j { Ordered(h, k, j); } else if j < k { Ordered(h, j, k); }
    }
  }

  ghost predicate CanRun(h: Heap, ops: seq<Op>)
    requires WellFormed(h)
    decreases |ops|
  {
    ops == [] || (Permitted(h, ops[0]) && CanRun(CodedStep(h, ops[0]), ops[1..]))
  }

  /** Every run keeps the list in order. */
  ghost function Run(h: Heap, ops: seq<Op>): (h': Heap)
    requires WellFormed(h) && CanRun(h, ops)
    ensures WellFormed(h')
    decreases |ops|
  {
    if ops == [] then h else Run(CodedStep(h, ops[0]), ops[1..])
  }

  /** The run neither frees the block at `p` nor writes to the byte. */
  ghost predicate LeavesAlone(h: Heap, ops: seq<Op>, p: nat, x: nat)
    requires WellFormed(h) && CanRun(h, ops)
    decreases |ops|
  {
    ops == [] ||
    (&& (ops[0].FreeOp? ==> ops[0].block < |h.path| && h.path[ops[0].block] != p)
     && (ops[0].WriteOp? ==> ops[0].at != x)
     && LeavesAlone(CodedStep(h, ops[0]), ops[1..], p, x))
  }

  /** Some release of the run takes the size of the block at `p`. */
  ghost predicate Loses(h: Heap, ops: seq<Op>, p: nat)
    requires WellFormed(h) && CanRun(h, ops)
    decreases |ops|
  {
    ops != [] && (LosesNow(h, ops[0], p) || Loses(CodedStep(h, ops[0]), ops[1..], p))
  }

  /**
   A byte of a block in use keeps its value, whatever else is allocated, freed and written; the block keeps its size
   exactly if no release takes it.
   */
  lemma {:induction false} ByteSurvives(h: Heap, ops: seq<Op>, p: nat, x: nat)
    requires WellFormed(h) && CanRun(h, ops) && Owns(h, p, x) && p + HEADER <= HEAP_SIZE && x < HEAP_SIZE
    requires LeavesAlone(h, ops, p, x)
    ensures Untouched(h, Run(h, ops), p, x, Loses(h, ops, p))
    decreases |ops|
  {
    hide Load;
    hide CodedStep;
    hide Permitted;
    hide LosesNow;
    hide Owns;
    if ops != [] {
      StepUntouched(h, ops[0], p, x);
      assert InArena(CodedStep(h, ops[0]));
      hide WellFormed;
      ByteSurvives(CodedStep(h, ops[0]), ops[1..], p, x);
    }
  }
}
