/**
 `kfree` as the code has it: after each merge it calls itself with the header of the block behind, taken for a
 payload (src/kernel/mm/heap.cpp:103). Stated on the bytes of the arena, where that call may find anything.
 */
module HeapReentry {
  import opened Options
  import opened Words
  import opened HeapModel
  import opened HeapProofs
  import opened HeapMerge

  /** A header at this address lies inside the heap. */
  predicate InHeap(a: nat)
  {
    HEAP_START <= a && a - HEAP_START + HEADER <= HEAP_SIZE
  }

  /** The block at offset `c` takes in the one at `d`, with sizes in 32 bits. */
  function JoinedBytes(m: Arena, c: nat, d: nat): Arena
    requires c + HEADER <= HEAP_SIZE && d + HEADER <= HEAP_SIZE
  {
    var sized := SetSize(m, c, (Load(m, c) + Load(m, d) + HEADER) % 0x1_0000_0000);
    SetNext(sized, c, Load(sized, d + 8))
  }

  /**
   The memory after `kfree`, if it returns within `fuel` nested calls and steps and touches no memory outside the
   heap.
   */
  function Kfree(m: Arena, ptr: nat, fuel: nat): Option<Arena>
    decreases fuel, 0
  {
    if ptr == 0 || ptr < HEAP_START || ptr > HEAP_START + HEAP_SIZE then Some(m)
    else if ptr - HEAP_START < HEADER || ptr - HEAP_START + 4 > HEAP_SIZE then None
    else
      var block := ptr - HEAP_START - HEADER;
      if m[block + 4] != 0 then Some(m)
      else if fuel == 0 then None
      else
        match Walk(SetFree(m, block, true), HEAP_START, fuel - 1)
        case None => None
        case Some(m') => Some(Store(m', ptr - HEAP_START, 0))
  }

  /** The walk of `kfree` from the block at address `current` on. */
  function Walk(m: Arena, current: nat, fuel: nat): Option<Arena>
    decreases fuel, 0
  {
    if current == 0 then Some(m)
    else if fuel == 0 || !InHeap(current) then None
    else
      var c := current - HEAP_START;
      var next: nat := Load(m, c + 8);
      if m[c + 4] == 0 || next == 0 then Walk(m, next, fuel - 1)
      else if !InHeap(next) then None
      else if m[next - HEAP_START + 4] == 0 then Walk(m, next, fuel - 1)
      else
        var m1 := JoinedBytes(m, c, next - HEAP_START);
        match Kfree(m1, Load(m1, c + 8), fuel - 1)
        case None => None
        case Some(m2) => Walk(m2, Load(m2, c + 8), fuel - 1)
  }

  /** `kfree` returns and turns the one memory into the other. */
  ghost predicate Yields(m: Arena, ptr: nat, m': Arena)
  {
    exists fuel: nat :: Kfree(m, ptr, fuel) == Some(m')
  }

  /** It makes one memory of each. */
  lemma YieldsOne(m: Arena, ptr: nat, m1: Arena, m2: Arena)
    requires Yields(m, ptr, m1) && Yields(m, ptr, m2)
    ensures m1 == m2
  {
    hide Kfree;
    var f: nat :| Kfree(m, ptr, f) == Some(m1);
    var g: nat :| Kfree(m, ptr, g) == Some(m2);
    KfreeMore(m, ptr, f, f + g);
    KfreeMore(m, ptr, g, f + g);
  }

  /** With more fuel the result is the same. */
  lemma {:induction false} KfreeMore(m: Arena, ptr: nat, fuel: nat, fuel': nat)
    requires Kfree(m, ptr, fuel).Some? && fuel <= fuel'
    ensures Kfree(m, ptr, fuel') == Kfree(m, ptr, fuel)
    decreases fuel, 0
  {
    hide SetFree;
    hide Store;
    if fuel > 0 && HEAP_START + HEADER <= ptr && ptr + 4 <= HEAP_START + HEAP_SIZE {
      var block := ptr - HEAP_START - HEADER;
      if m[block + 4] == 0 {
        WalkMore(SetFree(m, block, true), HEAP_START, fuel - 1, fuel' - 1);
      }
    }
  }

  lemma {:induction false} WalkMore(m: Arena, current: nat, fuel: nat, fuel': nat)
    requires Walk(m, current, fuel).Some? && fuel <= fuel'
    ensures Walk(m, current, fuel') == Walk(m, current, fuel)
    decreases fuel, 0
  {
    hide Load;
    hide JoinedBytes;
    if current != 0 {
      var c := current - HEAP_START;
      var next: nat := Load(m, c + 8);
      if m[c + 4] == 0 || next == 0 || m[next - HEAP_START + 4] == 0 {
        WalkMore(m, next, fuel - 1, fuel' - 1);
      } else {
        var m1 := JoinedBytes(m, c, next - HEAP_START);
        KfreeMore(m1, Load(m1, c + 8), fuel - 1, fuel' - 1);
        var m2 := Kfree(m1, Load(m1, c + 8), fuel - 1).value;
        WalkMore(m2, Load(m2, c + 8), fuel - 1, fuel' - 1);
      }
    }
  }

  // ---------------------------------------------------------------------------------------------
  // When the re-entrant calls do nothing

  /** The address of the `i`-th block, 0 behind the last. */
  function AddressOf(path: seq<nat>, i: nat): nat { if i < |path| then HEAP_START + path[i] else 0 }

  /**
   In the walk without re-entrant calls, the offset of the first block that one would not pass over: the block
   behind a merged one, if the byte eight before its header, which the call takes for a free flag, is 0.
   */
  function FirstHit(h: Heap, i: nat): (hit: Option<nat>)
    requires WellFormed(h) && i <= |h.path|
    decreases |h.path| - i
  {
    if i == |h.path| then None
    else if BothFree(h, i) then
      MergeKeeps(h, i);
      var h1 := MergeAt(h, i);
      if i + 1 < |h1.path| && h1.path[i + 1] >= 8 && h1.mem[h1.path[i + 1] - 8] == 0 then Some(h1.path[i + 1])
      else FirstHit(h1, i + 1)
    else FirstHit(h, i + 1)
  }

  /** Freeing the `i`-th block meets no such byte. */
  predicate Quiet(h: Heap, i: nat)
    requires WellFormed(h) && i < |h.path|
  {
    MarkedWellFormed(h, i);
    FirstHit(Marked(h, i), 0).None?
  }

  lemma MergeIsJoined(h: Heap, i: nat)
    requires WellFormed(h) && i + 1 < |h.path|
    ensures JoinedBytes(h.mem, h.path[i], h.path[i + 1]) == MergeAt(h, i).mem
  {
    hide Load;
    hide SetSize;
    hide SetNext;
    Ordered(h, i, i + 1);
    Inside(h, i + 1);
    var c, d, size := h.path[i], h.path[i + 1], At(h, i).size + At(h, i + 1).size + HEADER;
    assert size < 0x1_0000_0000;
    SetSizeHeader(h.mem, c, size);
    OtherHeader(h.mem, SetSize(h.mem, c, size), c, d);
    hide WellFormed;
    hide SameBut;
  }

  lemma MergedNext(h: Heap, i: nat)
    requires WellFormed(h) && i + 1 < |h.path|
    ensures Load(MergeAt(h, i).mem, h.path[i] + 8) == NextOf(MergeAt(h, i).path, i)
  {
    hide Load;
    hide SetSize;
    hide SetNext;
    MergedHeader(h, i);
    assert At(h, i + 1).next == NextOf(h.path, i + 1);
    PathRemoved(h.path, i);
  }

  /** If every re-entrant call finds a byte that is not 0, the walk is the one without them. */
  lemma {:induction false} QuietWalk(h: Heap, i: nat, fuel: nat)
    requires WellFormed(h) && i <= |h.path| && FirstHit(h, i).None? && fuel >= |h.path| - i
    ensures Walk(h.mem, AddressOf(h.path, i), fuel) == Some(MergePass(h, i).mem)
    decreases |h.path| - i
  {
    hide Load;
    hide JoinedBytes;
    hide MergeAt;
    if i < |h.path| {
      assert At(h, i).next == NextOf(h.path, i);
      if BothFree(h, i) {
        MergeKeeps(h, i);
        MergeIsJoined(h, i);
        MergedNext(h, i);
        var h1 := MergeAt(h, i);
        NotHit(h, i, fuel - 1);
        QuietWalk(h1, i + 1, fuel - 1);
      } else {
        QuietWalk(h, i + 1, fuel - 1);
      }
    }
  }

  /** The re-entrant call passes over the block behind the merged one. */
  lemma NotHit(h: Heap, i: nat, fuel: nat)
    requires WellFormed(h) && i + 1 < |h.path| && BothFree(h, i)
    requires var h1 := MergeAt(h, i);
             i + 1 < |h1.path| && 8 <= h1.path[i + 1] <= HEAP_SIZE ==> h1.mem[h1.path[i + 1] - 8] != 0
    ensures Kfree(MergeAt(h, i).mem, NextOf(MergeAt(h, i).path, i), fuel) == Some(MergeAt(h, i).mem)
  {
    MergeKeeps(h, i);
    var h1 := MergeAt(h, i);
    hide MergeAt;
    if i + 1 < |h1.path| {
      TwoBehind(h, i);
      Inside(h1, i + 1);
    }
  }

  /** Two headers lie before the block behind a merged one. */
  lemma TwoBehind(h: Heap, i: nat)
    requires WellFormed(h) && i + 2 < |h.path|
    ensures |MergeAt(h, i).path| > i + 1 && MergeAt(h, i).path[i + 1] == h.path[i + 2] >= h.path[i] + 2 * HEADER
  {
    Ordered(h, i, i + 1);
    Ordered(h, i + 1, i + 2);
  }

  /** The address of the `i`-th block's payload. */
  function PtrOf(h: Heap, i: nat): nat
    requires i < |h.path|
  {
    HEAP_START + h.path[i] + HEADER
  }

  /** Then `kfree` does what it is for. */
  lemma QuietFree(h: Heap, i: nat)
    requires WellFormed(h) && Freeable(h, i) && Quiet(h, i)
    ensures Yields(h.mem, PtrOf(h, i), FreeAt(h, i).mem)
  {
    MarkedWellFormed(h, i);
    QuietWalk(Marked(h, i), 0, |h.path|);
    hide Walk;
    hide MergePass;
    hide Store;
    assert Kfree(h.mem, PtrOf(h, i), |h.path| + 1) == Some(FreeAt(h, i).mem);
  }
}
