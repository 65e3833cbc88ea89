/**
 The kernel heap as the bytes of its arena: block headers and payloads lie in the same memory
 (src/kernel/mm/heap.cpp). Offsets count from the start of the heap.
 */
module HeapModel {
  import opened Words

  const HEAP_START: nat := 0x20_0000
  const HEAP_SIZE: nat := 0x30_0000
  const HEADER: nat := 12

  type Arena = m: seq<byte> | |m| == HEAP_SIZE witness Zeros(HEAP_SIZE)

  /** A block's header; `next` is an address, 0 for none. */
  datatype Header = Header(size: nat, free: bool, next: nat)

  /** The word at any offset. */
  function Load(m: Arena, a: nat): uint32
    requires a + 4 <= HEAP_SIZE
  {
    (m[a] as int) + 0x100 * (m[a + 1] as int) + 0x1_0000 * (m[a + 2] as int) + 0x100_0000 * (m[a + 3] as int)
  }

  function Store(m: Arena, a: nat, w: uint32): Arena
    requires a + 4 <= HEAP_SIZE
  {
    m[a := w % 0x100][a + 1 := w / 0x100 % 0x100][a + 2 := w / 0x1_0000 % 0x100][a + 3 := w / 0x100_0000]
  }

  function HeaderAt(m: Arena, a: nat): Header
    requires a + HEADER <= HEAP_SIZE
  {
    Header(Load(m, a), m[a + 4] != 0, Load(m, a + 8))
  }

  function SetSize(m: Arena, a: nat, size: uint32): Arena
    requires a + HEADER <= HEAP_SIZE
  {
    Store(m, a, size)
  }

  function SetFree(m: Arena, a: nat, free: bool): Arena
    requires a + HEADER <= HEAP_SIZE
  {
    m[a + 4 := if free then 1 else 0]
  }

  function SetNext(m: Arena, a: nat, next: uint32): Arena
    requires a + HEADER <= HEAP_SIZE
  {
    Store(m, a + 8, next)
  }

  /** The two memories differ at most in the header at `a`. */
  ghost predicate SameBut(m: Arena, m': Arena, a: nat)
  {
    forall x :: 0 <= x < HEAP_SIZE && !(a <= x < a + HEADER) ==> m'[x] == m[x]
  }

  lemma StoreLoad(m: Arena, a: nat, w: uint32)
    requires a + 4 <= HEAP_SIZE
    ensures Load(Store(m, a, w), a) == w
    ensures forall x :: 0 <= x < HEAP_SIZE && !(a <= x < a + 4) ==> Store(m, a, w)[x] == m[x]
  {
    assert w / 0x1_0000 == w / 0x100 / 0x100 && w / 0x100_0000 == w / 0x1_0000 / 0x100;
  }

  lemma SetSizeHeader(m: Arena, a: nat, size: uint32)
    requires a + HEADER <= HEAP_SIZE
    ensures HeaderAt(SetSize(m, a, size), a) == HeaderAt(m, a).(size := size) && SameBut(m, SetSize(m, a, size), a)
  {
    StoreLoad(m, a, size);
  }

  lemma SetFreeHeader(m: Arena, a: nat, free: bool)
    requires a + HEADER <= HEAP_SIZE
    ensures HeaderAt(SetFree(m, a, free), a) == HeaderAt(m, a).(free := free) && SameBut(m, SetFree(m, a, free), a)
  {
  }

  lemma SetNextHeader(m: Arena, a: nat, next: uint32)
    requires a + HEADER <= HEAP_SIZE
    ensures HeaderAt(SetNext(m, a, next), a) == HeaderAt(m, a).(next := next) && SameBut(m, SetNext(m, a, next), a)
  {
    StoreLoad(m, a + 8, next);
  }

  /** A header elsewhere stays. */
  lemma OtherHeader(m: Arena, m': Arena, a: nat, b: nat)
    requires SameBut(m, m', a) && b + HEADER <= HEAP_SIZE && (b + HEADER <= a || a + HEADER <= b)
    ensures HeaderAt(m', b) == HeaderAt(m, b)
  {
  }

  // ---------------------------------------------------------------------------------------------
  // The list of blocks

  /** The memory and the offsets of the blocks on the list. */
  datatype Heap = Heap(mem: Arena, path: seq<nat>)

  function NextOf(path: seq<nat>, i: nat): nat { if i + 1 < |path| then HEAP_START + path[i + 1] else 0 }

  function Until(path: seq<nat>, i: nat): nat { if i + 1 < |path| then path[i + 1] else HEAP_SIZE }

  ghost predicate InArena(h: Heap)
  {
    h.path != [] && h.path[0] == 0 && forall i :: 0 <= i < |h.path| ==> h.path[i] + HEADER <= HEAP_SIZE
  }

  function At(h: Heap, i: nat): Header
    requires i < |h.path| && h.path[i] + HEADER <= HEAP_SIZE
  {
    HeaderAt(h.mem, h.path[i])
  }

  /** The pointers lead along the path, and each block with its header ends before the next one starts. */
  ghost predicate WellFormed(h: Heap)
  {
    && InArena(h)
    && (forall i {:trigger NextOf(h.path, i)} :: 0 <= i < |h.path| ==> At(h, i).next == NextOf(h.path, i))
    && (forall i {:trigger Until(h.path, i)} :: 0 <= i < |h.path| ==>
        h.path[i] + HEADER + At(h, i).size <= Until(h.path, i))
  }

  /** `heap::init`. */
  function Initial(): Heap
  {
    Heap(SetNext(SetFree(SetSize(Zeros(HEAP_SIZE), 0, HEAP_SIZE - HEADER), 0, true), 0, 0), [0])
  }

  // ---------------------------------------------------------------------------------------------
  // The operations

  function FirstFit(h: Heap, i: nat, size: nat): (k: nat)
    requires InArena(h) && i <= |h.path|
    ensures i <= k <= |h.path|
    ensures k < |h.path| ==> At(h, k).free && At(h, k).size >= size
    ensures forall j :: i <= j < k ==> !(At(h, j).free && At(h, j).size >= size)
    decreases |h.path| - i
  {
    if i == |h.path| then i
    else if At(h, i).free && At(h, i).size >= size then i
    else FirstFit(h, i + 1, size)
  }

  /** There is room for a block behind the first `size` bytes. */
  predicate Splits(h: Heap, i: nat, size: nat)
    requires i < |h.path| && h.path[i] + HEADER <= HEAP_SIZE
  {
    At(h, i).size > size + HEADER
  }

  /** Taking `size` bytes from the `i`-th block; a rest too small for a block is given up. */
  function MallocAt(h: Heap, i: nat, size: nat): Heap
    requires WellFormed(h) && i < |h.path| && At(h, i).size >= size
  {
    var c, n := h.path[i], At(h, i);
    assert Until(h.path, i) <= HEAP_SIZE;
    if Splits(h, i, size) then
      var b := c + HEADER + size;
      var m1 := SetNext(SetFree(SetSize(h.mem, b, n.size - size - HEADER), b, true), b, n.next);
      Heap(SetFree(SetSize(SetNext(m1, c, HEAP_START + b), c, size), c, false), h.path[..i + 1] + [b] + h.path[i + 1..])
    else
      Heap(SetFree(SetSize(h.mem, c, size), c, false), h.path)
  }

  /** The `i`-th block takes in the one behind it, with its header. */
  function MergeAt(h: Heap, i: nat): (h': Heap)
    requires WellFormed(h) && i + 1 < |h.path|
    ensures |h'.path| == |h.path| - 1
  {
    var c, n, gone := h.path[i], At(h, i), At(h, i + 1);
    assert h.path[i] + HEADER + n.size <= Until(h.path, i)
        && h.path[i + 1] + HEADER + gone.size <= Until(h.path, i + 1) <= HEAP_SIZE;
    Heap(SetNext(SetSize(h.mem, c, n.size + gone.size + HEADER), c, gone.next), h.path[..i + 1] + h.path[i + 2..])
  }

  /** The `i`-th block and the one behind it are free. */
  predicate BothFree(h: Heap, i: nat)
    requires i < |h.path| && h.path[i] + HEADER <= HEAP_SIZE
    requires (i + 1 < |h.path| ==> h.path[i + 1] + HEADER <= HEAP_SIZE)
  {
    At(h, i).free && i + 1 < |h.path| && At(h, i + 1).free
  }

  /** Memory that belongs to a free block: behind its header, and before the next block. */
  ghost predicate Unused(h: Heap, i: nat, a: nat, n: nat)
    requires InArena(h)
  {
    i < |h.path| && At(h, i).free && h.path[i] + HEADER <= a && a + n <= Until(h.path, i)
  }
}
