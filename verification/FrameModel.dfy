/**
 The frame allocator's list of metadata nodes, as values (src/kernel/mm/pmm.cpp). A node lives in a slot of
 the metadata area and points to other nodes by their slots.
 */
module FrameModel {
  import opened Options

  const FRAME_SIZE: nat := 0x1000

  datatype Node = Node(addr: nat, size: nat, free: bool, next: Option<nat>, prev: Option<nat>)

  /** The metadata area, the slots on the list from the head on, and the amount of used memory. */
  datatype Pmm = Pmm(slots: map<nat, Node>, path: seq<nat>, used: int)

  /** The address that `alloc_frame` returns for a block's address. */
  function AlignUp(a: nat): nat { (a + FRAME_SIZE - 1) / FRAME_SIZE * FRAME_SIZE }

  /** One free block from `lo` to `hi`, as `pmm::init` leaves it. */
  function Initial(lo: nat, hi: nat): Pmm
    requires lo < hi
  {
    Pmm(map[0 := Node(lo, hi - lo, true, None, None)], [0], 0)
  }

  // ---------------------------------------------------------------------------------------------
  // Well-formed lists

  ghost predicate InSlots(slots: map<nat, Node>, path: seq<nat>)
  {
    forall i :: 0 <= i < |path| ==> path[i] in slots
  }

  ghost predicate Nodes(m: Pmm)
  {
    m.path != [] && InSlots(m.slots, m.path)
  }

  function At(m: Pmm, i: nat): Node
    requires i < |m.path| && m.path[i] in m.slots
  {
    m.slots[m.path[i]]
  }

  function After(path: seq<nat>, i: nat): Option<nat>
  {
    if i + 1 < |path| then Some(path[i + 1]) else None
  }

  function Before(path: seq<nat>, i: nat): Option<nat>
    requires i <= |path|
  {
    if i == 0 then None else Some(path[i - 1])
  }

  /** The `next` pointers lead along the path, which meets no slot twice. */
  ghost predicate Chain(m: Pmm)
  {
    && Nodes(m) && m.path[0] == 0
    && (forall i, j :: 0 <= i < j < |m.path| ==> m.path[i] != m.path[j])
    && (forall i :: 0 <= i < |m.path| ==> At(m, i).next == After(m.path, i))
    && (forall i :: 0 <= i < |m.path| ==> At(m, i).prev.Some? ==> At(m, i).prev.value in m.slots)
  }

  /** The slots rise along the path. */
  ghost predicate Ascending(path: seq<nat>)
  {
    forall i, j :: 0 <= i < j < |path| ==> path[i] < path[j]
  }

  /** The `prev` pointers lead back along the path. */
  ghost predicate Links(m: Pmm)
    requires Nodes(m)
  {
    forall i :: 0 <= i < |m.path| ==> At(m, i).prev == Before(m.path, i)
  }

  function Until(m: Pmm, i: nat, hi: nat): nat
    requires i + 1 < |m.path| ==> m.path[i + 1] in m.slots
  {
    if i + 1 < |m.path| then At(m, i + 1).addr else hi
  }

  predicate WholeFrames(n: nat) { n % FRAME_SIZE == 0 }

  /** The blocks cover the memory from `lo` to `hi` without gap or overlap, and used ones are whole frames. */
  ghost predicate Tiles(m: Pmm, lo: nat, hi: nat)
    requires Nodes(m)
  {
    && At(m, 0).addr == lo
    && (forall i :: 0 <= i < |m.path| ==> At(m, i).size > 0)
    && (forall i {:trigger Until(m, i, hi)} :: 0 <= i < |m.path| ==> At(m, i).addr + At(m, i).size == Until(m, i, hi))
    && (forall i :: 0 <= i < |m.path| ==> WholeFrames(At(m, i).addr))
    && (forall i :: 0 <= i < |m.path| ==> !At(m, i).free ==> WholeFrames(At(m, i).size))
  }

  /** The memory taken by the blocks of a path that are not free. */
  function UsedBy(slots: map<nat, Node>, path: seq<nat>): nat
    requires InSlots(slots, path)
  {
    if path == [] then 0
    else (if slots[path[0]].free then 0 else slots[path[0]].size) + UsedBy(slots, path[1..])
  }

  /** The `i`-th block and the one behind it are free. */
  predicate BothFree(m: Pmm, i: nat)
    requires i < |m.path| && m.path[i] in m.slots && (i + 1 < |m.path| ==> m.path[i + 1] in m.slots)
  {
    At(m, i).free && i + 1 < |m.path| && At(m, i + 1).free
  }

  /** Free blocks are never neighbours. */
  ghost predicate Merged(m: Pmm)
    requires Nodes(m)
  {
    forall i {:trigger BothFree(m, i)} :: 0 <= i < |m.path| ==> !BothFree(m, i)
  }

  /** The list is linked both ways, its blocks tile the memory, and the accounting agrees. */
  ghost predicate Kept(m: Pmm, lo: nat, hi: nat)
  {
    && Chain(m) && Links(m) && Tiles(m, lo, hi) && Merged(m) && m.used == UsedBy(m.slots, m.path)
  }

  /** As long as nodes are put into the slot behind the one they are split from, the slots rise as well. */
  ghost predicate Good(m: Pmm, lo: nat, hi: nat)
  {
    Kept(m, lo, hi) && Ascending(m.path)
  }

  /** The blocks in use: address and size. */
  ghost function Live(m: Pmm): set<(nat, nat)>
    requires Nodes(m)
  {
    set i | 0 <= i < |m.path| && !At(m, i).free :: (At(m, i).addr, At(m, i).size)
  }

  // ---------------------------------------------------------------------------------------------
  // The operations

  /** The first free block of at least `size` from the `i`-th on; the length of the path if there is none. */
  function FirstFit(m: Pmm, i: nat, size: nat): (k: nat)
    requires Nodes(m) && i <= |m.path|
    ensures i <= k <= |m.path|
    ensures k < |m.path| ==> At(m, k).free && At(m, k).size >= size
    ensures forall j :: i <= j < k ==> !(At(m, j).free && At(m, j).size >= size)
    decreases |m.path| - i
  {
    if i == |m.path| then i
    else if At(m, i).free && At(m, i).size >= size then i
    else FirstFit(m, i + 1, size)
  }

  /** The rest of the block in slot `c` becomes a free block in slot `x`; `repair` says whether the node behind it
      learns of its new neighbour, which the code does not see to. */
  function Split(slots: map<nat, Node>, c: nat, x: nat, size: nat, repair: bool): (slots': map<nat, Node>)
    requires c in slots && slots[c].size > size
    ensures c in slots'
  {
    var n := slots[c];
    var split := slots[x := Node(n.addr + size, n.size - size, true, n.next, Some(c))][c := n.(next := Some(x))];
    if repair && n.next.Some? && n.next.value in split
    then split[n.next.value := split[n.next.value].(prev := Some(x))] else split
  }

  /** The node in slot `c` becomes a used block of `size`, placed behind the one its `prev` pointer names. */
  function Take(slots: map<nat, Node>, c: nat, size: nat): map<nat, Node>
    requires c in slots && (slots[c].prev.Some? ==> slots[c].prev.value in slots)
  {
    var sized := slots[c := slots[c].(size := size)];
    var p := sized[c].prev;
    sized[c := sized[c].(free := false,
                         addr := if p.Some? then sized[p.value].addr + sized[p.value].size else sized[c].addr)]
  }

  /** Taking `size` bytes from the `i`-th block, with the node of the rest in slot `x`. */
  function AllocInto(m: Pmm, i: nat, x: nat, size: nat, repair: bool): Pmm
    requires Chain(m) && i < |m.path| && At(m, i).size >= size
  {
    var c := m.path[i];
    if At(m, i).size > size then
      Pmm(Take(Split(m.slots, c, x, size, repair), c, size), m.path[..i + 1] + [x] + m.path[i + 1..], m.used + size)
    else
      Pmm(Take(m.slots, c, size), m.path, m.used + size)
  }

  /** The code puts the node of the rest into the slot behind. */
  function AllocAt(m: Pmm, i: nat, size: nat, repair: bool): Pmm
    requires Chain(m) && i < |m.path| && At(m, i).size >= size
  {
    AllocInto(m, i, m.path[i] + 1, size, repair)
  }

  /** The `i`-th block takes in the one behind it. */
  function MergeAt(m: Pmm, i: nat): (m': Pmm)
    requires Nodes(m) && i + 1 < |m.path|
    ensures Nodes(m') && |m'.path| == |m.path| - 1
  {
    var c, n, gone := m.path[i], At(m, i), At(m, i + 1);
    var grown := m.slots[c := n.(size := n.size + gone.size, next := gone.next)];
    var linked := if gone.next.Some? && gone.next.value in grown
                  then grown[gone.next.value := grown[gone.next.value].(prev := Some(c))] else grown;
    Pmm(linked, m.path[..i + 1] + m.path[i + 2..], m.used)
  }

  /** One walk over the list from the `i`-th block on; a merged block is not looked at again. */
  function MergePass(m: Pmm, i: nat): (m': Pmm)
    requires Nodes(m) && i <= |m.path|
    ensures Nodes(m') && |m'.path| <= |m.path|
    decreases |m.path| - i
  {
    if i == |m.path| then m
    else if BothFree(m, i) && At(m, i + 1).addr == At(m, i).addr + At(m, i).size then MergePass(MergeAt(m, i), i + 1)
    else MergePass(m, i + 1)
  }

  /** Walks until one changes nothing. */
  function MergeAll(m: Pmm): (m': Pmm)
    requires Nodes(m)
    ensures Nodes(m')
    decreases |m.path|
  {
    var m1 := MergePass(m, 0);
    if |m1.path| < |m.path| then MergeAll(m1) else m1
  }

  /** The first block at this address, looked for from the `i`-th on. */
  function Find(m: Pmm, i: nat, addr: nat): (k: nat)
    requires Nodes(m) && i <= |m.path|
    ensures i <= k <= |m.path|
    ensures k < |m.path| ==> At(m, k).addr == addr
    ensures forall j :: i <= j < k ==> At(m, j).addr != addr
    decreases |m.path| - i
  {
    if i == |m.path| then i else if At(m, i).addr == addr then i else Find(m, i + 1, addr)
  }

  /** The `i`-th block becomes free, before any merging. */
  function Release(m: Pmm, i: nat): (m': Pmm)
    requires Nodes(m) && i < |m.path|
    ensures Nodes(m')
  {
    m.(slots := m.slots[m.path[i] := At(m, i).(free := true)], used := m.used - At(m, i).size)
  }

  function FreeAt(m: Pmm, i: nat): Pmm
    requires Nodes(m) && i < |m.path|
  {
    MergeAll(Release(m, i))
  }

  // ---------------------------------------------------------------------------------------------
  // Runs

  datatype Op = AllocOp(numBlocks: nat) | FreeOp(ptr: nat)

  /** `free_frame` may be called for the address of a block in use. */
  ghost predicate Owned(m: Pmm, ptr: nat)
    requires Nodes(m)
  {
    var k := Find(m, 0, ptr);
    k < |m.path| && !At(m, k).free
  }

  /** The bytes of this many frames, in 64 bits. */
  function Bytes(n: nat): nat { n * FRAME_SIZE % 0x1_0000_0000_0000_0000 }

  function Step(m: Pmm, op: Op, repair: bool): Pmm
    requires Chain(m) && (op.FreeOp? ==> Owned(m, op.ptr))
  {
    match op
    case AllocOp(n) =>
      var k := FirstFit(m, 0, Bytes(n));
      if n == 0 || k == |m.path| then m else AllocAt(m, k, Bytes(n), repair)
    case FreeOp(ptr) => FreeAt(m, Find(m, 0, ptr))
  }
}
