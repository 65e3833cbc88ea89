/** The kernel heap as it changes its arena in place, proved against the operations on values. */
module HeapAllocator {
  import opened Options
  import opened Words
  import opened HeapModel
  import opened HeapProofs
  import opened HeapMerge
  import opened HeapReentry
  import opened HeapRuns

  class KernelHeap {
    const mem: array<byte>
    /** The offsets of the blocks on the list, from the head on. */
    ghost var path: seq<nat>

    ghost predicate Valid()
      reads this, mem
    {
      mem.Length == HEAP_SIZE && WellFormed(View())
    }

    ghost function View(): Heap
      requires mem.Length == HEAP_SIZE
      reads this, mem
    {
      Heap(mem[..], path)
    }

    /** `heap::init`. */
    constructor ()
      ensures Valid() && View() == Initial() && fresh(mem)
    {
      mem := new byte[HEAP_SIZE](_ => 0);
      path := [0];
      new;
      assert mem[..] == Zeros(HEAP_SIZE);
      hide WellFormed;
      hide Store;
      PutSize(0, HEAP_SIZE - HEADER);
      PutFree(0, true);
      PutNext(0, 0);
      InitialWellFormed();
    }

    method GetWord(a: nat) returns (w: uint32)
      requires mem.Length == HEAP_SIZE && a + 4 <= HEAP_SIZE
      ensures w == Load(mem[..], a)
    {
      w := (mem[a] as int) + 0x100 * (mem[a + 1] as int)
         + 0x1_0000 * (mem[a + 2] as int) + 0x100_0000 * (mem[a + 3] as int);
    }

    method PutWord(a: nat, w: uint32)
      requires mem.Length == HEAP_SIZE && a + 4 <= HEAP_SIZE
      modifies mem
      ensures mem[..] == Store(old(mem[..]), a, w)
    {
      mem[a], mem[a + 1], mem[a + 2], mem[a + 3] := w % 0x100, w / 0x100 % 0x100, w / 0x1_0000 % 0x100, w / 0x100_0000;
    }

    method PutSize(a: nat, size: uint32)
      requires mem.Length == HEAP_SIZE && a + HEADER <= HEAP_SIZE
      modifies mem
      ensures mem[..] == SetSize(old(mem[..]), a, size)
    {
      PutWord(a, size);
    }

    method PutFree(a: nat, free: bool)
      requires mem.Length == HEAP_SIZE && a + HEADER <= HEAP_SIZE
      modifies mem
      ensures mem[..] == SetFree(old(mem[..]), a, free)
    {
      mem[a + 4] := if free then 1 else 0;
    }

    method PutNext(a: nat, next: uint32)
      requires mem.Length == HEAP_SIZE && a + HEADER <= HEAP_SIZE
      modifies mem
      ensures mem[..] == SetNext(old(mem[..]), a, next)
    {
      PutWord(a + 8, next);
    }

    /** `kmalloc`: the address of the payload, 0 for none. */
    method KMalloc(size: uint32) returns (ptr: nat)
      requires Valid()
      modifies this, mem
      ensures Valid() && View() == Step(old(View()), MallocOp(size))
      ensures var k := FirstFit(old(View()), 0, size);
              ptr == if size == 0 || k == |old(path)| then 0 else HEAP_START + old(path)[k] + HEADER
    {
      hide HeaderAt;
      if size == 0 { return 0; }
      StepWellFormed(View(), MallocOp(size));
      var current := HEAP_START;
      ghost var i := 0;
      while current != 0
        invariant Valid() && View() == old(View()) && i <= |path|
        invariant current == if i < |path| then HEAP_START + path[i] else 0
        invariant FirstFit(View(), i, size) == FirstFit(View(), 0, size)
        decreases |path| - i
      {
        var c := current - HEAP_START;
        var free, room := BlockInfo(c, i);
        if free && room >= size {
          TakeBlock(c, i, size);
          return HEAP_START + c + HEADER;
        }
        current := NextBlock(c, i);
        i := i + 1;
      }
      return 0;
    }

    method BlockInfo(c: nat, ghost i: nat) returns (free: bool, size: uint32)
      requires Valid() && i < |path| && path[i] == c
      ensures free == At(View(), i).free && size == At(View(), i).size
    {
      free := mem[c + 4] != 0;
      size := GetWord(c);
    }

    method NextBlock(c: nat, ghost i: nat) returns (next: uint32)
      requires Valid() && i < |path| && path[i] == c
      ensures next == NextOf(path, i)
    {
      assert At(View(), i).next == NextOf(path, i);
      next := GetWord(c + 8);
    }

    /** The part of `kmalloc` that takes `size` bytes from the block at `c`. */
    method TakeBlock(c: nat, ghost i: nat, size: uint32)
      requires Valid() && i < |path| && path[i] == c && At(View(), i).size >= size
      modifies this, mem
      ensures View() == MallocAt(old(View()), i, size)
    {
      hide Store;
      hide Load;
      hide SetSize;
      hide SetFree;
      hide SetNext;
      hide WellFormed;
      Inside(View(), i);
      var room := GetWord(c);
      var next := GetWord(c + 8);
      if room > size + HEADER {
        var b := c + HEADER + size;
        PutSize(b, room - size - HEADER);
        PutFree(b, true);
        PutNext(b, next);
        PutNext(c, HEAP_START + b);
        path := path[..i + 1] + [b] + path[i + 1..];
      }
      PutSize(c, size);
      PutFree(c, false);
    }

    /**
     `kfree` for the address of a block on the list; other addresses inside the heap are the caller's mistake. The
     call must return, which `HeapFree.FreeReturns` and `HeapReentry.QuietFree` promise.
     */
    method KFree(ptr: uint32, ghost i: nat)
      requires Valid()
      requires HEAP_START <= ptr <= HEAP_START + HEAP_SIZE ==>
                 i < |path| && ptr == PtrOf(View(), i) && (At(View(), i).free || Freeable(View(), i))
      requires exists m' :: Yields(mem[..], ptr, m')
      modifies this, mem
      ensures Yields(old(mem[..]), ptr, mem[..])
      ensures !(HEAP_START <= ptr <= HEAP_START + HEAP_SIZE) || At(old(View()), i).free ==> View() == old(View())
      ensures HEAP_START <= ptr <= HEAP_START + HEAP_SIZE && !At(old(View()), i).free && Quiet(old(View()), i) ==>
                Valid() && View() == Step(old(View()), FreeOp(i))
    {
      hide Store;
      hide Walk;
      ghost var h := View();
      ghost var ignored := !(HEAP_START <= ptr <= HEAP_START + HEAP_SIZE) || At(h, i).free;
      ghost var fuel: nat :| Kfree(mem[..], ptr, fuel).Some?;
      Release(ptr, fuel);
      if !ignored && Quiet(h, i) {
        StepWellFormed(h, FreeOp(i));
        QuietFree(h, i);
        YieldsOne(h.mem, ptr, mem[..], FreeAt(h, i).mem);
        path := FreeAt(h, i).path;
      }
    }

    /** `kfree` on the bytes of the heap; `fuel` bounds its nested calls and steps. */
    method Release(ptr: uint32, ghost fuel: nat)
      requires mem.Length == HEAP_SIZE && Kfree(mem[..], ptr, fuel).Some?
      modifies mem
      ensures Some(mem[..]) == Kfree(old(mem[..]), ptr, fuel)
      decreases fuel, 1
    {
      hide Walk;
      hide Store;
      if ptr == 0 { return; }
      if ptr < HEAP_START || ptr > HEAP_START + HEAP_SIZE { return; }
      var block := ptr - HEADER - HEAP_START;
      if mem[block + 4] != 0 { return; }
      PutFree(block, true);
      MergeWalk(fuel - 1);
      PutWord(ptr - HEAP_START, 0);
    }

    /** The walk of `kfree` that joins neighbouring free blocks and calls `kfree` for the header behind them. */
    method MergeWalk(ghost fuel: nat)
      requires mem.Length == HEAP_SIZE && Walk(mem[..], HEAP_START, fuel).Some?
      modifies mem
      ensures Some(mem[..]) == Walk(old(mem[..]), HEAP_START, fuel)
      decreases fuel, 2
    {
      hide Kfree;
      hide Load;
      hide JoinedBytes;
      var current: nat := HEAP_START;
      ghost var left: nat := fuel;
      while current != 0
        invariant left <= fuel && Walk(mem[..], current, left) == Walk(old(mem[..]), HEAP_START, fuel)
        decreases left
      {
        var c := current - HEAP_START;
        var next := GetWord(c + 8);
        if mem[c + 4] != 0 && next != 0 && mem[next - HEAP_START + 4] != 0 {
          JoinNext(c, next - HEAP_START);
          next := GetWord(c + 8);
          Release(next, left - 1);
        }
        current := GetWord(c + 8);
        left := left - 1;
      }
    }

    /** The part of that walk that joins the block at `c` with the next one, at `d`. */
    method JoinNext(c: nat, d: nat)
      requires mem.Length == HEAP_SIZE && c + HEADER <= HEAP_SIZE && d + HEADER <= HEAP_SIZE
      modifies mem
      ensures mem[..] == JoinedBytes(old(mem[..]), c, d)
    {
      hide Store;
      hide Load;
      hide SetSize;
      hide SetNext;
      var size := GetWord(c);
      var nextSize := GetWord(d);
      PutSize(c, (size + nextSize + HEADER) % 0x1_0000_0000);
      var nextNext := GetWord(d + 8);
      PutNext(c, nextNext);
    }

    /** `kcalloc`: the product of the arguments is taken in 32 bits, and that many bytes are allocated and zeroed. */
    method KCalloc(num: uint32, size: uint32) returns (ptr: nat)
      requires Valid()
      modifies this, mem
      ensures Valid()
      ensures var total := num * size % 0x1_0000_0000; var k := FirstFit(old(View()), 0, total);
              var h := Step(old(View()), MallocOp(total));
              && path == h.path && (ptr == 0 <==> total == 0 || k == |old(path)|) && (ptr == 0 ==> View() == h)
              && (ptr != 0 ==>
                  ptr == HEAP_START + path[k] + HEADER && At(View(), k) == At(h, k) && At(h, k).size == total)
              && (ptr != 0 ==> forall x :: 0 <= x < HEAP_SIZE ==> mem[x] == if InPayload(h, k, x) then 0 else h.mem[x])
    {
      hide HeaderAt;
      hide FirstFit;
      var total := num * size % 0x1_0000_0000;
      ptr := KMalloc(total);
      if ptr == 0 { return; }
      ghost var k := FirstFit(old(View()), 0, total);
      MallocBlock(old(View()), k, total);
      ghost var h := View();
      Inside(h, k);
      var start := ptr - HEAP_START;
      var i := 0;
      while i < total
        invariant i <= total && path == h.path
        invariant forall x :: 0 <= x < HEAP_SIZE ==> mem[x] == if start <= x < start + i then 0 else h.mem[x]
      {
        mem[start + i] := 0;
        i := i + 1;
      }
      assert h.path[k] + HEADER + At(h, k).size <= Until(h.path, k);
      PayloadWritten(h, mem[..], k, start, total);
      assert View() == Heap(mem[..], h.path);
    }
  }
}
