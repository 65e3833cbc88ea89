/** The frame allocator as it changes its metadata nodes in place, proved against the list of nodes. */
module FrameAllocator {
  import opened Options
  import opened FrameModel
  import opened FrameProofs
  import opened FrameRuns

  class Allocator {
    var slots: map<nat, Node>
    var used: int
    /** The slots on the list, from the head on. */
    ghost var path: seq<nat>

    ghost function View(): Pmm
      reads this
    {
      Pmm(slots, path, used)
    }

    /** All memory from `lo` to `hi` is one free block. */
    constructor (lo: nat, hi: nat)
      requires lo < hi
      ensures View() == Initial(lo, hi)
    {
      slots, used, path := map[0 := Node(lo, hi - lo, true, None, None)], 0, [0];
    }

    /** The part of `alloc_frame` that takes `size` bytes from the block in slot `c`. */
    method TakeBlock(c: nat, ghost i: nat, size: nat)
      requires Chain(View()) && i < |path| && path[i] == c && slots[c].size >= size
      modifies this
      ensures View() == AllocAt(old(View()), i, size, false)
    {
      assert slots[c].prev == At(View(), i).prev;
      if slots[c].size > size {
        slots := slots[c + 1 := Node(slots[c].addr + size, slots[c].size - size, true, slots[c].next, Some(c))];
        slots := slots[c := slots[c].(next := Some(c + 1))];
        path := path[..i + 1] + [c + 1] + path[i + 1..];
      }
      slots := slots[c := slots[c].(size := size)];
      if slots[c].prev.Some? {
        var p := slots[c].prev.value;
        slots := slots[c := slots[c].(addr := slots[p].addr + slots[p].size)];
      }
      slots := slots[c := slots[c].(free := false)];
      used := used + size;
    }

    /** `pmm::alloc_frame`; the size is computed in 64 bits. */
    method AllocFrame(numBlocks: nat) returns (ptr: Option<nat>)
      requires Chain(View()) && numBlocks < 0x1_0000_0000_0000_0000
      modifies this
      ensures View() == Step(old(View()), AllocOp(numBlocks), false)
      ensures var k := FirstFit(old(View()), 0, Bytes(numBlocks));
              if numBlocks == 0 || k == |old(path)| then ptr == None
              else Nodes(View()) && k < |path| && ptr == Some(AlignUp(At(View(), k).addr))
    {
      if numBlocks == 0 { return None; }
      var size := Bytes(numBlocks);
      var current := Some(0);
      ghost var i := 0;
      while current.Some?
        invariant i <= |path| && current == if i < |path| then Some(path[i]) else None
        invariant View() == old(View()) && FirstFit(View(), i, size) == FirstFit(View(), 0, size)
        decreases |path| - i
      {
        var c := current.value;
        assert At(View(), i) == slots[c];
        if slots[c].free && slots[c].size >= size {
          TakeBlock(c, i, size);
          return Some(AlignUp(slots[c].addr));
        }
        assert slots[c].next == After(path, i);
        current := slots[c].next;
        i := i + 1;
      }
      return None;
    }

    /** `pmm::free_frame`, without unmapping the pages. */
    method FreeFrame(ptr: nat)
      requires Chain(View()) && (ptr != 0 ==> Owned(View(), ptr))
      modifies this
      ensures View() == if ptr == 0 then old(View()) else Step(old(View()), FreeOp(ptr), false)
    {
      if ptr == 0 { return; }
      var current := 0;
      ghost var k := 0;
      while slots[current].addr != ptr
        invariant k < |path| && current == path[k]
        invariant Find(View(), k, ptr) == Find(View(), 0, ptr)
        decreases |path| - k
      {
        assert slots[current].next == At(View(), k).next == After(path, k);
        current := slots[current].next.value;
        k := k + 1;
      }
      ReleasedNode(View(), k);
      slots := slots[current := slots[current].(free := true)];
      used := used - slots[current].size;
      assert View() == Release(old(View()), k);
      MergeFree();
    }

    /** Free neighbours are merged until a walk over the list finds none. */
    method MergeFree()
      requires Chain(View())
      modifies this
      ensures View() == MergeAll(old(View()))
    {
      var merged := true;
      while merged
        invariant Chain(View())
        invariant if merged then MergeAll(View()) == MergeAll(old(View())) else View() == MergeAll(old(View()))
        decreases |path|, merged
      {
        merged := MergeWalk();
      }
    }

    /** The part of `free_frame` that joins the block in slot `c` with the next one, in slot `d`. */
    method JoinNext(c: nat, d: nat, ghost i: nat)
      requires Chain(View()) && i + 1 < |path| && path[i] == c && path[i + 1] == d
      modifies this
      ensures View() == MergeAt(old(View()), i) && Chain(View()) && |path| == |old(path)| - 1
      ensures path[i] == c && View().slots.Keys == old(slots).Keys
    {
      ghost var m := View();
      assert slots[d].next == At(m, i + 1).next == After(path, i + 1);
      slots := slots[c := slots[c].(size := slots[c].size + slots[d].size)];
      slots := slots[c := slots[c].(next := slots[d].next)];
      if slots[c].next.Some? {
        var e := slots[c].next.value;
        slots := slots[e := slots[e].(prev := Some(c))];
      }
      path := path[..i + 1] + path[i + 2..];
      assert View() == MergeAt(m, i);
      MergeJoins(m, i);
      JoinedChain(m, View(), i);
    }

    method MergeWalk() returns (merged: bool)
      requires Chain(View())
      modifies this
      ensures View() == MergePass(old(View()), 0) && Chain(View()) && (merged <==> |path| < |old(path)|)
    {
      var current := Some(0);
      ghost var i := 0;
      merged := false;
      while current.Some?
        invariant Chain(View()) && i <= |path| && current == if i < |path| then Some(path[i]) else None
        invariant MergePass(View(), i) == MergePass(old(View()), 0)
        invariant |path| <= |old(path)| && (merged <==> |path| < |old(path)|)
        decreases |path| - i
      {
        var c := current.value;
        assert slots[c].next == At(View(), i).next == After(path, i);
        if slots[c].free && slots[c].next.Some? && slots[slots[c].next.value].free {
          var d := slots[c].next.value;
          if slots[d].addr == slots[c].addr + slots[c].size {
            JoinNext(c, d, i);
            merged := true;
          }
        }
        assert slots[c].next == At(View(), i).next == After(path, i);
        current := slots[c].next;
        i := i + 1;
      }
    }
  }
}
