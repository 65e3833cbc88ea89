/** What the calls of the heap do to the list of blocks, told by offsets and sizes, and how much memory they give up. */
module HeapBlocks {
  import opened Words
  import opened HeapModel
  import opened HeapProofs
  import opened HeapMerge
  import opened HeapReentry
  import opened HeapRuns
  import opened HeapCoded

  /** A block by the offset of its header and the size of its payload. */
  datatype Block = Block(at: nat, size: nat, free: bool)

  function BlockOf(h: Heap, i: nat): Block
    requires InArena(h) && i < |h.path|
  {
    Block(h.path[i], At(h, i).size, At(h, i).free)
  }

  /** All blocks, in order. */
  function Blocks(h: Heap): (bs: seq<Block>)
    requires InArena(h)
    ensures |bs| == |h.path| && forall i :: 0 <= i < |bs| ==> bs[i] == BlockOf(h, i)
  {
    seq(|h.path|, i requires 0 <= i < |h.path| => BlockOf(h, i))
  }

  /** The payload bytes of all blocks and twelve for the header of each. */
  function Total(bs: seq<Block>): nat
  {
    if bs == [] then 0 else 12 + bs[0].size + Total(bs[1..])
  }

  /** The free blocks: offset and size. */
  ghost function FreeBlocks(bs: seq<Block>): set<(nat, nat)>
  {
    set i | 0 <= i < |bs| && bs[i].free :: (bs[i].at, bs[i].size)
  }

  lemma {:induction false} TotalConcat(a: seq<Block>, b: seq<Block>)
    ensures Total(a + b) == Total(a) + Total(b)
  {
    if a == [] {
      assert a + b == b;
    } else {
      assert (a + b)[1..] == a[1..] + b;
      TotalConcat(a[1..], b);
    }
  }

  lemma FreeConcat(a: seq<Block>, b: seq<Block>)
    ensures FreeBlocks(a + b) == FreeBlocks(a) + FreeBlocks(b)
  {
    forall x | x in FreeBlocks(a) + FreeBlocks(b)
      ensures x in FreeBlocks(a + b)
    {
      if x in FreeBlocks(a) {
        var i :| 0 <= i < |a| && a[i].free && x == (a[i].at, a[i].size);
        assert (a + b)[i].free;
      } else {
        var i :| 0 <= i < |b| && b[i].free && x == (b[i].at, b[i].size);
        assert (a + b)[|a| + i].free;
      }
    }
  }

  /** The fields of a header: size, a byte that is not 0 for a free block, and the address of the next header. */
  lemma HeaderBytes(m: Arena, a: nat)
    requires a + 12 <= HEAP_SIZE
    ensures var n := HeaderAt(m, a);
            && n.size == (m[a] as int) + 256 * (m[a + 1] as int) + 256 * 256 * (m[a + 2] as int)
                         + 256 * 256 * 256 * (m[a + 3] as int)
            && (n.free <==> m[a + 4] != 0)
            && n.next == (m[a + 8] as int) + 256 * (m[a + 9] as int) + 256 * 256 * (m[a + 10] as int)
                         + 256 * 256 * 256 * (m[a + 11] as int)
  {
  }

  // ---------------------------------------------------------------------------------------------
  // Allocating

  /** What taking `size` bytes leaves of a block: itself, and a free rest if there is room for its header. */
  function Parts(b: Block, size: nat): seq<Block>
    requires size <= b.size
  {
    [Block(b.at, size, false)]
    + if b.size > size + 12 then [Block(b.at + 12 + size, b.size - size - 12, true)] else []
  }

  lemma DividedBlocks(h: Heap, h': Heap, i: nat, size: nat)
    requires InArena(h) && i < |h.path| && Divided(h, h', i, size)
    ensures At(h, i).size > size + 12
    ensures Blocks(h') == Blocks(h)[..i] + Parts(BlockOf(h, i), size) + Blocks(h)[i + 1..]
  {
    hide HeaderAt;
    var bs, parts := Blocks(h), Parts(BlockOf(h, i), size);
    forall j | 0 <= j < |h'.path|
      ensures Blocks(h')[j] == (bs[..i] + parts + bs[i + 1..])[j]
    {
      if j > i + 1 {
        assert h'.path[(j - 1) + 1] == h.path[j - 1] && At(h', (j - 1) + 1) == At(h, j - 1);
      }
    }
  }

  lemma WholeBlocks(h: Heap, h': Heap, i: nat, size: nat)
    requires InArena(h) && h'.path == h.path && i < |h.path| && size <= At(h, i).size <= size + 12
    requires At(h', i).size == size && !At(h', i).free
    requires forall j :: 0 <= j < |h.path| && j != i ==> At(h', j) == At(h, j)
    ensures Blocks(h') == Blocks(h)[..i] + Parts(BlockOf(h, i), size) + Blocks(h)[i + 1..]
  {
    hide HeaderAt;
  }

  /** An allocation replaces the block that it takes by its parts and leaves all other blocks alone. */
  lemma MallocBlocks(h: Heap, i: nat, size: nat)
    requires WellFormed(h) && i < |h.path| && At(h, i).free && At(h, i).size >= size
    ensures InArena(MallocAt(h, i, size))
    ensures Blocks(MallocAt(h, i, size)) == Blocks(h)[..i] + Parts(BlockOf(h, i), size) + Blocks(h)[i + 1..]
  {
    hide MallocAt;
    hide Blocks;
    hide Parts;
    hide HeaderAt;
    MallocKeeps(h, i, size);
    var h' := MallocAt(h, i, size);
    if Splits(h, i, size) {
      MallocDivides(h, i, size);
      hide Divided;
      DividedBlocks(h, h', i, size);
    } else {
      WholeHeaders(h, i, size);
      HeaderChanged(h, h'.mem, i);
      hide SameBut;
      hide PayloadsKept;
      assert Heap(h'.mem, h.path) == h';
      WholeBlocks(h, h', i, size);
    }
  }

  /**
   The free blocks are the old ones but the one that is taken, and its rest exactly if more than twelve bytes are left
   over; all blocks together lose at most those twelve bytes.
   */
  lemma MallocFree(h: Heap, i: nat, size: nat)
    requires WellFormed(h) && i < |h.path| && At(h, i).free && At(h, i).size >= size
    ensures var h', c, n := MallocAt(h, i, size), h.path[i], At(h, i).size;
            && InArena(h')
            && FreeBlocks(Blocks(h')) == FreeBlocks(Blocks(h)) - {(c, n)}
                 + (if n > size + 12 then {(c + 12 + size, n - size - 12)} else {})
            && Total(Blocks(h')) == Total(Blocks(h)) - if n > size + 12 then 0 else n - size
  {
    hide *;
    Formed(h);
    MallocBlocks(h, i, size);
    TakenOnce(h, i);
    var bs, b := Blocks(h), BlockOf(h, i);
    assert b == Block(h.path[i], At(h, i).size, true) by {
      IsBlock(h, i);
    }
    assert bs == bs[..i] + [b] + bs[i + 1..];
    PartsReplace(bs[..i], b, bs[i + 1..], size);
  }

  lemma Formed(h: Heap)
    requires WellFormed(h)
    ensures InArena(h) && forall i :: 0 <= i < |h.path| ==> h.path[i] + HEADER <= HEAP_SIZE
  {
  }

  lemma IsBlock(h: Heap, i: nat)
    requires InArena(h) && i < |h.path|
    ensures BlockOf(h, i) == Block(h.path[i], At(h, i).size, At(h, i).free)
  {
  }

  lemma PartsReplace(before: seq<Block>, b: Block, behind: seq<Block>, size: nat)
    requires b.free && size <= b.size && (b.at, b.size) !in FreeBlocks(before) + FreeBlocks(behind)
    ensures FreeBlocks(before + Parts(b, size) + behind)
         == FreeBlocks(before + [b] + behind) - {(b.at, b.size)}
            + (if b.size > size + 12 then {(b.at + 12 + size, b.size - size - 12)} else {})
    ensures Total(before + Parts(b, size) + behind)
         == Total(before + [b] + behind) - if b.size > size + 12 then 0 else b.size - size
  {
    TotalParts(b, size);
    FreeParts(b, size);
    OneFree(b);
    hide *;
    Replaced(before, [b], behind);
    Replaced(before, Parts(b, size), behind);
  }

  lemma OneFree(b: Block)
    requires b.free
    ensures FreeBlocks([b]) == {(b.at, b.size)}
  {
    assert [b][0].free;
  }

  lemma Replaced(before: seq<Block>, mid: seq<Block>, behind: seq<Block>)
    ensures Total(before + mid + behind) == Total(before) + Total(mid) + Total(behind)
    ensures FreeBlocks(before + mid + behind) == FreeBlocks(before) + FreeBlocks(mid) + FreeBlocks(behind)
  {
    TotalConcat(before + mid, behind);
    TotalConcat(before, mid);
    FreeConcat(before + mid, behind);
    FreeConcat(before, mid);
  }

  lemma TotalParts(b: Block, size: nat)
    requires size <= b.size
    ensures Total(Parts(b, size)) == Total([b]) - if b.size > size + 12 then 0 else b.size - size
  {
    var p := Parts(b, size);
    assert p[1..] == if b.size > size + 12 then [Block(b.at + 12 + size, b.size - size - 12, true)] else [];
    if b.size > size + 12 {
      assert p[1..][1..] == [];
    }
  }

  lemma FreeParts(b: Block, size: nat)
    requires size <= b.size
    ensures FreeBlocks(Parts(b, size))
         == if b.size > size + 12 then {(b.at + 12 + size, b.size - size - 12)} else {}
  {
    var p := Parts(b, size);
    if b.size > size + 12 {
      assert p[1].free;
    }
  }

  lemma TakenOnce(h: Heap, i: nat)
    requires WellFormed(h) && i < |h.path|
    ensures forall x :: x in FreeBlocks(Blocks(h)[..i]) + FreeBlocks(Blocks(h)[i + 1..]) ==> x.0 != h.path[i]
  {
    hide HeaderAt;
    var bs := Blocks(h);
    forall j | 0 <= j < |h.path| && j != i
      ensures bs[j].at != h.path[i]
    {
      if j < i { Ordered(h, j, i); } else { Ordered(h, i, j); }
    }
  }

  // ---------------------------------------------------------------------------------------------
  // Freeing

  /** Two free blocks as one, which takes in the header between them. */
  function Both(b: Block, c: Block): Block { Block(b.at, b.size + 12 + c.size, true) }

  /** One walk that joins each free block with the next one if that is free too, and then goes on behind it. */
  function JoinedPairs(bs: seq<Block>): seq<Block>
  {
    if |bs| < 2 then bs
    else if bs[0].free && bs[1].free then [Both(bs[0], bs[1])] + JoinedPairs(bs[2..])
    else [bs[0]] + JoinedPairs(bs[1..])
  }

  /** Joining blocks gives up nothing. */
  lemma {:induction false} JoinedTotal(bs: seq<Block>)
    ensures Total(JoinedPairs(bs)) == Total(bs)
  {
    if |bs| >= 2 {
      if bs[0].free && bs[1].free {
        JoinedTotal(bs[2..]);
      } else {
        JoinedTotal(bs[1..]);
      }
    }
  }

  lemma JoinedBlocks(h: Heap, h': Heap, i: nat)
    requires InArena(h) && i + 1 < |h.path| && Joined(h, h', i) && At(h, i).free
    ensures InArena(h')
    ensures Blocks(h') == Blocks(h)[..i] + [Both(BlockOf(h, i), BlockOf(h, i + 1))] + Blocks(h)[i + 2..]
  {
    assert InArena(h') && |h'.path| == |h.path| - 1;
    hide HeaderAt;
    hide Joined;
    var bs, joined := Blocks(h), Both(BlockOf(h, i), BlockOf(h, i + 1));
    forall j | 0 <= j < |h'.path|
      ensures Blocks(h')[j] == (bs[..i] + [joined] + bs[i + 2..])[j]
    {
      JoinedNode(h, h', i, j);
    }
  }

  lemma MergeBlocks(h: Heap, i: nat)
    requires WellFormed(h) && i + 1 < |h.path| && BothFree(h, i)
    ensures WellFormed(MergeAt(h, i)) && InArena(MergeAt(h, i))
    ensures Blocks(MergeAt(h, i)) == Blocks(h)[..i] + [Both(BlockOf(h, i), BlockOf(h, i + 1))] + Blocks(h)[i + 2..]
  {
    hide MergeAt;
    hide Blocks;
    hide Joined;
    hide HeaderAt;
    MergeKeeps(h, i);
    MergeJoins(h, i);
    JoinedBlocks(h, MergeAt(h, i), i);
  }

  lemma PairsFrom(bs: seq<Block>, i: nat)
    requires i < |bs|
    ensures JoinedPairs(bs[i..])
         == if i + 1 < |bs| && bs[i].free && bs[i + 1].free then [Both(bs[i], bs[i + 1])] + JoinedPairs(bs[i + 2..])
            else [bs[i]] + JoinedPairs(bs[i + 1..])
  {
    assert bs[i..][1..] == bs[i + 1..];
    if i + 1 < |bs| {
      assert bs[i..][2..] == bs[i + 2..];
    } else {
      assert bs[i + 1..] == [];
    }
  }

  lemma {:induction false} PassBlocks(h: Heap, i: nat)
    requires WellFormed(h) && i <= |h.path|
    ensures InArena(h) && InArena(MergePass(h, i))
    ensures Blocks(MergePass(h, i)) == Blocks(h)[..i] + JoinedPairs(Blocks(h)[i..])
    decreases |h.path| - i
  {
    hide *;
    Formed(h);
    Formed(MergePass(h, i));
    var bs := Blocks(h);
    if i == |h.path| {
      PassStep(h, i);
      NoPairs();
      assert bs[..i] == bs && bs[i..] == [] && bs + [] == bs;
    } else {
      PairsFrom(bs, i);
      PassStep(h, i);
      IsBoth(h, i);
      if BothFree(h, i) {
        MergeBlocks(h, i);
        var h1, joined := MergeAt(h, i), Both(bs[i], bs[i + 1]);
        PassBlocks(h1, i + 1);
        assert Blocks(h1)[i + 1..] == bs[i + 2..] && Blocks(h1)[..i + 1] == bs[..i] + [joined];
      } else {
        PassBlocks(h, i + 1);
        assert bs[..i + 1] == bs[..i] + [bs[i]];
      }
    }
  }

  lemma NoPairs()
    ensures JoinedPairs([]) == []
  {
  }

  lemma PassStep(h: Heap, i: nat)
    requires WellFormed(h) && InArena(h) && i <= |h.path|
    ensures i == |h.path| ==> MergePass(h, i) == h
    ensures i < |h.path| && BothFree(h, i) ==>
              WellFormed(MergeAt(h, i)) && MergePass(h, i) == MergePass(MergeAt(h, i), i + 1)
    ensures i < |h.path| && !BothFree(h, i) ==> MergePass(h, i) == MergePass(h, i + 1)
  {
    hide HeaderAt;
    if i < |h.path| && BothFree(h, i) {
      MergeKeeps(h, i);
    }
  }

  lemma IsBoth(h: Heap, i: nat)
    requires InArena(h) && i < |h.path|
    ensures BothFree(h, i) <==> i + 1 < |h.path| && BlockOf(h, i).free && BlockOf(h, i + 1).free
  {
  }

  /** The intended free marks the block and joins pairs of free neighbours in one walk; it gives up nothing. */
  lemma FreeBlocksAfter(h: Heap, i: nat)
    requires WellFormed(h) && Freeable(h, i)
    ensures InArena(FreeAt(h, i))
    ensures Blocks(FreeAt(h, i)) == JoinedPairs(Blocks(h)[i := BlockOf(h, i).(free := true)])
    ensures Total(Blocks(FreeAt(h, i))) == Total(Blocks(h))
  {
    hide HeaderAt;
    hide Store;
    FreeKeeps(h, i);
    MarkedNodes(h, i);
    MarkedWellFormed(h, i);
    var h1, a, bs := Marked(h, i), h.path[i] + HEADER, Blocks(h)[i := BlockOf(h, i).(free := true)];
    assert Blocks(h1) == bs;
    PassBlocks(h1, 0);
    assert bs[0..] == bs && bs[..0] + JoinedPairs(bs) == JoinedPairs(bs);
    var h2 := MergePass(h1, 0);
    var j := PassKeeps(h1, 0, i, a, 4);
    StoreLoad(h2.mem, a, 0);
    PayloadWritten(h2, Store(h2.mem, a, 0), j, a, 4);
    assert Blocks(FreeAt(h, i)) == Blocks(h2);
    JoinedTotal(bs);
    MarkTotal(Blocks(h), i);
  }

  lemma MarkTotal(bs: seq<Block>, i: nat)
    requires i < |bs|
    ensures Total(bs[i := bs[i].(free := true)]) == Total(bs)
  {
    var b, before, behind := bs[i], bs[..i], bs[i + 1..];
    assert bs == before + [b] + behind && bs[i := b.(free := true)] == before + [b.(free := true)] + behind;
    Replaced(before, [b], behind);
    Replaced(before, [b.(free := true)], behind);
    assert Total([b]) == Total([b.(free := true)]);
  }

  ghost predicate NoneAdjacent(bs: seq<Block>)
  {
    forall k :: 0 <= k < |bs| - 1 ==> !(bs[k].free && bs[k + 1].free)
  }

  lemma {:induction false} NothingJoined(bs: seq<Block>)
    requires NoneAdjacent(bs)
    ensures JoinedPairs(bs) == bs
  {
    if |bs| >= 2 {
      assert NoneAdjacent(bs[1..]);
      NothingJoined(bs[1..]);
    }
  }

  /** The list in which the freed block has joined the free one before it, or else the free one behind it. */
  function ListAfterFree(bs: seq<Block>, i: nat): seq<Block>
    requires i < |bs|
  {
    var b := bs[i].(free := true);
    if i > 0 && bs[i - 1].free then bs[..i - 1] + [Both(bs[i - 1], b)] + bs[i + 1..]
    else if i + 1 < |bs| && bs[i + 1].free then bs[..i] + [Both(b, bs[i + 1])] + bs[i + 2..]
    else bs[i := b]
  }

  /**
   Where no two neighbours are free, the freed block joins the free one before it or else the free one behind it; if
   both are free, the one behind it stays on its own.
   */
  lemma {:induction false} FreedJoins(bs: seq<Block>, i: nat)
    requires NoneAdjacent(bs) && i < |bs| && !bs[i].free
    ensures JoinedPairs(bs[i := bs[i].(free := true)]) == ListAfterFree(bs, i)
    decreases i
  {
    hide JoinedPairs;
    hide ListAfterFree;
    if i == 0 || (i == 1 && bs[0].free) {
      FreedInFront(bs, i);
    } else {
      var b := bs[i].(free := true);
      var bs' := bs[i := b];
      PairsFrom(bs', 0);
      assert bs'[0..] == bs' && bs'[0] == bs[0];
      assert !(bs'[0].free && bs'[1].free);
      assert bs'[1..] == bs[1..][i - 1 := b];
      RestStays(bs, 1);
      FreedJoins(bs[1..], i - 1);
      hide NoneAdjacent;
      FreedBehind(bs, i);
    }
  }

  lemma FreedInFront(bs: seq<Block>, i: nat)
    requires NoneAdjacent(bs) && i < |bs| && !bs[i].free && (i == 0 || (i == 1 && bs[0].free))
    ensures JoinedPairs(bs[i := bs[i].(free := true)]) == ListAfterFree(bs, i)
  {
    hide JoinedPairs;
    var bs' := bs[i := bs[i].(free := true)];
    PairsFrom(bs', 0);
    assert bs'[0..] == bs';
    RestStays(bs, 1);
    assert i == 0 ==> bs'[1..] == bs[1..];
    if |bs| >= 2 {
      RestStays(bs, 2);
      assert bs'[2..] == bs[2..];
    }
  }

  lemma FreedBehind(bs: seq<Block>, i: nat)
    requires 0 < i < |bs| && (i == 1 ==> !bs[0].free)
    ensures [bs[0]] + ListAfterFree(bs[1..], i - 1) == ListAfterFree(bs, i)
  {
    hide Both;
    var b, tail := bs[i].(free := true), bs[1..];
    PutBack(bs, i, b);
    assert tail[i - 1] == bs[i] && (i > 1 ==> tail[i - 2] == bs[i - 1]);
    assert i + 1 < |bs| ==> tail[i] == bs[i + 1];
    if i > 1 && bs[i - 1].free {
      Consed(bs[0], tail[..i - 2], [Both(bs[i - 1], b)], tail[i..]);
    } else if i + 1 < |bs| && bs[i + 1].free {
      Consed(bs[0], tail[..i - 1], [Both(b, bs[i + 1])], tail[i + 1..]);
    }
  }

  lemma Consed(b: Block, p: seq<Block>, q: seq<Block>, r: seq<Block>)
    ensures [b] + (p + q + r) == ([b] + p) + q + r
  {
  }

  lemma RestStays(bs: seq<Block>, k: nat)
    requires NoneAdjacent(bs) && k <= |bs|
    ensures NoneAdjacent(bs[k..]) && JoinedPairs(bs[k..]) == bs[k..]
  {
    NothingJoined(bs[k..]);
  }

  /** The parts of a list from its parts without the first block. */
  lemma PutBack(bs: seq<Block>, i: nat, b: Block)
    requires 0 < i < |bs|
    ensures [bs[0]] + bs[1..][i - 1 := b] == bs[i := b] && bs[1..][i..] == bs[i + 1..]
    ensures [bs[0]] + bs[1..][..i - 1] == bs[..i] && (i >= 2 ==> [bs[0]] + bs[1..][..i - 2] == bs[..i - 1])
    ensures i + 1 < |bs| ==> bs[1..][i + 1..] == bs[i + 2..]
  {
  }

  // ---------------------------------------------------------------------------------------------
  // Calls

  /** The heap that `heap::init` sets up is one free block. */
  lemma InitialBlocks()
    ensures InArena(Initial()) && Blocks(Initial()) == [Block(0, 0x30_0000 - 12, true)]
    ensures Total(Blocks(Initial())) == 0x30_0000
  {
    hide Total;
    InitialWellFormed();
    var m := Zeros(HEAP_SIZE);
    var m1 := SetSize(m, 0, HEAP_SIZE - HEADER);
    var m2 := SetFree(m1, 0, true);
    SetSizeHeader(m, 0, HEAP_SIZE - HEADER);
    SetFreeHeader(m1, 0, true);
    SetNextHeader(m2, 0, 0);
    hide HeaderAt;
    OneTotal(Blocks(Initial())[0]);
  }

  lemma OneTotal(b: Block)
    ensures Total([b]) == 12 + b.size
  {
    assert [b][1..] == [];
  }

  /** `kmalloc` takes the first free block that is large enough; without one nothing changes. */
  lemma MallocStep(h: Heap, size: nat)
    requires WellFormed(h) && 0 < size < 0x1_0000_0000
    ensures var h', bs := Step(h, MallocOp(size)), Blocks(h);
            if forall k :: 0 <= k < |bs| ==> !(bs[k].free && bs[k].size >= size) then h' == h
            else
              InArena(h') &&
              exists i :: 0 <= i < |bs| && bs[i].free && bs[i].size >= size
                          && (forall k :: 0 <= k < i ==> !(bs[k].free && bs[k].size >= size))
                          && Blocks(h') == bs[..i] + Parts(bs[i], size) + bs[i + 1..]
  {
    hide HeaderAt;
    hide MallocAt;
    hide Parts;
    var i := FirstFit(h, 0, size);
    assert forall k :: 0 <= k < |h.path| ==> Blocks(h)[k] == BlockOf(h, k);
    if i < |h.path| {
      MallocBlocks(h, i, size);
    }
  }

  lemma {:induction false} TotalIsSizes(h: Heap, k: nat)
    requires InArena(h) && k <= |h.path|
    ensures Total(Blocks(h)[..k]) == SizesBefore(h, k)
    decreases k
  {
    hide HeaderAt;
    if k > 0 {
      TotalIsSizes(h, k - 1);
      assert Blocks(h)[..k] == Blocks(h)[..k - 1] + [BlockOf(h, k - 1)];
      TotalConcat(Blocks(h)[..k - 1], [BlockOf(h, k - 1)]);
      OneTotal(BlockOf(h, k - 1));
    }
  }

  /** A call gives up at most twelve bytes, and only an allocation does. */
  lemma StepTotal(h: Heap, op: Op)
    requires WellFormed(h) && Enabled(h, op)
    ensures var h' := Step(h, op);
            && InArena(h') && Total(Blocks(h)) == SizesBefore(h, |h.path|)
            && SizesBefore(h, |h.path|) - (if op.MallocOp? then 12 else 0) <= SizesBefore(h', |h'.path|)
               <= SizesBefore(h, |h.path|)
  {
    hide HeaderAt;
    hide MallocAt;
    hide FreeAt;
    var h' := Step(h, op);
    StepWellFormed(h, op);
    TotalIsSizes(h, |h.path|);
    TotalIsSizes(h', |h'.path|);
    assert Blocks(h)[..|h.path|] == Blocks(h) && Blocks(h')[..|h'.path|] == Blocks(h');
    match op
    case MallocOp(size) =>
      var k := FirstFit(h, 0, size);
      if size != 0 && k < |h.path| {
        MallocFree(h, k, size);
      }
    case FreeOp(i) => FreeBlocksAfter(h, i);
    case WriteOp(x, value) =>
      var i :| 0 <= i < |h.path| && !At(h, i).free && InPayload(h, i, x);
      assert h.path[i] + HEADER + At(h, i).size <= Until(h.path, i);
      PayloadWritten(h, h.mem[x := value], i, x, 1);
      assert Blocks(h') == Blocks(h);
  }

  // ---------------------------------------------------------------------------------------------
  // Whole runs

  /** Every release of the run meets no byte that is 0. */
  ghost predicate QuietRun(h: Heap, ops: seq<Op>)
    requires WellFormed(h) && CanRun(h, ops)
    decreases |ops|
  {
    ops == [] ||
    ((ops[0].FreeOp? ==> Quiet(h, ops[0].block)) && QuietRun(CodedStep(h, ops[0]), ops[1..]))
  }

  function Allocations(ops: seq<Op>): nat
  {
    if ops == [] then 0 else (if ops[0].MallocOp? then 1 else 0) + Allocations(ops[1..])
  }

  lemma CodedTotal(h: Heap, op: Op)
    requires WellFormed(h) && Permitted(h, op) && (op.FreeOp? ==> Quiet(h, op.block))
    ensures var h' := CodedStep(h, op);
            && InArena(h')
            && Total(Blocks(h)) <= Total(Blocks(h')) + if op.MallocOp? then 12 else 0
  {
    hide HeaderAt;
    hide MallocAt;
    hide FreeAt;
    hide Quiet;
    hide Total;
    var h' := CodedStep(h, op);
    if op.WriteOp? {
      OwnedWritten(h, op.at, op.value);
      assert Blocks(h') == Blocks(h);
    } else {
      StepTotal(h, op);
      TotalIsSizes(h', |h'.path|);
      assert Blocks(h')[..|h'.path|] == Blocks(h');
    }
  }

  /** A run gives up at most twelve bytes for each of its allocations. */
  lemma {:induction false} RunTotal(h: Heap, ops: seq<Op>)
    requires WellFormed(h) && CanRun(h, ops) && QuietRun(h, ops)
    ensures InArena(h) && InArena(Run(h, ops))
    ensures Total(Blocks(h)) <= Total(Blocks(Run(h, ops))) + 12 * Allocations(ops)
    decreases |ops|
  {
    hide HeaderAt;
    hide CodedStep;
    hide Permitted;
    hide Total;
    hide Blocks;
    if ops != [] {
      CodedTotal(h, ops[0]);
      RunTotal(CodedStep(h, ops[0]), ops[1..]);
    }
  }
}
