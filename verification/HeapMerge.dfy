/** Merging free heap blocks, and freeing a block as `kfree` is meant to. */
module HeapMerge {
  import opened Options
  import opened Words
  import opened HeapModel
  import opened HeapProofs

  /** One walk over the list from the `i`-th block on; a merged block is not looked at again. */
  function MergePass(h: Heap, i: nat): (h': Heap)
    requires WellFormed(h) && i <= |h.path|
    ensures WellFormed(h')
    decreases |h.path| - i
  {
    if i == |h.path| then h
    else if BothFree(h, i) then
      MergeKeeps(h, i);
      MergePass(MergeAt(h, i), i + 1)
    else MergePass(h, i + 1)
  }

  /** `kfree` for the `i`-th block: marked free, merged in one walk, and its first word cleared. */
  function FreeAt(h: Heap, i: nat): Heap
    requires WellFormed(h) && i < |h.path| && h.path[i] + HEADER + 4 <= HEAP_SIZE
  {
    MarkedWellFormed(h, i);
    var merged := MergePass(Marked(h, i), 0);
    Heap(Store(merged.mem, h.path[i] + HEADER, 0), merged.path)
  }

  function Marked(h: Heap, i: nat): Heap
    requires WellFormed(h) && i < |h.path|
  {
    Heap(SetFree(h.mem, h.path[i], true), h.path)
  }

  lemma MarkedNodes(h: Heap, i: nat)
    requires WellFormed(h) && i < |h.path|
    ensures At(Marked(h, i), i) == At(h, i).(free := true)
    ensures forall j :: 0 <= j < |h.path| && j != i ==> At(Marked(h, i), j) == At(h, j)
    ensures PayloadsKept(h, Marked(h, i), None)
  {
    SetFreeHeader(h.mem, h.path[i], true);
    HeaderChanged(h, SetFree(h.mem, h.path[i], true), i);
  }

  lemma MarkedWellFormed(h: Heap, i: nat)
    requires WellFormed(h) && i < |h.path|
    ensures WellFormed(Marked(h, i))
  {
    MarkedNodes(h, i);
    hide HeaderAt;
    forall j | 0 <= j < |h.path|
      ensures At(Marked(h, i), j).next == NextOf(h.path, j)
      ensures h.path[j] + HEADER + At(Marked(h, i), j).size <= Until(h.path, j)
    {
      assert At(h, j).next == NextOf(h.path, j) && h.path[j] + HEADER + At(h, j).size <= Until(h.path, j);
    }
  }

  /** The list after the `i`-th block has taken in the next one. */
  ghost predicate Joined(h: Heap, h': Heap, i: nat)
    requires InArena(h) && i + 1 < |h.path|
  {
    && InArena(h') && |h'.path| == |h.path| - 1
    && (forall j :: 0 <= j <= i ==> h'.path[j] == h.path[j])
    && (forall j :: i + 1 < j < |h.path| ==> h'.path[j - 1] == h.path[j])
    && (forall j :: 0 <= j < i ==> At(h', j) == At(h, j))
    && At(h', i) == Header(At(h, i).size + At(h, i + 1).size + HEADER, At(h, i).free, At(h, i + 1).next)
    && (forall j :: i + 1 < j < |h.path| ==> At(h', j - 1) == At(h, j))
  }

  lemma PathRemoved(path: seq<nat>, i: nat)
    requires i + 1 < |path|
    ensures var path' := path[..i + 1] + path[i + 2..];
            && |path'| == |path| - 1
            && (forall j :: 0 <= j <= i ==> path'[j] == path[j])
            && (forall j :: i + 1 < j < |path| ==> path'[j - 1] == path[j])
            && forall j :: 0 <= j < |path'| ==> path'[j] == path[if j <= i then j else j + 1]
  {
  }

  /** What the two stores of a merge do to the header. */
  lemma MergedHeader(h: Heap, i: nat)
    requires WellFormed(h) && i + 1 < |h.path|
    ensures var c, n, gone, h' := h.path[i], At(h, i), At(h, i + 1), MergeAt(h, i);
            && h'.path == h.path[..i + 1] + h.path[i + 2..] && SameBut(h.mem, h'.mem, c)
            && HeaderAt(h'.mem, c) == Header(n.size + gone.size + HEADER, n.free, gone.next)
  {
    hide Store;
    hide Load;
    var c, n, gone := h.path[i], At(h, i), At(h, i + 1);
    Ordered(h, i, i + 1);
    Inside(h, i + 1);
    var m1 := SetSize(h.mem, c, n.size + gone.size + HEADER);
    SetSizeHeader(h.mem, c, n.size + gone.size + HEADER);
    SetNextHeader(m1, c, gone.next);
    SameButTrans(h.mem, m1, SetNext(m1, c, gone.next), c);
  }

  lemma MergeJoins(h: Heap, i: nat)
    requires WellFormed(h) && i + 1 < |h.path|
    ensures Joined(h, MergeAt(h, i), i) && PayloadsKept(h, MergeAt(h, i), None)
  {
    hide MergeAt;
    hide HeaderAt;
    hide SameBut;
    hide Until;
    hide NextOf;
    var m2 := MergeAt(h, i).mem;
    MergedHeader(h, i);
    HeaderChanged(h, m2, i);
    PathRemoved(h.path, i);
    forall j | 0 <= j < |h.path| && j != i
      ensures HeaderAt(m2, h.path[j]) == At(h, j)
    {
      assert At(Heap(m2, h.path), j) == At(h, j);
    }
  }

  /** The `j`-th block after joining comes from this one before. */
  function JoinOrigin(i: nat, j: nat): nat { if j <= i then j else j + 1 }

  lemma JoinedNode(h: Heap, h': Heap, i: nat, j: nat)
    requires InArena(h) && i + 1 < |h.path| && Joined(h, h', i) && j < |h'.path|
    ensures var k := JoinOrigin(i, j);
            && h'.path[j] == h.path[k] && At(h', j).free == At(h, k).free
            && At(h', j).size == (if j == i then At(h, i).size + At(h, i + 1).size + HEADER else At(h, k).size)
            && At(h', j).next == if j == i then At(h, i + 1).next else At(h, k).next
  {
    hide HeaderAt;
    if j > i {
      assert h'.path[(j + 1) - 1] == h.path[j + 1] && At(h', (j + 1) - 1) == At(h, j + 1);
    }
  }

  lemma JoinedWellFormed(h: Heap, h': Heap, i: nat)
    requires WellFormed(h) && i + 1 < |h.path| && Joined(h, h', i)
    ensures WellFormed(h')
  {
    assert InArena(h') && |h'.path| == |h.path| - 1;
    hide HeaderAt;
    hide Joined;
    assert h.path[i] + HEADER + At(h, i).size <= Until(h.path, i);
    forall j | 0 <= j < |h'.path|
      ensures At(h', j).next == NextOf(h'.path, j) && h'.path[j] + HEADER + At(h', j).size <= Until(h'.path, j)
    {
      JoinedNode(h, h', i, j);
      if j + 1 < |h'.path| {
        JoinedNode(h, h', i, j + 1);
      }
      var k := if j == i then i + 1 else JoinOrigin(i, j);
      assert At(h, k).next == NextOf(h.path, k) && h.path[k] + HEADER + At(h, k).size <= Until(h.path, k);
    }
  }

  lemma JoinedLive(h: Heap, h': Heap, i: nat)
    requires InArena(h) && i + 1 < |h.path| && Joined(h, h', i) && BothFree(h, i)
    ensures Live(h') == Live(h)
  {
    assert InArena(h') && |h'.path| == |h.path| - 1;
    hide HeaderAt;
    hide Joined;
    forall b | b in Live(h')
      ensures b in Live(h)
    {
      var j :| 0 <= j < |h'.path| && !At(h', j).free && b == (h'.path[j], At(h', j).size);
      JoinedNode(h, h', i, j);
      assert !At(h, JoinOrigin(i, j)).free;
    }
    forall b | b in Live(h)
      ensures b in Live(h')
    {
      var k :| 0 <= k < |h.path| && !At(h, k).free && b == (h.path[k], At(h, k).size);
      JoinedNode(h, h', i, if k <= i then k else k - 1);
    }
  }

  /** Merging two free blocks keeps the list in order. */
  lemma MergeKeeps(h: Heap, i: nat)
    requires WellFormed(h) && i + 1 < |h.path| && BothFree(h, i)
    ensures WellFormed(MergeAt(h, i)) && Live(MergeAt(h, i)) == Live(h) && PayloadsKept(h, MergeAt(h, i), None)
  {
    MergeJoins(h, i);
    hide MergeAt;
    hide Joined;
    JoinedWellFormed(h, MergeAt(h, i), i);
    JoinedLive(h, MergeAt(h, i), i);
  }

  // ---------------------------------------------------------------------------------------------
  // Freeing

  /** The bytes of the block `b`, by its offset and size. */
  predicate InBlock(b: (nat, nat), x: nat) { b.0 + HEADER <= x < b.0 + HEADER + b.1 }

  /** The bytes of these blocks are as before. */
  ghost predicate BlocksKept(bs: set<(nat, nat)>, m: Arena, m': Arena)
  {
    forall b, x {:trigger InBlock(b, x)} :: b in bs && 0 <= x < HEAP_SIZE && InBlock(b, x) ==> m'[x] == m[x]
  }

  lemma KeptBlocks(h: Heap, h': Heap, but: Option<nat>, bs: set<(nat, nat)>)
    requires InArena(h) && PayloadsKept(h, h', but) && bs <= Live(h) && forall b :: b in bs ==> but != Some(b.0)
    ensures BlocksKept(bs, h.mem, h'.mem)
  {
    forall b, x | b in bs && 0 <= x < HEAP_SIZE && InBlock(b, x)
      ensures h'.mem[x] == h.mem[x]
    {
      var i :| 0 <= i < |h.path| && !At(h, i).free && b == (h.path[i], At(h, i).size);
      assert InPayload(h, i, x);
    }
  }

  lemma KeptTrans(bs: set<(nat, nat)>, m: Arena, m1: Arena, m2: Arena)
    requires BlocksKept(bs, m, m1) && BlocksKept(bs, m1, m2)
    ensures BlocksKept(bs, m, m2)
  {
  }

  /** Unused memory stays unused when blocks are joined. */
  lemma MergeUnused(h: Heap, i: nat, j: nat, a: nat, n: nat) returns (j': nat)
    requires WellFormed(h) && i + 1 < |h.path| && BothFree(h, i) && Unused(h, j, a, n)
    ensures InArena(MergeAt(h, i)) && Unused(MergeAt(h, i), j', a, n)
  {
    MergeJoins(h, i);
    var h' := MergeAt(h, i);
    hide MergeAt;
    hide HeaderAt;
    j' := if j <= i then j else j - 1;
    Ordered(h, i, i + 1);
    JoinedNode(h, h', i, j');
    if j' + 1 < |h'.path| {
      JoinedNode(h, h', i, j' + 1);
      if j == i {
        Ordered(h, i + 1, i + 2);
      }
    }
    assert j == i ==> h.path[i + 1] + HEADER + At(h, i + 1).size <= Until(h.path, i + 1);
  }

  lemma {:induction false} PassKeeps(h: Heap, i: nat, j: nat, a: nat, n: nat) returns (j': nat)
    requires WellFormed(h) && i <= |h.path| && Unused(h, j, a, n)
    ensures var h' := MergePass(h, i);
            Live(h') == Live(h) && BlocksKept(Live(h), h.mem, h'.mem) && Unused(h', j', a, n)
    decreases |h.path| - i
  {
    hide HeaderAt;
    hide Live;
    hide MergeAt;
    if i == |h.path| {
      j' := j;
    } else if BothFree(h, i) {
      MergeKeeps(h, i);
      var h1 := MergeAt(h, i);
      var j1 := MergeUnused(h, i, j, a, n);
      KeptBlocks(h, h1, None, Live(h));
      j' := PassKeeps(h1, i + 1, j1, a, n);
      KeptTrans(Live(h), h.mem, h1.mem, MergePass(h1, i + 1).mem);
    } else {
      j' := PassKeeps(h, i + 1, j, a, n);
    }
  }

  lemma MarkedLive(h: Heap, i: nat)
    requires WellFormed(h) && i < |h.path| && !At(h, i).free
    ensures InArena(Marked(h, i)) && Live(Marked(h, i)) == Live(h) - {(h.path[i], At(h, i).size)}
  {
    MarkedNodes(h, i);
    var h', gone := Marked(h, i), (h.path[i], At(h, i).size);
    assert h'.path == h.path;
    hide Marked;
    hide HeaderAt;
    forall b | b in Live(h')
      ensures b in Live(h) - {gone}
    {
      var j :| 0 <= j < |h'.path| && !At(h', j).free && b == (h'.path[j], At(h', j).size);
      assert j != i && !At(h, j).free;
      if j < i { Ordered(h, j, i); } else { Ordered(h, i, j); }
    }
    forall b | b in Live(h) - {gone}
      ensures b in Live(h')
    {
      var j :| 0 <= j < |h.path| && !At(h, j).free && b == (h.path[j], At(h, j).size);
      assert j != i && !At(h', j).free;
    }
  }

  /** The store of a zero word falls into unused memory. */
  lemma Cleared(h: Heap, j: nat, a: nat)
    requires WellFormed(h) && Unused(h, j, a, 4) && a + 4 <= HEAP_SIZE
    ensures var h' := Heap(Store(h.mem, a, 0), h.path);
            WellFormed(h') && Live(h') == Live(h) && BlocksKept(Live(h), h.mem, h'.mem)
  {
    StoreLoad(h.mem, a, 0);
    var h' := Heap(Store(h.mem, a, 0), h.path);
    hide HeaderAt;
    hide Store;
    PayloadWritten(h, h'.mem, j, a, 4);
    SameLive(h, h');
    forall b | b in Live(h)
      ensures b.0 != h.path[j]
    {
      var k :| 0 <= k < |h.path| && !At(h, k).free && b == (h.path[k], At(h, k).size);
      if k < j { Ordered(h, k, j); } else if j < k { Ordered(h, j, k); }
    }
    KeptBlocks(h, h', Some(h.path[j]), Live(h));
  }

  lemma SameLive(h: Heap, h': Heap)
    requires InArena(h) && h'.path == h.path && forall j :: 0 <= j < |h.path| ==> At(h', j) == At(h, j)
    ensures InArena(h') && Live(h') == Live(h)
  {
    hide HeaderAt;
    forall b | b in Live(h)
      ensures b in Live(h')
    {
      var j :| 0 <= j < |h.path| && !At(h, j).free && b == (h.path[j], At(h, j).size);
      assert !At(h', j).free;
    }
    forall b | b in Live(h')
      ensures b in Live(h)
    {
      var j :| 0 <= j < |h'.path| && !At(h', j).free && b == (h'.path[j], At(h', j).size);
      assert !At(h, j).free;
    }
  }

  /** Whether the `i`-th block can be freed: it is in use, and the store of a word stays before the next header. */
  predicate Freeable(h: Heap, i: nat)
    requires InArena(h)
  {
    i < |h.path| && !At(h, i).free && h.path[i] + HEADER + 4 <= Until(h.path, i) <= HEAP_SIZE
  }

  /** Freeing a block with at least four bytes before the next header changes no other block. */
  lemma FreeKeeps(h: Heap, i: nat)
    requires WellFormed(h) && Freeable(h, i)
    ensures var h', gone := FreeAt(h, i), (h.path[i], At(h, i).size);
            WellFormed(h') && Live(h') == Live(h) - {gone} && BlocksKept(Live(h) - {gone}, h.mem, h'.mem)
  {
    hide HeaderAt;
    hide Live;
    Inside(h, i);
    assert Until(h.path, i) <= HEAP_SIZE;
    MarkedNodes(h, i);
    MarkedWellFormed(h, i);
    MarkedLive(h, i);
    var h1, a, rest := Marked(h, i), h.path[i] + HEADER, Live(h) - {(h.path[i], At(h, i).size)};
    KeptBlocks(h, h1, None, rest);
    assert h1.path == h.path;
    hide Marked;
    var j := PassKeeps(h1, 0, i, a, 4);
    var h2 := MergePass(h1, 0);
    hide MergePass;
    Cleared(h2, j, a);
    KeptTrans(rest, h.mem, h1.mem, h2.mem);
    KeptTrans(rest, h.mem, h2.mem, Store(h2.mem, a, 0));
  }
}
