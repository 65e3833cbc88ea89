/** Freeing frames, and what runs of allocations and releases keep. */
module FrameRuns {
  import opened Options
  import opened FrameModel
  import opened FrameProofs

  /** Well formed, except that free blocks may be neighbours. */
  ghost predicate Tiled(m: Pmm, lo: nat, hi: nat)
  {
    Chain(m) && Links(m) && Tiles(m, lo, hi) && m.used == UsedBy(m.slots, m.path)
  }

  // ---------------------------------------------------------------------------------------------
  // Merging

  /** The state after the `i`-th block has taken in the next one. */
  ghost predicate Joined(m: Pmm, m': Pmm, i: nat)
    requires Nodes(m) && i + 1 < |m.path|
  {
    && |m'.path| == |m.path| - 1 && Nodes(m') && m'.slots.Keys == m.slots.Keys && m'.used == m.used
    && (forall j :: 0 <= j <= i ==> m'.path[j] == m.path[j])
    && (forall j :: i + 1 < j < |m.path| ==> m'.path[j - 1] == m.path[j])
    && (forall j :: 0 <= j < i ==> At(m', j) == At(m, j))
    && At(m', i) == At(m, i).(size := At(m, i).size + At(m, i + 1).size, next := At(m, i + 1).next)
    && (forall j :: i + 1 < j < |m.path| ==>
        At(m', j - 1) == if j == i + 2 then At(m, j).(prev := Some(m.path[i])) else At(m, j))
  }

  /** Which slots change when the blocks in slots `c` and `d` are joined. */
  lemma JoinedSlots(m: Pmm, i: nat)
    requires Chain(m) && i + 1 < |m.path|
    ensures var c, n, gone, s := m.path[i], At(m, i), At(m, i + 1), MergeAt(m, i).slots;
            && s.Keys == m.slots.Keys && s[c] == n.(size := n.size + gone.size, next := gone.next)
            && forall x :: x in m.slots && x != c ==>
                s[x] == if gone.next == Some(x) then m.slots[x].(prev := Some(c)) else m.slots[x]
  {
    assert At(m, i + 1).next == After(m.path, i + 1);
  }

  lemma MergeJoins(m: Pmm, i: nat)
    requires Chain(m) && i + 1 < |m.path|
    ensures Joined(m, MergeAt(m, i), i)
  {
    var m' := MergeAt(m, i);
    JoinedSlots(m, i);
    PathRemoved(m.path, i);
    assert m'.path == m.path[..i + 1] + m.path[i + 2..] && m'.used == m.used;
    hide MergeAt;
    assert At(m, i + 1).next == After(m.path, i + 1);
    forall j | 0 <= j < |m.path|
      ensures (At(m, i + 1).next == Some(m.path[j]) <==> j == i + 2) && (m.path[j] == m.path[i] <==> j == i)
    {
    }
  }

  lemma PathRemoved(path: seq<nat>, i: nat)
    requires i + 1 < |path|
    ensures var path' := path[..i + 1] + path[i + 2..];
            && |path'| == |path| - 1
            && (forall j :: 0 <= j <= i ==> path'[j] == path[j])
            && (forall j :: i + 1 < j < |path| ==> path'[j - 1] == path[j])
  {
  }

  /** The `j`-th block after joining comes from this one before. */
  function JoinOrigin(i: nat, j: nat): nat { if j <= i then j else j + 1 }

  lemma JoinedNode(m: Pmm, m': Pmm, i: nat, j: nat)
    requires Nodes(m) && i + 1 < |m.path| && Joined(m, m', i) && j < |m'.path|
    ensures var k := JoinOrigin(i, j);
            && m'.path[j] == m.path[k] && At(m', j).addr == At(m, k).addr && At(m', j).free == At(m, k).free
            && At(m', j).size == (if j == i then At(m, i).size + At(m, i + 1).size else At(m, k).size)
            && At(m', j).next == (if j == i then At(m, i + 1).next else At(m, k).next)
            && At(m', j).prev == if j == i + 1 then Some(m.path[i]) else At(m, k).prev
  {
    if j > i {
      assert m'.path[(j + 1) - 1] == m.path[j + 1];
      assert At(m', (j + 1) - 1) == if j == i + 1 then At(m, j + 1).(prev := Some(m.path[i])) else At(m, j + 1);
    }
  }

  lemma JoinedChain(m: Pmm, m': Pmm, i: nat)
    requires Chain(m) && i + 1 < |m.path| && Joined(m, m', i)
    ensures Chain(m')
  {
    hide Joined;
    JoinedShape(m, m', i);
    forall j | 0 <= j < |m'.path|
      ensures m'.path[j] == m.path[JoinOrigin(i, j)]
      ensures At(m', j).next == After(m'.path, j)
      ensures At(m', j).prev.Some? ==> At(m', j).prev.value in m'.slots
    {
      JoinedNode(m, m', i, j);
      if j + 1 < |m'.path| {
        JoinedNode(m, m', i, j + 1);
      }
      assert At(m, JoinOrigin(i, j)).next == After(m.path, JoinOrigin(i, j));
      assert At(m, i + 1).next == After(m.path, i + 1);
    }
    JoinedNode(m, m', i, 0);
  }

  lemma JoinedLinks(m: Pmm, m': Pmm, i: nat)
    requires Nodes(m) && Links(m) && i + 1 < |m.path| && Joined(m, m', i)
    ensures Links(m')
  {
    hide Joined;
    JoinedShape(m, m', i);
    forall j | 0 <= j < |m'.path|
      ensures At(m', j).prev == Before(m'.path, j)
    {
      JoinedNode(m, m', i, j);
      if j > 0 {
        JoinedNode(m, m', i, j - 1);
      }
      assert At(m, JoinOrigin(i, j)).prev == Before(m.path, JoinOrigin(i, j));
    }
  }

  lemma JoinedShape(m: Pmm, m': Pmm, i: nat)
    requires Nodes(m) && i + 1 < |m.path| && Joined(m, m', i)
    ensures |m'.path| == |m.path| - 1 && Nodes(m') && m'.slots.Keys == m.slots.Keys && m'.used == m.used
  {
  }

  lemma JoinedTiles(m: Pmm, m': Pmm, lo: nat, hi: nat, i: nat)
    requires Nodes(m) && i + 1 < |m.path| && Joined(m, m', i) && Tiles(m, lo, hi) && BothFree(m, i)
    ensures Tiles(m', lo, hi)
  {
    hide Joined;
    hide WholeFrames;
    JoinedShape(m, m', i);
    assert At(m, i).addr + At(m, i).size == Until(m, i, hi);
    assert At(m, i + 1).addr + At(m, i + 1).size == Until(m, i + 1, hi);
    forall j | 0 <= j < |m'.path|
      ensures At(m', j).size > 0 && At(m', j).addr + At(m', j).size == Until(m', j, hi) && WholeFrames(At(m', j).addr)
      ensures !At(m', j).free ==> WholeFrames(At(m', j).size)
    {
      JoinedNode(m, m', i, j);
      if j + 1 < |m'.path| {
        JoinedNode(m, m', i, j + 1);
      }
      var k := JoinOrigin(i, j);
      assert At(m, k).addr + At(m, k).size == Until(m, k, hi);
    }
    JoinedNode(m, m', i, 0);
  }

  lemma JoinedUsed(m: Pmm, m': Pmm, i: nat)
    requires Nodes(m) && i + 1 < |m.path| && Joined(m, m', i) && BothFree(m, i)
    ensures UsedBy(m'.slots, m'.path) == UsedBy(m.slots, m.path)
  {
    hide Joined;
    JoinedShape(m, m', i);
    UsedAround(m, i);
    UsedAround(m', i);
    var before, rest := m.path[..i], m.path[i + 2..];
    assert m.path[i + 1..] == [m.path[i + 1]] + rest && m.path[i + 1..][1..] == rest;
    forall j | 0 <= j < |m'.path|
      ensures m'.path[j] == m.path[JoinOrigin(i, j)] && At(m', j).free == At(m, JoinOrigin(i, j)).free
      ensures j != i ==> At(m', j).size == At(m, JoinOrigin(i, j)).size
    {
      JoinedNode(m, m', i, j);
    }
    assert m'.path[..i] == before && m'.path[i + 1..] == rest;
    forall j | 0 <= j < i
      ensures m'.slots[before[j]].free == m.slots[before[j]].free && m'.slots[before[j]].size == m.slots[before[j]].size
    {
      assert before[j] == m'.path[j];
    }
    UsedSame(m.slots, m'.slots, before);
    forall j | 0 <= j < |rest|
      ensures m'.slots[rest[j]].free == m.slots[rest[j]].free && m'.slots[rest[j]].size == m.slots[rest[j]].size
    {
      assert rest[j] == m'.path[i + 1 + j] && JoinOrigin(i, i + 1 + j) == i + 2 + j;
    }
    UsedSame(m.slots, m'.slots, rest);
  }

  /** Joining two free blocks touches no block in use. */
  lemma JoinedLive(m: Pmm, m': Pmm, i: nat)
    requires Nodes(m) && i + 1 < |m.path| && Joined(m, m', i) && BothFree(m, i)
    ensures Live(m') == Live(m)
  {
    hide Joined;
    JoinedShape(m, m', i);
    forall b | b in Live(m')
      ensures b in Live(m)
    {
      var j :| 0 <= j < |m'.path| && !At(m', j).free && b == (At(m', j).addr, At(m', j).size);
      JoinedNode(m, m', i, j);
      assert !At(m, JoinOrigin(i, j)).free;
    }
    forall b | b in Live(m)
      ensures b in Live(m')
    {
      var k :| 0 <= k < |m.path| && !At(m, k).free && b == (At(m, k).addr, At(m, k).size);
      JoinedNode(m, m', i, if k <= i then k else k - 1);
    }
  }

  lemma MergeKeeps(m: Pmm, lo: nat, hi: nat, i: nat)
    requires Tiled(m, lo, hi) && i + 1 < |m.path| && BothFree(m, i)
    ensures var m' := MergeAt(m, i); Tiled(m', lo, hi) && Live(m') == Live(m) && m'.used == m.used
  {
    var m' := MergeAt(m, i);
    MergeJoins(m, i);
    hide MergeAt;
    hide Chain;
    hide Links;
    hide Tiles;
    hide UsedBy;
    hide Live;
    JoinedChain(m, m', i);
    JoinedLinks(m, m', i);
    JoinedTiles(m, m', lo, hi, i);
    JoinedUsed(m, m', i);
    JoinedLive(m, m', i);
  }

  /** A walk that merges nothing has met no two free neighbours. */
  lemma {:induction false} PassKeeps(m: Pmm, lo: nat, hi: nat, i: nat)
    requires Tiled(m, lo, hi) && i <= |m.path|
    ensures var m' := MergePass(m, i);
            && Tiled(m', lo, hi) && Live(m') == Live(m) && m'.used == m.used
            && (|m'.path| == |m.path| ==> m' == m && forall j :: i <= j < |m.path| ==> !BothFree(m, j))
    decreases |m.path| - i
  {
    hide Live;
    hide MergeAt;
    if i < |m.path| {
      assert At(m, i).addr + At(m, i).size == Until(m, i, hi);
      hide Chain;
      hide Links;
      hide Tiles;
      hide UsedBy;
      if BothFree(m, i) {
        MergeKeeps(m, lo, hi, i);
        PassKeeps(MergeAt(m, i), lo, hi, i + 1);
      } else {
        PassKeeps(m, lo, hi, i + 1);
      }
    }
  }

  /** Merging until nothing changes ends, leaves no two free neighbours, and touches no block in use. */
  lemma {:induction false} MergeAllKeeps(m: Pmm, lo: nat, hi: nat)
    requires Tiled(m, lo, hi)
    ensures Kept(MergeAll(m), lo, hi) && Live(MergeAll(m)) == Live(m) && MergeAll(m).used == m.used
    decreases |m.path|
  {
    hide Live;
    assert Nodes(m) && Nodes(MergePass(m, 0));
    hide MergePass;
    hide Chain;
    hide Links;
    hide Tiles;
    hide UsedBy;
    PassKeeps(m, lo, hi, 0);
    var m1 := MergePass(m, 0);
    if |m1.path| < |m.path| {
      MergeAllKeeps(m1, lo, hi);
    }
  }

  lemma MergeAscending(m: Pmm, i: nat)
    requires Nodes(m) && Ascending(m.path) && i + 1 < |m.path|
    ensures Ascending(MergeAt(m, i).path)
  {
    PathRemoved(m.path, i);
    var path := m.path[..i + 1] + m.path[i + 2..];
    forall j, k | 0 <= j < k < |path|
      ensures path[j] < path[k]
    {
      assert path[j] == m.path[JoinOrigin(i, j)] && path[k] == m.path[JoinOrigin(i, k)];
    }
  }

  lemma {:induction false} PassAscending(m: Pmm, i: nat)
    requires Nodes(m) && Ascending(m.path) && i <= |m.path|
    ensures Ascending(MergePass(m, i).path)
    decreases |m.path| - i
  {
    hide Ascending;
    hide MergeAt;
    if i < |m.path| {
      if BothFree(m, i) && At(m, i + 1).addr == At(m, i).addr + At(m, i).size {
        MergeAscending(m, i);
        PassAscending(MergeAt(m, i), i + 1);
      } else {
        PassAscending(m, i + 1);
      }
    }
  }

  lemma {:induction false} MergeAllAscending(m: Pmm)
    requires Nodes(m) && Ascending(m.path)
    ensures Ascending(MergeAll(m).path)
    decreases |m.path|
  {
    hide Ascending;
    PassAscending(m, 0);
    var m1 := MergePass(m, 0);
    if |m1.path| < |m.path| {
      MergeAllAscending(m1);
    }
  }

  // ---------------------------------------------------------------------------------------------
  // Freeing

  lemma ReleaseTiled(m: Pmm, lo: nat, hi: nat, i: nat)
    requires Tiled(m, lo, hi) && i < |m.path| && !At(m, i).free
    ensures Tiled(Release(m, i), lo, hi)
  {
    var m' := Release(m, i);
    ReleasedNode(m, i);
    assert Chain(m') && Links(m');
    ReleaseUsed(m, m', i);
    assert forall j :: 0 <= j < |m.path| ==> Until(m', j, hi) == Until(m, j, hi);
  }

  lemma ReleasedNode(m: Pmm, i: nat)
    requires Chain(m) && i < |m.path|
    ensures var m' := Release(m, i);
            && m'.path == m.path && At(m', i) == At(m, i).(free := true)
            && forall j :: 0 <= j < |m.path| && j != i ==> At(m', j) == At(m, j)
  {
  }

  lemma ReleaseUsed(m: Pmm, m': Pmm, i: nat)
    requires Nodes(m) && i < |m.path| && !At(m, i).free && m'.path == m.path && Nodes(m')
    requires At(m', i).free && forall j :: 0 <= j < |m.path| && j != i ==> At(m', j) == At(m, j)
    ensures UsedBy(m'.slots, m'.path) == UsedBy(m.slots, m.path) - At(m, i).size
  {
    UsedAround(m, i);
    UsedAround(m', i);
    forall j | 0 <= j < i
      ensures m'.slots[m.path[..i][j]] == m.slots[m.path[..i][j]]
    {
      assert At(m', j) == At(m, j);
    }
    UsedSame(m.slots, m'.slots, m.path[..i]);
    var rest := m.path[i + 1..];
    forall j | 0 <= j < |rest|
      ensures m'.slots[rest[j]] == m.slots[rest[j]]
    {
      assert At(m', i + 1 + j) == At(m, i + 1 + j);
    }
    UsedSame(m.slots, m'.slots, rest);
  }

  /** Blocks further back lie behind. */
  lemma {:induction false} Ordered(m: Pmm, lo: nat, hi: nat, i: nat, j: nat)
    requires Nodes(m) && Tiles(m, lo, hi) && i < |m.path| && i <= j < |m.path|
    ensures lo <= At(m, i).addr && At(m, j).addr + At(m, j).size <= hi
    ensures i < j ==> At(m, i).addr + At(m, i).size <= At(m, j).addr
    decreases i + |m.path| - j
  {
    assert At(m, i).addr + At(m, i).size == Until(m, i, hi);
    assert At(m, j).addr + At(m, j).size == Until(m, j, hi);
    if i > 0 {
      assert At(m, i - 1).addr + At(m, i - 1).size == Until(m, i - 1, hi);
      Ordered(m, lo, hi, i - 1, j);
    } else if j + 1 < |m.path| {
      Ordered(m, lo, hi, i, j + 1);
    }
    OrderedStep(m, lo, hi, i, j);
  }

  lemma {:induction false} OrderedStep(m: Pmm, lo: nat, hi: nat, i: nat, j: nat)
    requires Nodes(m) && Tiles(m, lo, hi) && i < |m.path| && i <= j < |m.path|
    ensures i < j ==> At(m, i).addr + At(m, i).size <= At(m, j).addr
    decreases j
  {
    if i < j {
      assert At(m, j - 1).addr + At(m, j - 1).size == Until(m, j - 1, hi);
      OrderedStep(m, lo, hi, i, j - 1);
    }
  }

  /** No two live blocks overlap. */
  lemma LiveDisjoint(m: Pmm, lo: nat, hi: nat, a: (nat, nat), b: (nat, nat))
    requires Nodes(m) && Tiles(m, lo, hi) && a in Live(m) && b in Live(m) && a != b
    ensures a.0 + a.1 <= b.0 || b.0 + b.1 <= a.0
  {
    var i :| 0 <= i < |m.path| && !At(m, i).free && a == (At(m, i).addr, At(m, i).size);
    var j :| 0 <= j < |m.path| && !At(m, j).free && b == (At(m, j).addr, At(m, j).size);
    if i < j {
      Ordered(m, lo, hi, i, j);
    } else {
      Ordered(m, lo, hi, j, i);
    }
  }

  /** Freeing takes exactly the given block out of use and gives back its size. */
  lemma FreeKeeps(m: Pmm, lo: nat, hi: nat, i: nat)
    requires Kept(m, lo, hi) && i < |m.path| && !At(m, i).free
    ensures var m' := FreeAt(m, i);
            && Kept(m', lo, hi) && (Ascending(m.path) ==> Ascending(m'.path)) && m'.used == m.used - At(m, i).size
            && Live(m') == Live(m) - {(At(m, i).addr, At(m, i).size)}
  {
    var m1 := Release(m, i);
    ReleaseTiled(m, lo, hi, i);
    MergeAllKeeps(m1, lo, hi);
    ReleaseLive(m, lo, hi, i);
    if Ascending(m.path) {
      MergeAllAscending(m1);
    }
  }

  lemma ReleaseLive(m: Pmm, lo: nat, hi: nat, i: nat)
    requires Kept(m, lo, hi) && i < |m.path| && !At(m, i).free
    ensures Live(Release(m, i)) == Live(m) - {(At(m, i).addr, At(m, i).size)}
  {
    var m' := Release(m, i);
    ReleasedNode(m, i);
    hide Release;
    hide UsedBy;
    hide Links;
    hide Merged;
    hide Chain;
    var gone := (At(m, i).addr, At(m, i).size);
    forall b | b in Live(m')
      ensures b in Live(m) - {gone}
    {
      var j :| 0 <= j < |m'.path| && !At(m', j).free && b == (At(m', j).addr, At(m', j).size);
      assert j != i && At(m', j) == At(m, j);
      if i < j {
        Ordered(m, lo, hi, i, j);
      } else {
        Ordered(m, lo, hi, j, i);
      }
    }
    forall b | b in Live(m) - {gone}
      ensures b in Live(m')
    {
      var j :| 0 <= j < |m.path| && !At(m, j).free && b == (At(m, j).addr, At(m, j).size);
      assert At(m', j) == At(m, j);
    }
  }

  // ---------------------------------------------------------------------------------------------
  // Allocating

  /** The block handed out is made of whole frames, lies in the managed memory and overlaps no live block. */
  ghost predicate FreshBlock(m: Pmm, lo: nat, hi: nat, addr: nat, size: nat)
    requires Nodes(m)
  {
    && WholeFrames(addr) && lo <= addr && addr + size <= hi
    && forall b :: b in Live(m) ==> b.0 + b.1 <= addr || addr + size <= b.0
  }

  lemma FreeBlockIsFresh(m: Pmm, lo: nat, hi: nat, i: nat, size: nat)
    requires Nodes(m) && Tiles(m, lo, hi) && i < |m.path| && At(m, i).free && At(m, i).size >= size
    ensures FreshBlock(m, lo, hi, At(m, i).addr, size)
  {
    Ordered(m, lo, hi, i, i);
    forall b | b in Live(m)
      ensures b.0 + b.1 <= At(m, i).addr || At(m, i).addr + size <= b.0
    {
      var j :| 0 <= j < |m.path| && !At(m, j).free && b == (At(m, j).addr, At(m, j).size);
      if i < j {
        Ordered(m, lo, hi, i, j);
      } else {
        Ordered(m, lo, hi, j, i);
      }
    }
  }

  lemma TakenLive(m: Pmm, m': Pmm, i: nat)
    requires Nodes(m) && i < |m.path| && Taken(m, m', i)
    ensures Live(m') == Live(m) + {(At(m, i).addr, At(m, i).size)}
  {
    forall j | 0 <= j < |m.path|
      ensures At(m', j) == if j == i then At(m, j).(free := false) else At(m, j)
    {
    }
    assert !At(m', i).free;
  }

  lemma DividedLive(m: Pmm, m': Pmm, i: nat, x: nat, size: nat)
    requires Nodes(m) && i < |m.path| && Divided(m, m', i, x, size) && At(m, i).free
    ensures Live(m') == Live(m) + {(At(m, i).addr, size)}
  {
    hide Divided;
    DividedEnds(m, m', i, x, size);
    var fresh_ := (At(m, i).addr, size);
    forall b | b in Live(m')
      ensures b in Live(m) + {fresh_}
    {
      var j :| 0 <= j < |m'.path| && !At(m', j).free && b == (At(m', j).addr, At(m', j).size);
      DividedSizes(m, m', i, x, size, j);
      assert j != i ==> !At(m, Origin(i, j)).free;
    }
    forall b | b in Live(m)
      ensures b in Live(m')
    {
      var k :| 0 <= k < |m.path| && !At(m, k).free && b == (At(m, k).addr, At(m, k).size);
      var j := if k < i then k else k + 1;
      DividedSizes(m, m', i, x, size, j);
      assert k != i && Origin(i, j) == k;
    }
    assert fresh_ in Live(m') by {
      assert !At(m', i).free;
    }
  }

  /** An allocation that keeps the list well formed hands out a fresh block and changes no other. */
  lemma AllocResult(m: Pmm, lo: nat, hi: nat, i: nat, x: nat, size: nat, repair: bool)
    requires Kept(m, lo, hi) && i < |m.path| && At(m, i).free && At(m, i).size >= size > 0 && WholeFrames(size)
    requires At(m, i).size > size ==> x !in m.path && (SplitsInside(m, i, size) ==> repair)
    ensures var m' := AllocInto(m, i, x, size, repair);
            && Kept(m', lo, hi) && i < |m'.path| && FreshBlock(m, lo, hi, At(m', i).addr, size)
            && AlignUp(At(m', i).addr) == At(m', i).addr
            && Live(m') == Live(m) + {(At(m', i).addr, size)} && m'.used == m.used + size
  {
    hide Live;
    hide Merged;
    AllocIntoKeeps(m, lo, hi, i, x, size, repair);
    FreeBlockIsFresh(m, lo, hi, i, size);
    hide Tiles;
    if At(m, i).size == size {
      AllocWhole(m, lo, hi, i, x, size, repair);
      TakenLive(m, AllocInto(m, i, x, size, repair), i);
    } else {
      AllocPart(m, lo, hi, i, x, size, repair);
      DividedLive(m, AllocInto(m, i, x, size, repair), i, x, size);
    }
  }

  /** Whatever becomes of the list, a call on a well formed one hands out a fresh block. */
  lemma HandedOutFresh(m: Pmm, lo: nat, hi: nat, i: nat, size: nat, repair: bool)
    requires Good(m, lo, hi) && i < |m.path| && At(m, i).free && At(m, i).size >= size
    ensures var s, c := AllocAt(m, i, size, repair).slots, m.path[i];
            && c in s && !s[c].free && s[c].size == size && AlignUp(s[c].addr) == s[c].addr
            && FreshBlock(m, lo, hi, s[c].addr, size)
  {
    FreeBlockIsFresh(m, lo, hi, i, size);
    OwnAddress(m, lo, hi, i);
    assert i > 0 ==> m.path[i - 1] < m.path[i];
    assert At(m, i).next == After(m.path, i);
    hide Tiles;
    hide Links;
    hide Live;
  }

  // ---------------------------------------------------------------------------------------------
  // Runs

  /** The index of the block in use at `ptr`. */
  lemma OwnedIndex(m: Pmm, lo: nat, hi: nat, ptr: nat)
    requires Nodes(m) && Tiles(m, lo, hi)
    ensures Owned(m, ptr) <==> exists size :: (ptr, size) in Live(m)
  {
    var k := Find(m, 0, ptr);
    if Owned(m, ptr) {
      assert !At(m, k).free;
      assert (ptr, At(m, k).size) in Live(m);
    }
    if size :| (ptr, size) in Live(m) {
      var j :| 0 <= j < |m.path| && !At(m, j).free && (ptr, size) == (At(m, j).addr, At(m, j).size);
      assert k <= j;
      Ordered(m, lo, hi, k, j);
      assert k == j;
    }
  }

  /** The call is one after which the list is still well formed, as `AllocKeepsIff` tells. */
  ghost predicate Safe(m: Pmm, op: Op, repair: bool)
    requires Chain(m)
  {
    match op
    case AllocOp(n) =>
      var k := FirstFit(m, 0, Bytes(n));
      n > 0 && k < |m.path| ==>
        Bytes(n) > 0 && !Collides(m, k, Bytes(n)) && (SplitsInside(m, k, Bytes(n)) ==> repair)
    case FreeOp(ptr) => Owned(m, ptr)
  }

  lemma WholeBlocks(n: nat)
    ensures WholeFrames(Bytes(n)) && WholeFrames(n * FRAME_SIZE)
    ensures n < 0x10_0000_0000_0000 ==> Bytes(n) == 4096 * n
  {
    assert n * FRAME_SIZE == n * FRAME_SIZE / 0x1_0000_0000_0000_0000 * 0x1_0000_0000_0000_0000 + Bytes(n);
  }

  lemma StepKeeps(m: Pmm, lo: nat, hi: nat, op: Op, repair: bool)
    requires Good(m, lo, hi) && Safe(m, op, repair)
    ensures Good(Step(m, op, repair), lo, hi)
  {
    hide Tiles;
    hide Links;
    hide Merged;
    hide AllocAt;
    hide FreeAt;
    match op
    case AllocOp(n) =>
      WholeBlocks(n);
      var k := FirstFit(m, 0, Bytes(n));
      if n > 0 && k < |m.path| {
        AllocKeeps(m, lo, hi, k, Bytes(n), repair);
      }
    case FreeOp(ptr) => FreeKeeps(m, lo, hi, Find(m, 0, ptr));
  }

  /** The next multiple of 4 KiB. */
  lemma AlignUpLeast(a: nat)
    ensures AlignUp(a) % 4096 == 0 && a <= AlignUp(a) < a + 4096
  {
  }

  /** An allocation of `n` frames takes 4096 `n` bytes from the first block that has them, or nothing. */
  lemma AllocFrames(m: Pmm, lo: nat, hi: nat, n: nat, repair: bool)
    requires Good(m, lo, hi) && Safe(m, AllocOp(n), repair) && 0 < n < 0x10_0000_0000_0000
    ensures var m', k := Step(m, AllocOp(n), repair), FirstFit(m, 0, 4096 * n);
            if k == |m.path| then
              m' == m && forall i :: 0 <= i < |m.path| && At(m, i).free ==> At(m, i).size < 4096 * n
            else
              && Nodes(m') && k < |m'.path| && At(m', k).addr % 4096 == 0
              && FreshBlock(m, lo, hi, At(m', k).addr, 4096 * n)
              && Live(m') == Live(m) + {(At(m', k).addr, 4096 * n)} && m'.used == m.used + 4096 * n
  {
    hide Live;
    hide Tiles;
    hide Links;
    hide Merged;
    hide FreshBlock;
    hide FirstFit;
    hide AllocInto;
    hide AlignUp;
    WholeBlocks(n);
    hide Bytes;
    var k := FirstFit(m, 0, Bytes(n));
    if k < |m.path| {
      if At(m, k).size > Bytes(n) {
        SlotBehind(m, k, Bytes(n));
      }
      AllocResult(m, lo, hi, k, m.path[k] + 1, Bytes(n), repair);
      AlignUpLeast(At(AllocAt(m, k, Bytes(n), repair), k).addr);
    }
  }

  ghost predicate SafeRun(m: Pmm, ops: seq<Op>, repair: bool)
    decreases |ops|
  {
    ops == [] || (Chain(m) && Safe(m, ops[0], repair) && SafeRun(Step(m, ops[0], repair), ops[1..], repair))
  }

  function Run(m: Pmm, ops: seq<Op>, repair: bool): Pmm
    requires SafeRun(m, ops, repair)
    decreases |ops|
  {
    if ops == [] then m else Run(Step(m, ops[0], repair), ops[1..], repair)
  }

  /** A run of safe calls keeps the tiling, the pointers and the accounting. */
  lemma {:induction false} RunKeeps(m: Pmm, lo: nat, hi: nat, ops: seq<Op>, repair: bool)
    requires Good(m, lo, hi) && SafeRun(m, ops, repair)
    ensures Good(Run(m, ops, repair), lo, hi)
    decreases |ops|
  {
    if ops != [] {
      StepKeeps(m, lo, hi, ops[0], repair);
      hide Good;
      hide Step;
      RunKeeps(Step(m, ops[0], repair), lo, hi, ops[1..], repair);
    }
  }

  lemma InitialGood(lo: nat, hi: nat)
    requires lo < hi && WholeFrames(lo)
    ensures Good(Initial(lo, hi), lo, hi) && Live(Initial(lo, hi)) == {}
  {
    var m := Initial(lo, hi);
    assert m.path[1..] == [];
    assert forall i :: 0 <= i < |m.path| ==> At(m, i) == Node(lo, hi - lo, true, None, None);
  }

  // ---------------------------------------------------------------------------------------------
  // One frame at a time

  /** A node is as many slots from the head as its block is frames from the start. */
  ghost predicate SlotsMatch(m: Pmm, lo: nat)
    requires Nodes(m)
  {
    forall i :: 0 <= i < |m.path| ==> At(m, i).addr == lo + FRAME_SIZE * m.path[i]
  }

  /** A single frame's rest is never described in a slot that is taken. */
  lemma NoCollision(m: Pmm, lo: nat, hi: nat, i: nat)
    requires Good(m, lo, hi) && SlotsMatch(m, lo) && i < |m.path|
    ensures !Collides(m, i, FRAME_SIZE)
  {
    assert At(m, i).next == After(m.path, i);
    assert At(m, i).addr + At(m, i).size == Until(m, i, hi);
    if i + 1 < |m.path| {
      assert At(m, i + 1).addr == lo + FRAME_SIZE * m.path[i + 1];
    }
  }

  lemma AllocSlotsMatch(m: Pmm, lo: nat, hi: nat, i: nat)
    requires Good(m, lo, hi) && SlotsMatch(m, lo) && i < |m.path| && At(m, i).free && At(m, i).size >= FRAME_SIZE
    ensures var m' := AllocAt(m, i, FRAME_SIZE, true); Nodes(m') && SlotsMatch(m', lo)
  {
    hide Tiles;
    hide Links;
    hide Merged;
    hide UsedBy;
    hide AllocInto;
    hide Divided;
    hide Taken;
    hide SlotsMatch;
    hide Collides;
    NoCollision(m, lo, hi, i);
    var m' := AllocAt(m, i, FRAME_SIZE, true);
    if At(m, i).size == FRAME_SIZE {
      AllocWhole(m, lo, hi, i, m.path[i] + 1, FRAME_SIZE, true);
      TakenSlotsMatch(m, m', lo, i);
    } else {
      SlotBehind(m, i, FRAME_SIZE);
      AllocPart(m, lo, hi, i, m.path[i] + 1, FRAME_SIZE, true);
      DividedSlotsMatch(m, m', lo, i);
    }
  }

  lemma TakenSlotsMatch(m: Pmm, m': Pmm, lo: nat, i: nat)
    requires Nodes(m) && SlotsMatch(m, lo) && i < |m.path| && Taken(m, m', i)
    ensures Nodes(m') && SlotsMatch(m', lo)
  {
    assert forall j :: 0 <= j < |m'.path| ==> At(m', j).addr == At(m, j).addr;
  }

  lemma DividedSlotsMatch(m: Pmm, m': Pmm, lo: nat, i: nat)
    requires Nodes(m) && SlotsMatch(m, lo) && i < |m.path| && Divided(m, m', i, m.path[i] + 1, FRAME_SIZE)
    ensures Nodes(m') && SlotsMatch(m', lo)
  {
    DividedEnds(m, m', i, m.path[i] + 1, FRAME_SIZE);
    forall j | 0 <= j < |m'.path|
      ensures At(m', j).addr == lo + FRAME_SIZE * m'.path[j]
    {
      DividedSizes(m, m', i, m.path[i] + 1, FRAME_SIZE, j);
      assert At(m, Origin(i, j)).addr == lo + FRAME_SIZE * m.path[Origin(i, j)];
      assert j > i + 1 ==> m'.path[(j - 1) + 1] == m.path[j - 1];
    }
  }

  lemma MergeSlotsMatch(m: Pmm, lo: nat, i: nat)
    requires Chain(m) && SlotsMatch(m, lo) && i + 1 < |m.path|
    ensures SlotsMatch(MergeAt(m, i), lo)
  {
    var m' := MergeAt(m, i);
    MergeJoins(m, i);
    hide MergeAt;
    forall j | 0 <= j < |m'.path|
      ensures At(m', j).addr == lo + FRAME_SIZE * m'.path[j]
    {
      JoinedNode(m, m', i, j);
    }
  }

  lemma {:induction false} PassSlotsMatch(m: Pmm, lo: nat, hi: nat, i: nat)
    requires Tiled(m, lo, hi) && SlotsMatch(m, lo) && i <= |m.path|
    ensures SlotsMatch(MergePass(m, i), lo)
    decreases |m.path| - i
  {
    hide MergeAt;
    if i < |m.path| {
      assert At(m, i).addr + At(m, i).size == Until(m, i, hi);
      hide SlotsMatch;
      hide Tiles;
      hide Links;
      hide UsedBy;
      if BothFree(m, i) {
        MergeKeeps(m, lo, hi, i);
        MergeSlotsMatch(m, lo, i);
        PassSlotsMatch(MergeAt(m, i), lo, hi, i + 1);
      } else {
        PassSlotsMatch(m, lo, hi, i + 1);
      }
    }
  }

  lemma {:induction false} MergeAllSlotsMatch(m: Pmm, lo: nat, hi: nat)
    requires Tiled(m, lo, hi) && SlotsMatch(m, lo)
    ensures SlotsMatch(MergeAll(m), lo)
    decreases |m.path|
  {
    hide SlotsMatch;
    assert Nodes(m) && Nodes(MergePass(m, 0));
    hide MergePass;
    hide Chain;
    hide Links;
    hide Tiles;
    hide UsedBy;
    PassKeeps(m, lo, hi, 0);
    PassSlotsMatch(m, lo, hi, 0);
    var m1 := MergePass(m, 0);
    if |m1.path| < |m.path| {
      MergeAllSlotsMatch(m1, lo, hi);
    }
  }

  lemma FreeSlotsMatch(m: Pmm, lo: nat, hi: nat, i: nat)
    requires Good(m, lo, hi) && SlotsMatch(m, lo) && i < |m.path| && !At(m, i).free
    ensures Nodes(FreeAt(m, i)) && SlotsMatch(FreeAt(m, i), lo)
  {
    ReleaseTiled(m, lo, hi, i);
    ReleasedNode(m, i);
    assert forall j :: 0 <= j < |m.path| ==> At(Release(m, i), j).addr == At(m, j).addr;
    MergeAllSlotsMatch(Release(m, i), lo, hi);
  }

  /** Calls that ask for one frame at a time, or free what is in use. */
  ghost predicate OneFrameRun(m: Pmm, ops: seq<Op>)
    decreases |ops|
  {
    ops == [] || (Chain(m)
                  && (match ops[0] case AllocOp(n) => n == 1 case FreeOp(ptr) => Owned(m, ptr))
                  && OneFrameRun(Step(m, ops[0], true), ops[1..]))
  }

  lemma OneFrameStep(m: Pmm, lo: nat, hi: nat, op: Op)
    requires Good(m, lo, hi) && SlotsMatch(m, lo) && (op.AllocOp? ==> op.numBlocks == 1)
    requires (op.FreeOp? ==> Owned(m, op.ptr))
    ensures Safe(m, op, true)
    ensures Good(Step(m, op, true), lo, hi) && SlotsMatch(Step(m, op, true), lo)
  {
    hide Tiles;
    hide Links;
    hide Merged;
    hide UsedBy;
    hide SlotsMatch;
    hide AllocAt;
    hide FreeAt;
    hide Collides;
    match op
    case AllocOp(n) =>
      WholeBlocks(1);
      var k := FirstFit(m, 0, FRAME_SIZE);
      if k < |m.path| {
        NoCollision(m, lo, hi, k);
        AllocSlotsMatch(m, lo, hi, k);
      }
      StepKeeps(m, lo, hi, op, true);
    case FreeOp(ptr) =>
      FreeSlotsMatch(m, lo, hi, Find(m, 0, ptr));
      StepKeeps(m, lo, hi, op, true);
  }

  /** With the `prev` pointer put right, every run of single-frame requests is safe and keeps everything. */
  lemma {:induction false} OneFrameRunKeeps(m: Pmm, lo: nat, hi: nat, ops: seq<Op>)
    requires Good(m, lo, hi) && SlotsMatch(m, lo) && OneFrameRun(m, ops)
    ensures SafeRun(m, ops, true) && Good(Run(m, ops, true), lo, hi)
    decreases |ops|
  {
    if ops != [] {
      assert Chain(m);
      hide Good;
      hide SlotsMatch;
      hide Step;
      hide Safe;
      OneFrameStep(m, lo, hi, ops[0]);
      OneFrameRunKeeps(Step(m, ops[0], true), lo, hi, ops[1..]);
    }
  }
}
