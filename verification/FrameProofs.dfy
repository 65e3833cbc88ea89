/** What allocating and freeing frames keeps, and when. */
module FrameProofs {
  import opened Options
  import opened FrameModel

  // ---------------------------------------------------------------------------------------------
  // Taking a block

  /** Taking `size` bytes leaves a rest that is put between two blocks; the second one is not told. */
  predicate SplitsInside(m: Pmm, i: nat, size: nat)
    requires i < |m.path| && m.path[i] in m.slots
  {
    At(m, i).size > size && At(m, i).next.Some?
  }

  /** The rest would be described in the slot that the next block already has. */
  predicate Collides(m: Pmm, i: nat, size: nat)
    requires i < |m.path| && m.path[i] in m.slots
  {
    At(m, i).size > size && At(m, i).next == Some(m.path[i] + 1)
  }

  /** The state after taking a whole block. */
  ghost predicate Taken(m: Pmm, m': Pmm, i: nat)
    requires Nodes(m) && i < |m.path|
  {
    && m'.path == m.path && Nodes(m')
    && At(m', i) == At(m, i).(free := false)
    && forall j :: 0 <= j < |m.path| && j != i ==> At(m', j) == At(m, j)
  }

  /** `x` follows the `i`-th element. */
  ghost predicate Inserted(path: seq<nat>, path': seq<nat>, i: nat, x: nat)
    requires i < |path|
  {
    && |path'| == |path| + 1 && path'[i + 1] == x
    && (forall j :: 0 <= j <= i ==> path'[j] == path[j])
    && (forall j :: i < j < |path| ==> path'[j + 1] == path[j])
  }

  /** The state after taking the first `size` bytes of a block, with the node of the rest in slot `x`. */
  ghost predicate Divided(m: Pmm, m': Pmm, i: nat, x: nat, size: nat)
    requires Nodes(m) && i < |m.path|
  {
    var c, n := m.path[i], At(m, i);
    && Inserted(m.path, m'.path, i, x) && Nodes(m')
    && (forall j :: 0 <= j < i ==> At(m', j) == At(m, j))
    && At(m', i) == n.(size := size, free := false, next := Some(x))
    && n.size > size && At(m', i + 1) == Node(n.addr + size, n.size - size, true, n.next, Some(c))
    && (forall j :: i < j < |m.path| ==>
        At(m', j + 1) == if j == i + 1 then At(m, j).(prev := Some(x)) else At(m, j))
  }

  /** The address computed from the neighbour is the block's own. */
  lemma OwnAddress(m: Pmm, lo: nat, hi: nat, i: nat)
    requires Kept(m, lo, hi) && i < |m.path|
    ensures var p := At(m, i).prev; p.Some? ==>
            i > 0 && p.value == m.path[i - 1] && p.value in m.slots && p.value != m.path[i]
            && m.slots[p.value].addr + m.slots[p.value].size == At(m, i).addr
  {
    assert At(m, i).prev == Before(m.path, i);
    if i > 0 {
      assert At(m, i - 1).addr + At(m, i - 1).size == Until(m, i - 1, hi);
    }
  }

  lemma AllocWhole(m: Pmm, lo: nat, hi: nat, i: nat, x: nat, size: nat, repair: bool)
    requires Kept(m, lo, hi) && i < |m.path| && At(m, i).free && At(m, i).size == size
    ensures Taken(m, AllocInto(m, i, x, size, repair), i)
  {
    OwnAddress(m, lo, hi, i);
  }

  /** Which slots change when a block is divided. */
  lemma DividedSlots(slots: map<nat, Node>, c: nat, x: nat, size: nat, repair: bool)
    requires c in slots && slots[c].size > size && x != c && slots[c].next != Some(x)
    requires slots[c].next.Some? ==> slots[c].next.value in slots && slots[c].next.value != c && repair
    requires var p := slots[c].prev; p.Some? ==>
            p.value in slots && p.value != c && p.value != x && p != slots[c].next
            && slots[p.value].addr + slots[p.value].size == slots[c].addr
    ensures var slots' := Take(Split(slots, c, x, size, repair), c, size); var n := slots[c];
            && slots'.Keys == slots.Keys + {x}
            && slots'[c] == n.(size := size, free := false, next := Some(x))
            && slots'[x] == Node(n.addr + size, n.size - size, true, n.next, Some(c))
            && forall y :: y in slots && y != c && y != x ==>
                 slots'[y] == if n.next == Some(y) then slots[y].(prev := Some(x)) else slots[y]
  {
  }

  lemma AllocPart(m: Pmm, lo: nat, hi: nat, i: nat, x: nat, size: nat, repair: bool)
    requires Kept(m, lo, hi) && i < |m.path| && At(m, i).free && At(m, i).size > size
    requires x !in m.path && (SplitsInside(m, i, size) ==> repair)
    ensures Divided(m, AllocInto(m, i, x, size, repair), i, x, size)
    ensures AllocInto(m, i, x, size, repair).slots.Keys == m.slots.Keys + {x}
  {
    hide Tiles;
    hide Take;
    hide Split;
    OwnAddress(m, lo, hi, i);
    var c := m.path[i];
    assert At(m, i).next == After(m.path, i);
    assert forall j :: 0 <= j < |m.path| ==> m.path[j] != x;
    DividedSlots(m.slots, c, x, size, repair);
    DividedPath(m, AllocInto(m, i, x, size, repair), i, x, size);
  }

  lemma PathInserted(path: seq<nat>, i: nat, x: nat)
    requires i < |path|
    ensures Inserted(path, path[..i + 1] + [x] + path[i + 1..], i, x)
    ensures forall s :: s in path[..i + 1] + [x] + path[i + 1..] ==> s in path || s == x
  {
  }

  lemma DividedPath(m: Pmm, m': Pmm, i: nat, x: nat, size: nat)
    requires Chain(m) && i < |m.path| && At(m, i).size > size
    requires forall j :: 0 <= j < |m.path| ==> m.path[j] != x
    requires m'.path == m.path[..i + 1] + [x] + m.path[i + 1..]
    requires var c, n := m.path[i], At(m, i);
             && m'.slots.Keys == m.slots.Keys + {x}
             && m'.slots[c] == n.(size := size, free := false, next := Some(x))
             && m'.slots[x] == Node(n.addr + size, n.size - size, true, n.next, Some(c))
             && forall y :: y in m.slots && y != c && y != x ==>
                  m'.slots[y] == if n.next == Some(y) then m.slots[y].(prev := Some(x)) else m.slots[y]
    ensures Divided(m, m', i, x, size)
  {
    hide Inserted;
    var c := m.path[i];
    PathInserted(m.path, i, x);
    assert InSlots(m'.slots, m'.path);
    assert At(m, i).next == After(m.path, i);
    DividedAt(m, m', i);
    InsertedAt(m.path, m'.path, i, x);
  }

  lemma InsertedAt(path: seq<nat>, path': seq<nat>, i: nat, x: nat)
    requires i < |path| && Inserted(path, path', i, x)
    ensures |path'| == |path| + 1 && path'[i + 1] == x && path'[i] == path[i]
    ensures forall j :: 0 <= j < i ==> path'[j] == path[j]
    ensures forall j :: i < j < |path| ==> path'[j + 1] == path[j]
  {
  }

  lemma DividedAt(m: Pmm, m': Pmm, i: nat)
    requires Chain(m) && i < |m.path|
    ensures forall j :: 0 <= j < |m.path| && j != i ==> m.path[j] != m.path[i]
    ensures forall j :: 0 <= j < |m.path| ==> (After(m.path, i) == Some(m.path[j]) <==> j == i + 1)
  {
  }

  lemma {:induction false} UsedConcat(slots: map<nat, Node>, a: seq<nat>, b: seq<nat>)
    requires InSlots(slots, a) && InSlots(slots, b)
    ensures InSlots(slots, a + b) && UsedBy(slots, a + b) == UsedBy(slots, a) + UsedBy(slots, b)
  {
    if a == [] {
      assert a + b == b;
    } else {
      assert (a + b)[1..] == a[1..] + b;
      UsedConcat(slots, a[1..], b);
    }
  }

  lemma {:induction false} UsedSame(slots: map<nat, Node>, slots': map<nat, Node>, path: seq<nat>)
    requires InSlots(slots, path) && InSlots(slots', path)
    requires forall j :: 0 <= j < |path| ==>
            slots'[path[j]].free == slots[path[j]].free && slots'[path[j]].size == slots[path[j]].size
    ensures UsedBy(slots', path) == UsedBy(slots, path)
  {
    if path != [] {
      UsedSame(slots, slots', path[1..]);
    }
  }

  /** The used memory, split at the `i`-th block. */
  lemma UsedAround(m: Pmm, i: nat)
    requires Nodes(m) && i < |m.path|
    ensures InSlots(m.slots, m.path[..i]) && InSlots(m.slots, m.path[i + 1..])
    ensures UsedBy(m.slots, m.path)
         == UsedBy(m.slots, m.path[..i]) + (if At(m, i).free then 0 else At(m, i).size)
          + UsedBy(m.slots, m.path[i + 1..])
  {
    assert m.path == m.path[..i] + m.path[i..];
    assert m.path[i..][1..] == m.path[i + 1..];
    UsedConcat(m.slots, m.path[..i], m.path[i..]);
  }

  lemma TakenUsed(m: Pmm, m': Pmm, i: nat)
    requires Nodes(m) && i < |m.path| && At(m, i).free && Taken(m, m', i)
    ensures UsedBy(m'.slots, m'.path) == UsedBy(m.slots, m.path) + At(m, i).size
  {
    UsedAround(m, i);
    UsedAround(m', i);
    forall j | 0 <= j < i
      ensures m'.slots[m.path[..i][j]] == m.slots[m.path[..i][j]]
    {
      assert At(m', j) == At(m, j);
    }
    UsedSame(m.slots, m'.slots, m.path[..i]);
    var rest := m.path[i + 1..];
    forall j | 0 <= j < |rest|
      ensures m'.slots[rest[j]] == m.slots[rest[j]]
    {
      assert At(m', i + 1 + j) == At(m, i + 1 + j);
    }
    UsedSame(m.slots, m'.slots, rest);
  }

  lemma TakenGood(m: Pmm, m': Pmm, lo: nat, hi: nat, i: nat)
    requires Kept(m, lo, hi) && i < |m.path| && At(m, i).free && WholeFrames(At(m, i).size)
    requires Taken(m, m', i) && m'.used == m.used + At(m, i).size && m'.slots.Keys == m.slots.Keys
    ensures Kept(m', lo, hi)
  {
    hide WholeFrames;
    TakenUsed(m, m', i);
    assert Merged(m') by {
      forall j | 0 <= j < |m.path|
        ensures !BothFree(m', j)
      {
        assert !BothFree(m, j);
      }
    }
    assert Tiles(m', lo, hi) by {
      assert forall j :: 0 <= j < |m.path| ==> Until(m', j, hi) == Until(m, j, hi);
    }
  }

  /** The `j`-th block after a division comes from this one before. */
  function Origin(i: nat, j: nat): nat { if j <= i then j else j - 1 }

  lemma InsertedElement(path: seq<nat>, path': seq<nat>, i: nat, x: nat, j: nat)
    requires i < |path| && Inserted(path, path', i, x) && j < |path'|
    ensures path'[j] == if j == i + 1 then x else path[Origin(i, j)]
  {
    if j > i + 1 {
      assert path'[(j - 1) + 1] == path[j - 1];
    }
  }

  lemma InsertedIncreasing(path: seq<nat>, path': seq<nat>, i: nat)
    requires i < |path| && Inserted(path, path', i, path[i] + 1) && Ascending(path)
    requires path[i] + 1 !in path
    ensures Ascending(path')
  {
    forall j, k | 0 <= j < k < |path'|
      ensures path'[j] < path'[k]
    {
      InsertedElement(path, path', i, path[i] + 1, j);
      InsertedElement(path, path', i, path[i] + 1, k);
      if k > i + 1 {
        assert path[i] < path[i + 1] <= path[k - 1] && path[i + 1] in path;
        assert j != i + 1 ==> path[Origin(i, j)] < path[k - 1];
      } else if k == i + 1 {
        assert path[j] <= path[i];
      }
    }
  }

  lemma DividedChain(m: Pmm, m': Pmm, i: nat, x: nat, size: nat)
    requires Chain(m) && i < |m.path| && Divided(m, m', i, x, size) && x !in m.path
    requires m'.slots.Keys == m.slots.Keys + {x}
    ensures Chain(m')
  {
    assert At(m, i).next == After(m.path, i);
    forall j, k | 0 <= j < k < |m'.path|
      ensures m'.path[j] != m'.path[k]
    {
      InsertedElement(m.path, m'.path, i, x, j);
      InsertedElement(m.path, m'.path, i, x, k);
    }
    forall j | 0 <= j < |m'.path|
      ensures At(m', j).next == After(m'.path, j)
      ensures At(m', j).prev.Some? ==> At(m', j).prev.value in m'.slots
    {
      if j > i + 1 {
        assert At(m', (j - 1) + 1).next == At(m, j - 1).next == After(m.path, j - 1);
      } else if j < i {
        assert At(m, j).next == After(m.path, j);
      }
    }
  }

  lemma WholeSum(a: nat, b: nat)
    requires WholeFrames(a) && WholeFrames(b)
    ensures WholeFrames(a + b)
  {
  }

  lemma DividedSizes(m: Pmm, m': Pmm, i: nat, x: nat, size: nat, j: nat)
    requires Nodes(m) && i < |m.path| && Divided(m, m', i, x, size) && j < |m'.path|
    ensures j != i && j != i + 1 ==>
            At(m', j).addr == At(m, Origin(i, j)).addr && At(m', j).size == At(m, Origin(i, j)).size
                && At(m', j).free == At(m, Origin(i, j)).free
  {
    if j > i + 1 {
      assert At(m', (j - 1) + 1).size == At(m, j - 1).size;
    }
  }

  lemma DividedTiles(m: Pmm, m': Pmm, lo: nat, hi: nat, i: nat, x: nat, size: nat)
    requires Nodes(m) && Tiles(m, lo, hi) && i < |m.path| && Divided(m, m', i, x, size) && size > 0 && WholeFrames(size)
    ensures Tiles(m', lo, hi)
  {
    hide Divided;
    hide WholeFrames;
    DividedEnds(m, m', i, x, size);
    WholeSum(At(m, i).addr, size);
    forall j | 0 <= j < |m'.path|
      ensures At(m', j).size > 0 && At(m', j).addr + At(m', j).size == Until(m', j, hi) && WholeFrames(At(m', j).addr)
      ensures !At(m', j).free ==> WholeFrames(At(m', j).size)
    {
      DividedSizes(m, m', i, x, size, j);
      if j + 1 < |m'.path| {
        DividedSizes(m, m', i, x, size, j + 1);
      }
      var k := Origin(i, j);
      assert At(m, k).addr + At(m, k).size == Until(m, k, hi) && WholeFrames(At(m, k).addr);
    }
    DividedSizes(m, m', i, x, size, 0);
  }

  lemma DividedEnds(m: Pmm, m': Pmm, i: nat, x: nat, size: nat)
    requires Nodes(m) && i < |m.path| && Divided(m, m', i, x, size)
    ensures Nodes(m') && |m'.path| == |m.path| + 1
    ensures At(m', i).addr == At(m, i).addr && At(m', i).size == size < At(m, i).size && !At(m', i).free
    ensures At(m', i + 1).addr == At(m, i).addr + size && At(m', i + 1).size == At(m, i).size - size
    ensures At(m', i + 1).free
  {
  }

  lemma DividedLinks(m: Pmm, m': Pmm, i: nat, x: nat, size: nat)
    requires Nodes(m) && Links(m) && i < |m.path| && Divided(m, m', i, x, size)
    ensures Links(m')
  {
    forall j | 0 <= j < |m'.path|
      ensures At(m', j).prev == Before(m'.path, j)
    {
      if j > i + 1 {
        assert At(m, j - 1).prev == Before(m.path, j - 1);
      } else if j <= i {
        assert At(m, j).prev == Before(m.path, j);
      }
    }
  }

  lemma DividedMerged(m: Pmm, m': Pmm, i: nat, x: nat, size: nat)
    requires Nodes(m) && Merged(m) && i < |m.path| && Divided(m, m', i, x, size) && At(m, i).free
    ensures Merged(m')
  {
    hide Divided;
    DividedEnds(m, m', i, x, size);
    forall j | 0 <= j < |m'.path|
      ensures !BothFree(m', j)
    {
      DividedSizes(m, m', i, x, size, j);
      if j + 1 < |m'.path| {
        DividedSizes(m, m', i, x, size, j + 1);
      }
      assert !BothFree(m, Origin(i, j));
    }
  }

  lemma DividedUsed(m: Pmm, m': Pmm, i: nat, x: nat, size: nat)
    requires Nodes(m) && i < |m.path| && Divided(m, m', i, x, size) && At(m, i).free
    ensures UsedBy(m'.slots, m'.path) == UsedBy(m.slots, m.path) + size
  {
    UsedAround(m, i);
    UsedAround(m', i);
    assert m'.path[..i] == m.path[..i];
    forall j | 0 <= j < i
      ensures m'.slots[m.path[..i][j]] == m.slots[m.path[..i][j]]
    {
      assert At(m', j) == At(m, j);
    }
    UsedSame(m.slots, m'.slots, m.path[..i]);
    var rest := m.path[i + 1..];
    assert m'.path[i + 1..] == [x] + rest;
    forall j | 0 <= j < |rest|
      ensures rest[j] in m'.slots && m'.slots[rest[j]].free == m.slots[rest[j]].free
      ensures m'.slots[rest[j]].size == m.slots[rest[j]].size
    {
      assert rest[j] == m.path[i + 1 + j] == m'.path[(i + 1 + j) + 1];
      assert At(m', (i + 1 + j) + 1).size == At(m, i + 1 + j).size;
    }
    UsedSame(m.slots, m'.slots, rest);
    assert UsedBy(m'.slots, [x] + rest) == UsedBy(m'.slots, rest) by {
      assert ([x] + rest)[1..] == rest;
      assert At(m', i + 1).free;
    }
  }

  /** Taking from a block keeps everything if the node of the rest gets a slot that is not on the list, and the node
      behind it learns of it. */
  lemma AllocIntoKeeps(m: Pmm, lo: nat, hi: nat, i: nat, x: nat, size: nat, repair: bool)
    requires Kept(m, lo, hi) && i < |m.path| && At(m, i).free && At(m, i).size >= size > 0 && WholeFrames(size)
    requires At(m, i).size > size ==> x !in m.path && (SplitsInside(m, i, size) ==> repair)
    ensures Kept(AllocInto(m, i, x, size, repair), lo, hi)
  {
    var m' := AllocInto(m, i, x, size, repair);
    if At(m, i).size == size {
      AllocWhole(m, lo, hi, i, x, size, repair);
      TakenGood(m, m', lo, hi, i);
    } else {
      AllocPart(m, lo, hi, i, x, size, repair);
      assert m'.used == m.used + size;
      hide Divided;
      hide AllocInto;
      DividedChain(m, m', i, x, size);
      DividedTiles(m, m', lo, hi, i, x, size);
      DividedLinks(m, m', i, x, size);
      DividedMerged(m, m', i, x, size);
      DividedUsed(m, m', i, x, size);
    }
  }

  /** Where the slots rise, the slot behind is on the list only as that of the next block. */
  lemma SlotBehind(m: Pmm, i: nat, size: nat)
    requires Chain(m) && Ascending(m.path) && i < |m.path| && At(m, i).size > size && !Collides(m, i, size)
    ensures m.path[i] + 1 !in m.path
  {
    assert At(m, i).next == After(m.path, i);
    forall j | 0 <= j < |m.path|
      ensures m.path[j] != m.path[i] + 1
    {
      assert j > i + 1 ==> m.path[i] < m.path[i + 1] < m.path[j];
    }
  }

  /** Unless the next block is left with a wrong `prev` pointer, or loses its slot, allocating keeps everything. */
  lemma AllocKeeps(m: Pmm, lo: nat, hi: nat, i: nat, size: nat, repair: bool)
    requires Good(m, lo, hi) && i < |m.path| && At(m, i).free && At(m, i).size >= size > 0 && WholeFrames(size)
    requires !Collides(m, i, size) && (SplitsInside(m, i, size) ==> repair)
    ensures Good(AllocAt(m, i, size, repair), lo, hi)
  {
    hide Tiles;
    hide Links;
    hide Merged;
    hide UsedBy;
    hide AllocInto;
    hide Divided;
    hide Taken;
    hide Collides;
    var x := m.path[i] + 1;
    if At(m, i).size > size {
      SlotBehind(m, i, size);
      AllocPart(m, lo, hi, i, x, size, repair);
      DividedAscending(m, AllocAt(m, i, size, repair), i, size);
    } else {
      AllocWhole(m, lo, hi, i, x, size, repair);
      TakenPath(m, AllocAt(m, i, size, repair), i);
    }
    AllocIntoKeeps(m, lo, hi, i, x, size, repair);
  }

  lemma DividedAscending(m: Pmm, m': Pmm, i: nat, size: nat)
    requires Nodes(m) && Ascending(m.path) && i < |m.path| && m.path[i] + 1 !in m.path
    requires Divided(m, m', i, m.path[i] + 1, size)
    ensures Ascending(m'.path)
  {
    InsertedIncreasing(m.path, m'.path, i);
  }

  lemma TakenPath(m: Pmm, m': Pmm, i: nat)
    requires Nodes(m) && i < |m.path| && Taken(m, m', i)
    ensures m'.path == m.path
  {
  }

  // ---------------------------------------------------------------------------------------------
  // Exactly when allocating keeps the list well formed

  /** A list that starts with the same pointers starts with the same slots. */
  lemma {:induction false} SameStart(m: Pmm, path: seq<nat>, k: nat)
    requires Chain(m) && k < |path| && path[0] == 0
    requires forall j :: 0 <= j < k ==> path[j] in m.slots && m.slots[path[j]].next == Some(path[j + 1])
    ensures k < |m.path| && forall j :: 0 <= j <= k ==> m.path[j] == path[j]
    decreases k
  {
    if k > 0 {
      SameStart(m, path, k - 1);
      var j := k - 1;
      assert m.path[j] == path[j];
      assert m.slots[path[j]].next == Some(path[j + 1]);
      assert At(m, j).next == After(m.path, j);
    }
  }

  /** Where the pointers lead after a block in the middle has been divided. */
  lemma InsideSlots(m: Pmm, lo: nat, hi: nat, i: nat, size: nat, repair: bool)
    requires Good(m, lo, hi) && i < |m.path| && SplitsInside(m, i, size)
    ensures var s, c, t := AllocAt(m, i, size, repair).slots, m.path[i], At(m, i).next.value;
            && c in s && s[c].next == Some(c + 1) && c + 1 in s && s[c + 1].next == Some(t) && t in s
            && (t != c + 1 && !repair ==> s[t].prev == Some(c))
            && forall j :: 0 <= j < i ==> m.path[j] in s && s[m.path[j]].next == Some(m.path[j + 1])
  {
    hide Tiles;
    OwnAddress(m, lo, hi, i);
    assert At(m, i).next == After(m.path, i);
    assert At(m, i + 1).prev == Before(m.path, i + 1);
    forall j | 0 <= j < i
      ensures m.slots[m.path[j]].next == Some(m.path[j + 1]) && m.path[j] < m.path[i]
    {
      assert At(m, j).next == After(m.path, j);
    }
  }

  lemma LinkAt(m: Pmm, i: nat)
    requires Nodes(m) && Links(m) && i < |m.path|
    ensures At(m, i).prev == Before(m.path, i)
  {
  }

  /** No list makes the state after a bad allocation well formed. */
  lemma BadAllocation(m: Pmm, lo: nat, hi: nat, i: nat, size: nat, repair: bool, path: seq<nat>)
    requires Good(m, lo, hi) && i < |m.path| && SplitsInside(m, i, size) && (repair ==> Collides(m, i, size))
    ensures !Good(AllocAt(m, i, size, repair).(path := path), lo, hi)
  {
    hide Tiles;
    hide Links;
    var m' := AllocAt(m, i, size, repair).(path := path);
    if Good(m', lo, hi) {
      InsideSlots(m, lo, hi, i, size, repair);
      hide AllocAt;
      var c, t := m.path[i], At(m, i).next.value;
      SameStart(m', m.path, i);
      assert At(m', i).next == After(path, i);
      assert At(m', i + 1).next == After(path, i + 1);
      if t != c + 1 {
        LinkAt(m', i + 2);
        assert false;
      }
    }
  }

  /** As the code stands, allocating keeps the list well formed exactly if it does not divide a block that has a
      successor; with the successor's `prev` pointer put right, exactly if the two do not fall into the same slot. */
  lemma AllocKeepsIff(m: Pmm, lo: nat, hi: nat, i: nat, size: nat, repair: bool)
    requires Good(m, lo, hi) && i < |m.path| && At(m, i).free && At(m, i).size >= size > 0 && WholeFrames(size)
    ensures (exists path :: Good(AllocAt(m, i, size, repair).(path := path), lo, hi))
            <==> if repair then !Collides(m, i, size) else !SplitsInside(m, i, size)
  {
    hide Tiles;
    hide Links;
    hide Merged;
    hide UsedBy;
    hide AllocAt;
    if if repair then !Collides(m, i, size) else !SplitsInside(m, i, size) {
      AllocKeeps(m, lo, hi, i, size, repair);
      var m' := AllocAt(m, i, size, repair);
      assert m' == m'.(path := m'.path);
    } else {
      forall path: seq<nat>
        ensures !Good(AllocAt(m, i, size, repair).(path := path), lo, hi)
      {
        BadAllocation(m, lo, hi, i, size, repair, path);
      }
    }
  }

  /** After a collision the list runs in a circle and the next block's record is gone. */
  lemma CollisionLoops(m: Pmm, lo: nat, hi: nat, i: nat, size: nat)
    requires Good(m, lo, hi) && i < |m.path| && Collides(m, i, size)
    ensures var s := AllocAt(m, i, size, false).slots; var d := m.path[i + 1];
            d in s && s[d].next == Some(d) && s[d].addr == At(m, i).addr + size && s[d].free
  {
    hide Tiles;
    OwnAddress(m, lo, hi, i);
    assert At(m, i).next == After(m.path, i);
  }
}