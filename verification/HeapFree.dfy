/** What `kfree` with its nested calls makes of a list, as a function of its headers and the bytes looked at. */
module HeapFree {
  import opened Options
  import opened Words
  import opened HeapModel
  import opened HeapProofs
  import opened HeapMerge
  import opened HeapReentry
  import opened HeapCells
  import opened HeapRefine

  /** Free blocks have at least eight bytes before the next header. */
  ghost predicate RoomyList(h: Heap)
    requires InArena(h)
  {
    forall i :: 0 <= i < |h.path| && At(h, i).free && i + 1 < |h.path| ==> h.path[i] + HEADER + 8 <= h.path[i + 1]
  }

  /** The `i`-th block can be freed, and there are at least eight bytes in it and in the free blocks. */
  ghost predicate RoomyFree(h: Heap, i: nat)
  {
    && WellFormed(h) && Freeable(h, i) && RoomyList(h)
    && (i + 1 < |h.path| ==> h.path[i] + HEADER + 8 <= h.path[i + 1])
  }

  lemma RoomyParts(h: Heap, i: nat)
    requires RoomyFree(h, i)
    ensures WellFormed(h) && Freeable(h, i) && RoomyList(h)
  {
  }

  /** The headers of a list, each of which leads to the next one. */
  function CellsOf(h: Heap): (s: seq<Cell>)
    requires InArena(h)
    ensures |s| == |h.path|
  {
    seq(|h.path|, k requires 0 <= k < |h.path| =>
      Cell(At(h, k).size, At(h, k).free, k + 1, Peek(h.mem, h.path[k]) == 0))
  }

  /** The headers with which the walk of `kfree` starts. */
  function MarkedCells(h: Heap, i: nat): (s: seq<Cell>)
    requires InArena(h) && i < |h.path|
    ensures |s| == |h.path|
  {
    CellsOf(h)[i := CellsOf(h)[i].(free := true)]
  }

  lemma ListPlaced(h: Heap)
    requires WellFormed(h)
    ensures Placed(h.path) && Fits(h.path, CellsOf(h)) && Linked(CellsOf(h))
  {
    hide HeaderAt;
    forall j, k | 0 <= j < k < |h.path|
      ensures h.path[j] + HEADER <= h.path[k]
    {
      Ordered(h, j, k);
    }
    forall k | 0 <= k < |h.path|
      ensures h.path[k] + HEADER + CellsOf(h)[k].size <= PlaceOf(h.path, k + 1)
    {
      assert h.path[k] + HEADER + At(h, k).size <= Until(h.path, k);
    }
  }

  lemma MarkedReady(h: Heap, i: nat)
    requires RoomyFree(h, i)
    ensures Linked(MarkedCells(h, i)) && Ready(Marked(h, i).mem, h.path, MarkedCells(h, i))
  {
    hide HeaderAt;
    hide Marked;
    hide Linked;
    hide Fits;
    hide Roomy;
    hide Placed;
    hide Shows;
    hide MarkedCells;
    ListPlaced(h);
    MarkedLinked(h, i);
    MarkedRoomy(h, i);
    MarkedShows(h, i);
  }

  lemma MarkedLinked(h: Heap, i: nat)
    requires InArena(h) && i < |h.path| && Linked(CellsOf(h)) && Fits(h.path, CellsOf(h))
    ensures Linked(MarkedCells(h, i)) && Fits(h.path, MarkedCells(h, i))
  {
    hide HeaderAt;
    hide PlaceOf;
  }

  lemma MarkedRoomy(h: Heap, i: nat)
    requires RoomyFree(h, i)
    ensures Roomy(h.path, MarkedCells(h, i))
  {
    hide HeaderAt;
    hide Freeable;
  }

  /** Where a header on the list leads. */
  lemma LinkOf(h: Heap, j: nat)
    requires WellFormed(h) && j < |h.path|
    ensures At(h, j).next == AddressOf(h.path, j + 1)
  {
    hide HeaderAt;
    assert At(h, j).next == NextOf(h.path, j);
  }

  lemma MarkedShows(h: Heap, i: nat)
    requires RoomyFree(h, i) && Placed(h.path)
    ensures Shows(Marked(h, i).mem, h.path, MarkedCells(h, i))
  {
    MarkedNodes(h, i);
    var m, s := Marked(h, i).mem, MarkedCells(h, i);
    forall k | 0 <= k < |s|
      ensures HeaderIs(m, h.path, k, s[k])
    {
      assert At(h, k).next == NextOf(h.path, k);
      MarkedPeek(h, i, k);
      assert At(Marked(h, i), k) == if k == i then At(h, i).(free := true) else At(h, k);
      hide HeaderAt;
      hide Peek;
      assert HeaderAt(m, h.path[k]) == At(Marked(h, i), k);
    }
  }

  lemma MarkedPeek(h: Heap, i: nat, k: nat)
    requires RoomyFree(h, i) && Placed(h.path) && k < |h.path|
    ensures Peek(Marked(h, i).mem, h.path[k]) == Peek(h.mem, h.path[k])
  {
    hide HeaderAt;
    assert k < i ==> h.path[k] + HEADER <= h.path[i];
    assert k > i + 1 ==> h.path[i + 1] + HEADER <= h.path[k];
  }

  /** The headers after the call. */
  ghost function FreedCells(h: Heap, i: nat): (s: seq<Cell>)
    requires RoomyFree(h, i)
    ensures |s| == |h.path| && Linked(s) && Fits(h.path, s) && UsedKept(MarkedCells(h, i), s)
    ensures forall k :: 0 <= k < |s| ==> s[k].free == (At(h, k).free || k == i)
  {
    MarkedReady(h, i);
    WalkedKeeps(MarkedCells(h, i), 0);
    WalkedFits(h.path, MarkedCells(h, i), 0);
    Walked(MarkedCells(h, i), 0)
  }

  /** The memory holds these headers, and the bytes of the blocks in use are as before. */
  ghost predicate FreedMemory(h: Heap, i: nat, m': Arena)
    requires RoomyFree(h, i)
  {
    var s := FreedCells(h, i);
    && UsedBytes(h.mem, m', h.path, MarkedCells(h, i))
    && forall k {:trigger s[k]} :: 0 <= k < |s| ==>
         HeaderAt(m', h.path[k]) == Header(s[k].size, s[k].free, AddressOf(h.path, s[k].next))
  }

  /** `kfree` returns with all its nested calls, and that is what it leaves. */
  lemma KfreeIs(h: Heap, i: nat) returns (w: Arena)
    requires RoomyFree(h, i)
    ensures var m' := Store(w, h.path[i] + HEADER, 0); Yields(h.mem, PtrOf(h, i), m') && FreedMemory(h, i, m')
    ensures Ready(w, h.path, FreedCells(h, i))
  {
    hide Walk;
    hide Store;
    hide UsedBytes;
    hide Ready;
    hide RoomyList;
    var s, fuel := MarkedCells(h, i), 0;
    MarkedReady(h, i);
    fuel, w := WalkIs(Marked(h, i).mem, h.path, s, 0);
    assert h.path[0] == 0;
    assert Kfree(h.mem, PtrOf(h, i), fuel + 1) == Some(Store(w, h.path[i] + HEADER, 0));
    MarkedBytes(h, i);
    UsedBytesTrans(h.mem, Marked(h, i).mem, w, h.path, s, s);
    FreedStore(h, i, w);
  }

  lemma MarkedBytes(h: Heap, i: nat)
    requires RoomyFree(h, i)
    ensures UsedBytes(h.mem, Marked(h, i).mem, h.path, MarkedCells(h, i))
  {
    hide HeaderAt;
    ListPlaced(h);
    forall k: nat, x: nat | k < |h.path| && InRegion(h.path, k, x) && x < HEAP_SIZE
      ensures x != h.path[i] + 4
    {
      assert k < i ==> PlaceOf(h.path, k + 1) <= h.path[i];
      assert k > i ==> h.path[i] + HEADER <= h.path[k];
    }
  }

  /** The store of a zero word to the freed payload touches neither headers nor blocks in use. */
  lemma FreedStore(h: Heap, i: nat, w: Arena)
    requires RoomyFree(h, i) && Ready(w, h.path, FreedCells(h, i))
    requires UsedBytes(h.mem, w, h.path, MarkedCells(h, i))
    ensures FreedMemory(h, i, Store(w, h.path[i] + HEADER, 0))
  {
    hide RoomyFree;
    RoomyParts(h, i);
    hide Store;
    hide UsedBytes;
    hide FreedCells;
    hide MarkedCells;
    hide Ready;
    hide Placed;
    hide Linked;
    hide Fits;
    hide HeaderAt;
    ListPlaced(h);
    hide WellFormed;
    StoredBytes(h, i, w, Store(w, h.path[i] + HEADER, 0));
    StoredHeaders(h, i, w, Store(w, h.path[i] + HEADER, 0), FreedCells(h, i));
  }

  lemma StoredHeaders(h: Heap, i: nat, w: Arena, m': Arena, s: seq<Cell>)
    requires RoomyFree(h, i) && Placed(h.path) && Ready(w, h.path, s) && |s| == |h.path|
    requires m' == Store(w, h.path[i] + HEADER, 0)
    ensures forall k {:trigger s[k]} :: 0 <= k < |s| ==>
              h.path[k] + HEADER <= HEAP_SIZE
              && HeaderAt(m', h.path[k]) == Header(s[k].size, s[k].free, AddressOf(h.path, s[k].next))
  {
    hide RoomyFree;
    RoomyParts(h, i);
    StoreLoad(w, h.path[i] + HEADER, 0);
    hide Store;
    ReadyParts(w, h.path, s);
    hide Ready;
    hide Shows;
    hide Roomy;
    hide Placed;
    hide Linked;
    hide Fits;
    hide WellFormed;
    forall k {:trigger s[k]} | 0 <= k < |s|
      ensures h.path[k] + HEADER <= HEAP_SIZE
      ensures HeaderAt(m', h.path[k]) == Header(s[k].size, s[k].free, AddressOf(h.path, s[k].next))
    {
      HeaderOf(w, h.path, s, k);
      ClearedWord(h, i, k);
      SameHeader(w, m', h.path[k], h.path[i] + HEADER);
    }
  }

  lemma StoredBytes(h: Heap, i: nat, w: Arena, m': Arena)
    requires RoomyFree(h, i) && Placed(h.path) && UsedBytes(h.mem, w, h.path, MarkedCells(h, i))
    requires m' == Store(w, h.path[i] + HEADER, 0)
    ensures UsedBytes(h.mem, m', h.path, MarkedCells(h, i))
  {
    hide HeaderAt;
    hide RoomyFree;
    hide Placed;
    RoomyParts(h, i);
    StoreLoad(w, h.path[i] + HEADER, 0);
    hide Store;
    var s := MarkedCells(h, i);
    assert s[i].free;
    hide MarkedCells;
    forall k: nat, x: nat | k < |s| && !s[k].free && InRegion(h.path, k, x) && x < HEAP_SIZE
      ensures m'[x] == h.mem[x]
    {
      ClearedWord(h, i, k);
    }
  }

  /** That word lies behind the freed block's header and before the next one. */
  lemma ClearedWord(h: Heap, i: nat, k: nat)
    requires RoomyFree(h, i) && Placed(h.path) && k < |h.path|
    ensures h.path[k] + HEADER <= h.path[i] + HEADER || h.path[i] + HEADER + 4 <= h.path[k]
    ensures k != i ==> PlaceOf(h.path, k + 1) <= h.path[i] + HEADER || h.path[i] + HEADER + 4 <= h.path[k]
  {
    hide HeaderAt;
    assert k < i ==> h.path[k] + HEADER <= h.path[i] && PlaceOf(h.path, k + 1) <= h.path[i];
    assert k > i + 1 ==> h.path[i + 1] + HEADER <= h.path[k];
  }

  lemma SameHeader(m: Arena, m': Arena, a: nat, b: nat)
    requires a + HEADER <= HEAP_SIZE && (a + HEADER <= b || b + 4 <= a)
    requires forall x :: 0 <= x < HEAP_SIZE && !(b <= x < b + 4) ==> m'[x] == m[x]
    ensures HeaderAt(m', a) == HeaderAt(m, a)
  {
  }

  lemma FreedOnly(h: Heap, i: nat, m': Arena)
    requires RoomyFree(h, i) && Yields(h.mem, PtrOf(h, i), m')
    ensures FreedMemory(h, i, m')
  {
    hide Yields;
    hide FreedMemory;
    hide Store;
    var w := KfreeIs(h, i);
    YieldsOne(h.mem, PtrOf(h, i), m', Store(w, h.path[i] + HEADER, 0));
  }

  /** `kfree` returns, with all its nested calls, and touches no memory outside the heap. */
  lemma FreeReturns(h: Heap, i: nat)
    requires RoomyFree(h, i)
    ensures exists m' :: Yields(h.mem, PtrOf(h, i), m')
  {
    hide Yields;
    hide Store;
    var w := KfreeIs(h, i);
    assert Yields(h.mem, PtrOf(h, i), Store(w, h.path[i] + HEADER, 0));
  }

  // ---------------------------------------------------------------------------------------------
  // The blocks in use

  /** The blocks before whose headers a nested call will set a byte. */
  ghost function Lost(h: Heap, i: nat): set<nat>
    requires RoomyFree(h, i)
  {
    set k | 0 <= k < |h.path| && Hit(MarkedCells(h, i), FreedCells(h, i), k)
  }

  /** The `j`-th block is free once the `i`-th is marked so. */
  predicate FreeThen(h: Heap, i: nat, j: nat)
    requires j < |h.path| && h.path[j] + HEADER <= HEAP_SIZE
  {
    At(h, j).free || j == i
  }

  /** What the call makes of another block in use. */
  lemma OtherBlock(h: Heap, i: nat, m': Arena, j: nat)
    requires RoomyFree(h, i) && Yields(h.mem, PtrOf(h, i), m')
    requires j < |h.path| && j != i && !At(h, j).free
    ensures HeaderAt(m', h.path[j]) == At(h, j).(size := if j in Lost(h, i) then 0 else At(h, j).size)
  {
    hide HeaderAt;
    hide Yields;
    hide RoomyFree;
    hide FreedCells;
    hide Lost;
    RoomyParts(h, i);
    LinkOf(h, j);
    FreedOnly(h, i, m');
    FreedHeader(h, i, m', j);
    OtherCell(h, i, j);
  }

  lemma FreedHeader(h: Heap, i: nat, m': Arena, j: nat)
    requires RoomyFree(h, i) && FreedMemory(h, i, m') && j < |h.path|
    ensures var s := FreedCells(h, i);
            HeaderAt(m', h.path[j]) == Header(s[j].size, s[j].free, AddressOf(h.path, s[j].next))
  {
    hide HeaderAt;
    hide RoomyFree;
    hide UsedBytes;
    hide UsedKept;
    hide Linked;
    hide Fits;
    RoomyParts(h, i);
  }

  lemma OtherCell(h: Heap, i: nat, j: nat)
    requires RoomyFree(h, i) && j < |h.path| && j != i && !At(h, j).free
    ensures var s := FreedCells(h, i);
            s[j].next == j + 1 && !s[j].free && s[j].size == if j in Lost(h, i) then 0 else At(h, j).size
  {
    hide HeaderAt;
    hide Peek;
    hide RoomyFree;
    hide Linked;
    hide Fits;
    hide Walked;
    RoomyParts(h, i);
    hide WellFormed;
    assert !MarkedCells(h, i)[j].free;
  }

  /** Only a byte that is 0 is set, and only behind two blocks that are then free. */
  lemma LostBehind(h: Heap, i: nat, j: nat)
    requires RoomyFree(h, i) && j < |h.path|
    ensures j in Lost(h, i) ==> Peek(h.mem, h.path[j]) == 0 && j > 1 && FreeThen(h, i, j - 1) && FreeThen(h, i, j - 2)
  {
    hide HeaderAt;
    hide Peek;
  }

  /** The bytes between the headers of other blocks in use and the next ones stay whatever happens. */
  lemma OtherPayload(h: Heap, i: nat, m': Arena, j: nat, x: nat)
    requires RoomyFree(h, i) && Yields(h.mem, PtrOf(h, i), m')
    requires j < |h.path| && j != i && !At(h, j).free && h.path[j] + HEADER <= x < Until(h.path, j) && x < HEAP_SIZE
    ensures m'[x] == h.mem[x]
  {
    hide HeaderAt;
    hide Yields;
    FreedOnly(h, i, m');
    assert !MarkedCells(h, i)[j].free && InRegion(h.path, j, x);
  }

  /** After the call, another block in use is as it was. */
  ghost predicate BlockIntact(h: Heap, m': Arena, j: nat)
    requires j < |h.path| && h.path[j] + HEADER <= HEAP_SIZE
  {
    HeaderAt(m', h.path[j]) == At(h, j)
  }

  ghost predicate OthersIntact(h: Heap, i: nat, m': Arena)
    requires InArena(h)
  {
    forall j :: 0 <= j < |h.path| && j != i && !At(h, j).free ==> BlockIntact(h, m', j)
  }

  /** The nested calls will set a byte before no other block in use that has a size. */
  ghost predicate Spares(h: Heap, i: nat)
    requires RoomyFree(h, i)
  {
    forall j :: j in Lost(h, i) && j != i && !At(h, j).free ==> At(h, j).size == 0
  }

  /** The call leaves all other blocks in use as they were exactly if it spares them. */
  lemma KeptIff(h: Heap, i: nat)
    requires RoomyFree(h, i)
    ensures exists m' :: Yields(h.mem, PtrOf(h, i), m')
    ensures forall m' :: Yields(h.mem, PtrOf(h, i), m') ==> (OthersIntact(h, i, m') <==> Spares(h, i))
  {
    hide Yields;
    hide Lost;
    hide HeaderAt;
    hide RoomyFree;
    FreeReturns(h, i);
    RoomyParts(h, i);
    forall m' | Yields(h.mem, PtrOf(h, i), m')
      ensures OthersIntact(h, i, m') <==> Spares(h, i)
    {
      forall j | 0 <= j < |h.path| && j != i && !At(h, j).free
        ensures BlockIntact(h, m', j) <==> j in Lost(h, i) ==> At(h, j).size == 0
      {
        OtherBlock(h, i, m', j);
      }
      LostOnList(h, i);
    }
  }

  lemma LostOnList(h: Heap, i: nat)
    requires RoomyFree(h, i)
    ensures forall j :: j in Lost(h, i) ==> 0 <= j < |h.path|
  {
  }

  /** No block in use behind two free ones has a 0 where the nested call looks. */
  ghost predicate Guarded(h: Heap, i: nat)
    requires InArena(h)
  {
    forall j :: 1 < j < |h.path| && j != i && !At(h, j).free && FreeThen(h, i, j - 1) && FreeThen(h, i, j - 2) ==>
      Peek(h.mem, h.path[j]) != 0
  }

  /** Then all other blocks in use are spared, even if nested calls write into free memory. */
  lemma GuardedSpares(h: Heap, i: nat)
    requires RoomyFree(h, i) && Guarded(h, i)
    ensures Spares(h, i)
  {
    hide HeaderAt;
    hide Peek;
    hide Lost;
    hide RoomyFree;
    RoomyParts(h, i);
    LostOnList(h, i);
    forall j | 0 <= j < |h.path| && j != i && !At(h, j).free
      ensures j !in Lost(h, i)
    {
      LostBehind(h, i, j);
    }
  }

  // ---------------------------------------------------------------------------------------------
  // The list after the call

  /** The offsets of the blocks in use. */
  ghost function UsedAt(h: Heap): set<nat>
    requires InArena(h)
  {
    set i | 0 <= i < |h.path| && !At(h, i).free :: h.path[i]
  }

  function Places(p: seq<nat>, l: seq<nat>): (q: seq<nat>)
    requires forall i :: 0 <= i < |l| ==> l[i] < |p|
    ensures |q| == |l|
  {
    seq(|l|, i requires 0 <= i < |l| => p[l[i]])
  }

  /** The list that the headers in the memory lead along. */
  ghost function FreedList(h: Heap, i: nat, m': Arena): Heap
    requires RoomyFree(h, i)
  {
    ListInOrder(FreedCells(h, i), 0);
    Heap(m', Places(h.path, ListFrom(FreedCells(h, i), 0)))
  }

  /** It is in order, and the freed block is the only one that is no longer in use. */
  lemma FreedInOrder(h: Heap, i: nat, m': Arena)
    requires RoomyFree(h, i) && FreedMemory(h, i, m')
    ensures var h' := FreedList(h, i, m');
            && h'.mem == m' && WellFormed(h') && RoomyList(h') && UsedAt(h') == UsedAt(h) - {h.path[i]}
  {
    hide HeaderAt;
    hide RoomyFree;
    hide Linked;
    hide Fits;
    hide UsedKept;
    RoomyParts(h, i);
    var s, l, h' := FreedCells(h, i), ListFrom(FreedCells(h, i), 0), FreedList(h, i, m');
    ListInOrder(s, 0);
    ListPlaced(h);
    hide ListFrom;
    FreedInArena(h, i, m');
    hide FreedCells;
    hide WellFormed;
    hide RoomyList;
    forall k | 0 <= k < |l|
      ensures At(h', k).next == NextOf(h'.path, k)
      ensures h'.path[k] + HEADER + At(h', k).size <= Until(h'.path, k)
      ensures At(h', k).free && k + 1 < |l| ==> h'.path[k] + HEADER + 8 <= h'.path[k + 1]
    {
      FreedNode(h, i, m', k);
    }
    FreedUsed(h, i, m');
    NodesInOrder(h');
  }

  lemma NodesInOrder(h: Heap)
    requires InArena(h) && forall k :: 0 <= k < |h.path| ==> At(h, k).next == NextOf(h.path, k)
    requires forall k :: 0 <= k < |h.path| ==> h.path[k] + HEADER + At(h, k).size <= Until(h.path, k)
    requires forall k :: 0 <= k < |h.path| && At(h, k).free && k + 1 < |h.path| ==>
               h.path[k] + HEADER + 8 <= h.path[k + 1]
    ensures WellFormed(h) && RoomyList(h)
  {
    hide HeaderAt;
  }

  lemma FreedInArena(h: Heap, i: nat, m': Arena)
    requires RoomyFree(h, i)
    ensures InArena(FreedList(h, i, m')) && |FreedList(h, i, m').path| == |ListFrom(FreedCells(h, i), 0)|
  {
    hide HeaderAt;
    ListInOrder(FreedCells(h, i), 0);
  }

  /** One header on that list. */
  lemma FreedNode(h: Heap, i: nat, m': Arena, k: nat)
    requires RoomyFree(h, i) && FreedMemory(h, i, m') && k < |ListFrom(FreedCells(h, i), 0)|
    ensures var s, l, h' := FreedCells(h, i), ListFrom(FreedCells(h, i), 0), FreedList(h, i, m');
            && InArena(h') && |h'.path| == |l| && l[k] < |s| && h'.path[k] == h.path[l[k]]
            && At(h', k) == Header(s[l[k]].size, s[l[k]].free, NextOf(h'.path, k))
            && h'.path[k] + HEADER + At(h', k).size <= Until(h'.path, k)
            && (At(h', k).free && k + 1 < |l| ==> h'.path[k] + HEADER + 8 <= h'.path[k + 1])
  {
    hide HeaderAt;
    hide Linked;
    hide UsedKept;
    hide RoomyFree;
    RoomyParts(h, i);
    var s, l, h' := FreedCells(h, i), ListFrom(FreedCells(h, i), 0), FreedList(h, i, m');
    ListInOrder(s, 0);
    FreedInArena(h, i, m');
    hide ListFrom;
    var c := l[k];
    assert s[c].next == Following(l, k, |s|);
    assert At(h', k) == Header(s[c].size, s[c].free, AddressOf(h.path, s[c].next));
    assert h.path[c] + HEADER + s[c].size <= PlaceOf(h.path, s[c].next);
    if k + 1 < |l| && s[c].free {
      NextBound(s, c);
      FreedRoom(h, i, c, s[c].next);
    }
  }

  lemma FreedUsed(h: Heap, i: nat, m': Arena)
    requires RoomyFree(h, i) && FreedMemory(h, i, m')
    ensures InArena(FreedList(h, i, m')) && UsedAt(FreedList(h, i, m')) == UsedAt(h) - {h.path[i]}
  {
    hide HeaderAt;
    hide Linked;
    hide Fits;
    hide UsedKept;
    hide RoomyFree;
    hide FreedMemory;
    RoomyParts(h, i);
    var s, l, h' := FreedCells(h, i), ListFrom(FreedCells(h, i), 0), FreedList(h, i, m');
    ListInOrder(s, 0);
    ListPlaced(h);
    FreedInArena(h, i, m');
    hide ListFrom;
    forall k | 0 <= k < |l|
      ensures l[k] < |s| && h'.path[k] == h.path[l[k]] && At(h', k).free == FreeThen(h, i, l[k])
    {
      FreedNode(h, i, m', k);
    }
    UsedAlong(h, h', i, l);
  }

  lemma UsedAlong(h: Heap, h': Heap, i: nat, l: seq<nat>)
    requires InArena(h) && InArena(h') && Placed(h.path) && i < |h.path| && |h'.path| == |l|
    requires forall k :: 0 <= k < |l| ==>
               l[k] < |h.path| && h'.path[k] == h.path[l[k]] && At(h', k).free == FreeThen(h, i, l[k])
    requires forall k :: 0 <= k < |h.path| && !FreeThen(h, i, k) ==> k in l
    ensures UsedAt(h') == UsedAt(h) - {h.path[i]}
  {
    hide HeaderAt;
    forall a | a in UsedAt(h')
      ensures a in UsedAt(h) - {h.path[i]}
    {
      var k :| 0 <= k < |h'.path| && !At(h', k).free && h'.path[k] == a;
      assert !FreeThen(h, i, l[k]);
      PlacedApart(h.path, l[k], i);
    }
    forall a | a in UsedAt(h) - {h.path[i]}
      ensures a in UsedAt(h')
    {
      var k :| 0 <= k < |h.path| && !At(h, k).free && h.path[k] == a;
      assert k != i && !FreeThen(h, i, k) && k in l;
      var j :| 0 <= j < |l| && l[j] == k;
      assert !At(h', j).free && h'.path[j] == a;
    }
  }

  lemma PlacedApart(p: seq<nat>, j: nat, k: nat)
    requires Placed(p) && j < |p| && k < |p| && j != k
    ensures p[j] != p[k]
  {
  }

  lemma FreedRoom(h: Heap, i: nat, k: nat, k': nat)
    requires RoomyFree(h, i) && k < k' < |h.path| && FreeThen(h, i, k)
    ensures h.path[k] + HEADER + 8 <= h.path[k']
  {
    hide HeaderAt;
    if k + 1 < k' {
      Ordered(h, k + 1, k');
    }
  }
}
