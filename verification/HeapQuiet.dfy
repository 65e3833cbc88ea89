/** Exactly when `kfree` with its nested calls does what it is for. */
module HeapQuiet {
  import opened Options
  import opened Words
  import opened HeapModel
  import opened HeapProofs
  import opened HeapMerge
  import opened HeapReentry
  import opened HeapCells
  import opened HeapRefine
  import opened HeapFree

  /** The blocks at these offsets are those that the headers from the `c`-th on lead along. */
  ghost predicate Follows(offsets: seq<nat>, p: seq<nat>, s: seq<Cell>, c: nat)
    requires |p| == |s|
  {
    if offsets == [] then c == |s|
    else c < |s| && offsets[0] == p[c] && Follows(offsets[1..], p, s, s[c].next)
  }

  lemma {:induction false} FollowsSame(offsets: seq<nat>, p: seq<nat>, s: seq<Cell>, s': seq<Cell>, c: nat)
    requires |p| == |s| == |s'| && Linked(s) && Follows(offsets, p, s, c)
    requires forall k :: c <= k < |s| ==> s'[k] == s[k]
    ensures Follows(offsets, p, s', c)
  {
    if offsets != [] {
      NextBound(s, c);
      FollowsSame(offsets[1..], p, s, s', s[c].next);
    }
  }

  /** A merge on the list is one of the headers. */
  lemma MergeFollows(h: Heap, i: nat, p: seq<nat>, s: seq<Cell>, c: nat)
    requires WellFormed(h) && i < |h.path| && Ready(h.mem, p, s) && |p| == |s| && Follows(h.path[i..], p, s, c)
    ensures c < |s| && (BothFree(h, i) <==> Joins(s, c))
    ensures BothFree(h, i) ==>
              var h1, e := MergeAt(h, i), s[s[c].next].next;
              && WellFormed(h1) && Ready(h1.mem, p, Merged(s, c)) && Follows(h1.path[i + 1..], p, Merged(s, c), e)
  {
    hide HeaderAt;
    hide Fits;
    hide Roomy;
    hide MergeAt;
    hide JoinedBytes;
    HeaderOf(h.mem, p, s, c);
    NextBound(s, c);
    if s[c].next < |s| {
      HeaderOf(h.mem, p, s, s[c].next);
    }
    hide Shows;
    hide Linked;
    if BothFree(h, i) {
      MergeKeeps(h, i);
      MergeIsJoined(h, i);
      JoinReady(h.mem, p, s, c);
      MergedTail(h, i);
      ReadyParts(h.mem, p, s);
      FollowsSame(h.path[i + 2..], p, s, Merged(s, c), s[s[c].next].next);
    }
  }

  lemma MergedTail(h: Heap, i: nat)
    requires WellFormed(h) && i + 1 < |h.path|
    ensures |MergeAt(h, i).path| == |h.path| - 1 && MergeAt(h, i).path[i + 1..] == h.path[i + 2..]
  {
    hide HeaderAt;
  }

  /** The first block that a nested call does not pass over is the first whose byte is set. */
  lemma {:induction false} FirstHitIs(h: Heap, i: nat, p: seq<nat>, s: seq<Cell>, c: nat) returns (k: nat)
    requires WellFormed(h) && i <= |h.path| && Ready(h.mem, p, s) && |p| == |s| && c <= |s| && Linked(s)
    requires Follows(h.path[i..], p, s, c)
    ensures FirstHit(h, i).None? ==> ZerosOf(Walked(s, c)) == ZerosOf(s)
    ensures FirstHit(h, i).Some? ==> k < |s| && Hit(s, Walked(s, c), k)
    decreases |h.path| - i
  {
    hide HeaderAt;
    hide Linked;
    hide Ready;
    hide MergeAt;
    hide ZerosOf;
    k := 0;
    if i < |h.path| {
      MergeFollows(h, i, p, s, c);
      NextBound(s, c);
      if !BothFree(h, i) {
        k := FirstHitIs(h, i + 1, p, s, s[c].next);
      } else {
        MergedLinked(s, c);
        HitsIff(h, i, p, s, c);
        if Hits(s, c) {
          k := s[s[c].next].next;
          FlippedLinked(s, c);
          var inner := Walked(Flipped(s, c), 0);
          UnsizedLinked(inner, k);
          StillSet(Flipped(s, c), inner);
          NextBound(inner, c);
          StillSet(Unsized(inner, k), Walked(s, c));
        } else {
          k := FirstHitIs(MergeAt(h, i), i + 1, p, Merged(s, c), s[s[c].next].next);
        }
      }
    }
  }

  lemma HitsIff(h: Heap, i: nat, p: seq<nat>, s: seq<Cell>, c: nat)
    requires WellFormed(h) && i < |h.path| && BothFree(h, i) && |p| == |s| && c < |s| && Joins(s, c) && Linked(s)
    requires WellFormed(MergeAt(h, i)) && Ready(MergeAt(h, i).mem, p, Merged(s, c))
    requires i + 1 <= |MergeAt(h, i).path|
    requires Follows(MergeAt(h, i).path[i + 1..], p, Merged(s, c), s[s[c].next].next)
    ensures var h1 := MergeAt(h, i);
            Hits(s, c) <==> i + 1 < |h1.path| && 8 <= h1.path[i + 1] <= HEAP_SIZE && h1.mem[h1.path[i + 1] - 8] == 0
  {
    hide HeaderAt;
    hide MergeAt;
    hide Fits;
    hide Roomy;
    var e := s[s[c].next].next;
    NextBound(s, c);
    hide Linked;
    if e < |s| {
      HeaderOf(MergeAt(h, i).mem, p, Merged(s, c), e);
    }
    hide Shows;
  }

  /** The walk without nested calls leaves alone the bytes that they look at. */
  lemma {:induction false} PassShows(h: Heap, i: nat, p: seq<nat>, s: seq<Cell>, c: nat) returns (s': seq<Cell>)
    requires WellFormed(h) && i <= |h.path| && Ready(h.mem, p, s) && |p| == |s| && c <= |s| && Linked(s)
    requires Follows(h.path[i..], p, s, c)
    ensures Ready(MergePass(h, i).mem, p, s') && |s'| == |s| && ZerosOf(s') == ZerosOf(s)
    decreases |h.path| - i
  {
    hide HeaderAt;
    hide Linked;
    hide Ready;
    hide MergeAt;
    hide ZerosOf;
    if i == |h.path| {
      s' := s;
    } else {
      MergeFollows(h, i, p, s, c);
      NextBound(s, c);
      if !BothFree(h, i) {
        s' := PassShows(h, i + 1, p, s, s[c].next);
      } else {
        MergedLinked(s, c);
        s' := PassShows(MergeAt(h, i), i + 1, p, Merged(s, c), s[s[c].next].next);
      }
    }
  }

  lemma {:induction false} ListFollows(h: Heap, i: nat, s: seq<Cell>)
    requires |s| == |h.path| && i <= |h.path| && forall k :: 0 <= k < |s| ==> s[k].next == k + 1
    ensures Follows(h.path[i..], h.path, s, i)
    decreases |h.path| - i
  {
    if i < |h.path| {
      ListFollows(h, i + 1, s);
    }
  }

  /** A freed block meets no byte that is 0 exactly if no byte will be set. */
  lemma QuietIff(h: Heap, i: nat)
    requires RoomyFree(h, i)
    ensures WellFormed(h) && i < |h.path| && (Quiet(h, i) <==> Lost(h, i) == {})
  {
    hide HeaderAt;
    hide Marked;
    hide Ready;
    hide Linked;
    hide RoomyFree;
    RoomyParts(h, i);
    MarkedReady(h, i);
    MarkedWellFormed(h, i);
    var s, s' := MarkedCells(h, i), FreedCells(h, i);
    assert Marked(h, i).path == h.path by { MarkedPath(h, i); }
    ListFollows(Marked(h, i), 0, s);
    var k := FirstHitIs(Marked(h, i), 0, h.path, s, 0);
    if Quiet(h, i) {
      NothingLost(s, s');
    } else {
      assert k in Lost(h, i);
    }
  }

  lemma MarkedPath(h: Heap, i: nat)
    requires WellFormed(h) && i < |h.path|
    ensures Marked(h, i).path == h.path
  {
  }

  lemma NothingLost(s: seq<Cell>, s': seq<Cell>)
    requires |s| == |s'| && ZerosOf(s) == ZerosOf(s')
    ensures forall k :: 0 <= k < |s| ==> !Hit(s, s', k)
  {
    forall k | 0 <= k < |s|
      ensures !Hit(s, s', k)
    {
      assert k in ZerosOf(s) <==> k in ZerosOf(s');
    }
  }

  /** The freed block has twelve bytes before the next header. */
  predicate WordRoom(h: Heap, i: nat)
    requires i < |h.path|
  {
    i + 1 < |h.path| ==> h.path[i] + HEADER + 12 <= h.path[i + 1]
  }

  /** Then the store of a zero word to its payload reaches no byte that nested calls look at. */
  lemma StoredPeek(h: Heap, i: nat, m: Arena, k: nat)
    requires RoomyFree(h, i) && WordRoom(h, i) && k < |h.path|
    ensures Peek(Store(m, h.path[i] + HEADER, 0), h.path[k]) == Peek(m, h.path[k])
  {
    StoreLoad(m, h.path[i] + HEADER, 0);
    hide Store;
    hide HeaderAt;
    if k < i { Ordered(h, k, i); } else if i + 1 < k { Ordered(h, i + 1, k); }
  }

  /** Without nested calls a byte that is 0 stays so. */
  lemma MeantPeek(h: Heap, i: nat, k: nat)
    requires RoomyFree(h, i) && WordRoom(h, i) && k < |h.path| && MarkedCells(h, i)[k].zero
    ensures Peek(FreeAt(h, i).mem, h.path[k]) == 0
  {
    hide HeaderAt;
    hide Ready;
    hide Store;
    hide Linked;
    hide Peek;
    hide RoomyFree;
    RoomyParts(h, i);
    MarkedReady(h, i);
    MarkedWellFormed(h, i);
    MarkedPath(h, i);
    var s := MarkedCells(h, i);
    ListFollows(Marked(h, i), 0, s);
    var s' := PassShows(Marked(h, i), 0, h.path, s, 0);
    var plain := MergePass(Marked(h, i), 0).mem;
    hide Marked;
    hide MergePass;
    StoredPeek(h, i, plain, k);
    PeekOf(plain, h.path, s', k);
    assert k in ZerosOf(s);
  }

  /** A byte that is set stays so. */
  lemma LostPeek(h: Heap, i: nat, m': Arena, k: nat)
    requires RoomyFree(h, i) && WordRoom(h, i) && k in Lost(h, i) && Yields(h.mem, PtrOf(h, i), m')
    ensures Peek(m', h.path[k]) != 0
  {
    hide HeaderAt;
    hide Ready;
    hide Yields;
    hide Store;
    hide Peek;
    hide FreedMemory;
    var w := KfreeIs(h, i);
    YieldsOne(h.mem, PtrOf(h, i), m', Store(w, h.path[i] + HEADER, 0));
    StoredPeek(h, i, w, k);
    PeekOf(w, h.path, FreedCells(h, i), k);
  }

  lemma LostZero(h: Heap, i: nat, k: nat)
    requires RoomyFree(h, i) && k in Lost(h, i)
    ensures k < |h.path| && MarkedCells(h, i)[k].zero
  {
  }

  lemma PeekOf(m: Arena, p: seq<nat>, s: seq<Cell>, k: nat)
    requires Ready(m, p, s) && k < |s|
    ensures |p| == |s| && (s[k].zero <==> Peek(m, p[k]) == 0)
  {
    HeaderOf(m, p, s, k);
  }

  /**
   `kfree` leaves the memory as it would be without its nested calls exactly if each of them finds a byte that
   is not 0 eight before the block behind the merged one.
   */
  lemma KfreeIff(h: Heap, i: nat)
    requires RoomyFree(h, i) && WordRoom(h, i)
    ensures WellFormed(h) && Freeable(h, i)
    ensures Yields(h.mem, PtrOf(h, i), FreeAt(h, i).mem) <==> Quiet(h, i)
  {
    hide Yields;
    hide FreeAt;
    hide Quiet;
    hide Lost;
    hide RoomyFree;
    RoomyParts(h, i);
    QuietIff(h, i);
    if Quiet(h, i) {
      QuietFree(h, i);
    } else {
      var k :| k in Lost(h, i);
      LostZero(h, i, k);
      MeantPeek(h, i, k);
      if Yields(h.mem, PtrOf(h, i), FreeAt(h, i).mem) {
        LostPeek(h, i, FreeAt(h, i).mem, k);
        assert false;
      }
    }
  }
}
