/** Lists in which no two neighbours are free: exactly when `kfree` spares the other blocks in use, without walking. */
module HeapKept {
  import opened Words
  import opened HeapModel
  import opened HeapProofs
  import opened HeapMerge
  import opened HeapReentry
  import opened HeapCells
  import opened HeapRefine
  import opened HeapFree

  ghost predicate NoFreeNeighbours(h: Heap)
    requires InArena(h)
  {
    forall k {:trigger BothFree(h, k)} :: 0 <= k < |h.path| ==> !BothFree(h, k)
  }

  /** There is a `k`-th block, and the nested call would not pass over it. */
  predicate Exposed(h: Heap, k: nat) { k < |h.path| && Peek(h.mem, h.path[k]) == 0 }

  /**
   Freeing the `i`-th block will take the size of a block in use: that of the block behind the merged ones. If both
   neighbours are free, the first nested call must first get the second neighbour merged as well.
   */
  ghost predicate Doomed(h: Heap, i: nat)
    requires InArena(h) && i < |h.path|
  {
    var before, behind := i > 0 && At(h, i - 1).free, i + 1 < |h.path| && At(h, i + 1).free;
    if before && behind then Exposed(h, i + 1) && Exposed(h, i + 2)
    else if before then Exposed(h, i + 1)
    else behind && Exposed(h, i + 2)
  }

  /** From the `c`-th header on each leads to the next one, and nothing is merged before the `k`-th. */
  ghost predicate Plain(s: seq<Cell>, c: nat, k: nat)
    requires k <= |s|
  {
    forall j :: c <= j < k ==> s[j].next == j + 1 && !Joins(s, j)
  }

  lemma {:induction false} SkipTo(s: seq<Cell>, c: nat, k: nat)
    requires Linked(s) && c <= k <= |s| && Plain(s, c, k)
    ensures Walked(s, c) == Walked(s, k)
    decreases k - c
  {
    hide Linked;
    if c < k {
      SkipTo(s, c + 1, k);
    }
  }

  lemma WalkedPlain(s: seq<Cell>, c: nat)
    requires Linked(s) && c <= |s| && Plain(s, c, |s|)
    ensures Walked(s, c) == s
  {
    SkipTo(s, c, |s|);
  }

  /** Nothing is merged any more once the walk has passed the header `c`, which leads to `e`. */
  ghost predicate Settled(s: seq<Cell>, c: nat, e: nat)
    requires c < |s|
  {
    s[c].next == e && e <= |s| && !Joins(s, c) && Plain(s, 0, c) && Plain(s, e, |s|)
  }

  lemma WalkedSettled(s: seq<Cell>, c: nat, e: nat)
    requires Linked(s) && c < |s| && Settled(s, c, e)
    ensures Walked(s, 0) == s
  {
    SkipTo(s, 0, c);
    WalkedPlain(s, e);
  }

  /** How a walk goes on with a merge. */
  lemma WalkedJoins(s: seq<Cell>, c: nat)
    requires Linked(s) && c < |s| && Joins(s, c)
    ensures c + 1 < s[s[c].next].next <= |s| && Linked(Merged(s, c))
    ensures !Hits(s, c) ==> Walked(s, c) == Walked(Merged(s, c), s[s[c].next].next)
  {
    MergedLinked(s, c);
    NextBound(s, c);
  }

  lemma WalkedHits(s: seq<Cell>, c: nat)
    requires Linked(s) && c < |s| && Joins(s, c) && Hits(s, c)
    ensures Linked(Flipped(s, c))
    ensures var e, inner := s[s[c].next].next, Walked(Flipped(s, c), 0);
            && Linked(Unsized(inner, e)) && inner[c].next <= |s|
            && Walked(s, c) == Walked(Unsized(inner, e), inner[c].next)
  {
    FlippedLinked(s, c);
    var e, inner := s[s[c].next].next, Walked(Flipped(s, c), 0);
    UnsizedLinked(inner, e);
    NextBound(inner, c);
  }

  /** A merge behind which nothing else is merged: only the byte before the header behind is set. */
  lemma OneMerge(s: seq<Cell>, c: nat)
    requires Linked(s) && c < |s| && Joins(s, c) && Plain(s, 0, c)
    requires var e := s[s[c].next].next; Plain(s, e, |s|) && (e < |s| ==> !s[e].free)
    ensures var e := s[s[c].next].next;
            && (!Hits(s, c) ==> Walked(s, 0) == Merged(s, c))
            && (Hits(s, c) ==> Walked(s, 0) == Unsized(Flipped(s, c), e))
  {
    hide Walked;
    hide Linked;
    var e := s[s[c].next].next;
    SkipTo(s, 0, c);
    WalkedJoins(s, c);
    if Hits(s, c) {
      WalkedHits(s, c);
      FlippedFacts(s, c);
      var s1 := Flipped(s, c);
      hide Flipped;
      SamePlain(s, s1, c, 0, c);
      SamePlain(s, s1, c, e, |s|);
      WalkedSettled(s1, c, e);
      SamePlain(s1, Unsized(s1, e), c, e, |s|);
      WalkedPlain(Unsized(s1, e), e);
    } else {
      SamePlain(s, Merged(s, c), c, e, |s|);
      WalkedPlain(Merged(s, c), e);
    }
  }

  /** Changes to header `c` only do not matter before and behind it. */
  lemma SamePlain(s: seq<Cell>, s1: seq<Cell>, c: nat, from: nat, to: nat)
    requires |s| == |s1| && to <= |s| && Plain(s, from, to) && (c < from || to <= c)
    requires forall k :: 0 <= k < |s| ==> s1[k].free == s[k].free
    requires forall k :: 0 <= k < |s| && k != c ==> s1[k].next == s[k].next
    ensures Plain(s1, from, to)
  {
    forall j | from <= j < to
      ensures s1[j].next == j + 1 && !Joins(s1, j)
    {
      assert s[j].next == j + 1 && !Joins(s, j);
    }
  }

  lemma FlippedFacts(s: seq<Cell>, c: nat)
    requires Linked(s) && c < |s| && Joins(s, c) && Hits(s, c)
    ensures var s1, e := Flipped(s, c), s[s[c].next].next;
            && e > c + 1 && s1[c].next == e && |s1| == |s|
            && (forall k :: 0 <= k < |s| ==> s1[k].free == s[k].free && s1[k].zero == (s[k].zero && k != e))
            && forall k :: 0 <= k < |s| && k != c ==> s1[k].next == s[k].next
  {
    NextBound(s, c);
    hide Linked;
  }

  lemma OneMergeHits(s: seq<Cell>, c: nat)
    requires Linked(s) && c < |s| && Joins(s, c) && Plain(s, 0, c)
    requires var e := s[s[c].next].next; Plain(s, e, |s|) && (e < |s| ==> !s[e].free)
    ensures forall k :: 0 <= k < |s| ==> (Hit(s, Walked(s, 0), k) <==> Hits(s, c) && k == s[s[c].next].next)
  {
    hide Walked;
    hide Linked;
    hide Plain;
    NextBound(s, c);
    OneMerge(s, c);
  }

  /** A merge behind which another free block follows: that one is merged too only if the byte before it is 0. */
  lemma TwoMerges(s: seq<Cell>, c: nat)
    requires Linked(s) && c + 2 < |s| && Joins(s, c) && Plain(s, 0, c) && s[c].next == c + 1 && s[c + 1].next == c + 2
    requires s[c + 2].free && Plain(s, c + 2, |s|) && (c + 3 < |s| ==> !s[c + 3].free)
    ensures forall k :: 0 <= k < |s| && k != c + 2 ==>
              (Hit(s, Walked(s, 0), k) <==> s[c + 2].zero && s[k].zero && k == c + 3)
  {
    hide Walked;
    hide Linked;
    SkipTo(s, 0, c);
    WalkedJoins(s, c);
    if Hits(s, c) {
      SecondMerge(s, c);
    } else {
      SamePlain(s, Merged(s, c), c, c + 2, |s|);
      hide Plain;
      WalkedPlain(Merged(s, c), c + 2);
    }
  }

  lemma SecondMerge(s: seq<Cell>, c: nat)
    requires Linked(s) && c + 2 < |s| && Joins(s, c) && Plain(s, 0, c) && s[c].next == c + 1 && s[c + 1].next == c + 2
    requires s[c + 2].free && Plain(s, c + 2, |s|) && (c + 3 < |s| ==> !s[c + 3].free) && Hits(s, c)
    ensures forall k :: 0 <= k < |s| && k != c + 2 ==> (Hit(s, Walked(s, c), k) <==> s[k].zero && k == c + 3)
  {
    hide Walked;
    hide Linked;
    hide Plain;
    WalkedHits(s, c);
    FlippedFacts(s, c);
    var s1 := Flipped(s, c);
    hide Flipped;
    SamePlain(s, s1, c, 0, c);
    SamePlain(s, s1, c, c + 2, |s|);
    PlainFrom(s1, c + 2);
    PlainFrom(s, c + 2);
    assert Hits(s1, c) <==> c + 3 < |s| && s[c + 3].zero;
    OneMergeHits(s1, c);
    OneMergeEnd(s1, c);
    var inner := Walked(s1, 0);
    WalkedPlain(Unsized(inner, c + 2), c + 3);
    assert Walked(s, c) == Unsized(inner, c + 2);
    hide Joins;
    hide Hits;
    hide Merged;
    assert forall k :: 0 <= k < |s| && k != c + 2 ==> Hit(s, Walked(s, c), k) == Hit(s1, inner, k);
  }

  lemma PlainFrom(s: seq<Cell>, c: nat)
    requires c < |s| && Plain(s, c, |s|)
    ensures s[c].next == c + 1 && !Joins(s, c) && Plain(s, c + 1, |s|)
  {
  }

  /** Behind that merge nothing has changed but a size. */
  lemma OneMergeEnd(s: seq<Cell>, c: nat)
    requires Linked(s) && c + 3 <= |s| && Joins(s, c) && Plain(s, 0, c) && s[c].next == c + 2 && s[c + 2].next == c + 3
    requires Plain(s, c + 3, |s|) && (c + 3 < |s| ==> !s[c + 3].free)
    ensures Walked(s, 0)[c].next == c + 3 && Plain(Unsized(Walked(s, 0), c + 2), c + 3, |s|)
  {
    hide Walked;
    hide Linked;
    OneMerge(s, c);
  }

  // ---------------------------------------------------------------------------------------------
  // On the list

  lemma MarkedJoins(h: Heap, i: nat)
    requires InArena(h) && i < |h.path| && NoFreeNeighbours(h)
    ensures var s := MarkedCells(h, i);
            forall k :: 0 <= k < |s| ==>
              && s[k].next == k + 1
              && (Joins(s, k) <==> (k + 1 == i && At(h, k).free) || (k == i && i + 1 < |s| && At(h, i + 1).free))
  {
    hide HeaderAt;
    forall k | 0 <= k < |h.path|
      ensures Joins(MarkedCells(h, i), k) <==>
              (k + 1 == i && At(h, k).free) || (k == i && i + 1 < |h.path| && At(h, i + 1).free)
    {
      assert !BothFree(h, k);
    }
  }

  /** The headers of a list from which nothing was taken yet. */
  ghost predicate Fresh(s: seq<Cell>)
  {
    Linked(s) && forall k :: 0 <= k < |s| ==> s[k].next == k + 1
  }

  lemma FreshNone(s: seq<Cell>)
    requires Fresh(s) && forall k :: 0 <= k < |s| ==> !Joins(s, k)
    ensures Walked(s, 0) == s
  {
    WalkedPlain(s, 0);
  }

  lemma FreshOne(s: seq<Cell>, c: nat)
    requires Fresh(s) && c < |s| && Joins(s, c) && forall k :: 0 <= k < |s| && k != c ==> !Joins(s, k)
    ensures forall k :: 0 <= k < |s| ==> (Hit(s, Walked(s, 0), k) <==> s[k].zero && k == c + 2)
  {
    hide Walked;
    assert c + 2 < |s| ==> (Joins(s, c + 1) <==> s[c + 1].free && s[c + 2].free);
    OneMergeHits(s, c);
  }

  lemma FreshTwo(s: seq<Cell>, c: nat)
    requires Fresh(s) && c + 1 < |s| && Joins(s, c) && Joins(s, c + 1)
    requires forall k :: 0 <= k < |s| && k != c && k != c + 1 ==> !Joins(s, k)
    ensures forall k :: 0 <= k < |s| && k != c + 2 ==>
              (Hit(s, Walked(s, 0), k) <==> s[c + 2].zero && s[k].zero && k == c + 3)
  {
    hide Walked;
    assert c + 3 < |s| ==> (Joins(s, c + 2) <==> s[c + 2].free && s[c + 3].free);
    TwoMerges(s, c);
  }

  /** What the headers of such a list look like to the walk. */
  lemma MarkedFacts(h: Heap, i: nat)
    requires RoomyFree(h, i) && NoFreeNeighbours(h)
    ensures InArena(h) && i < |h.path| && Fresh(MarkedCells(h, i))
    ensures var s := MarkedCells(h, i);
            && (forall k :: 0 <= k < |s| ==> (s[k].zero <==> Exposed(h, k)))
            && (forall k :: 0 <= k < |s| && Joins(s, k) ==>
                  (i > 0 && k == i - 1 && At(h, i - 1).free) || (k == i && i + 1 < |s| && At(h, i + 1).free))
            && (i > 0 && At(h, i - 1).free ==> Joins(s, i - 1))
            && (i + 1 < |s| && At(h, i + 1).free ==> Joins(s, i))
    ensures var s := MarkedCells(h, i);
            forall k :: 0 <= k < |h.path| ==> (k in Lost(h, i) <==> Hit(s, Walked(s, 0), k))
  {
    hide HeaderAt;
    hide Peek;
    hide Linked;
    hide Walked;
    hide Ready;
    hide RoomyList;
    RoomyParts(h, i);
    MarkedReady(h, i);
    MarkedJoins(h, i);
    hide NoFreeNeighbours;
  }

  /** The block whose size is lost if the freed one is doomed to take it. */
  ghost function Target(h: Heap, i: nat): nat
    requires InArena(h)
  {
    if i + 1 < |h.path| && At(h, i + 1).free then i + 2 else i + 1
  }

  lemma LostBetween(h: Heap, i: nat, k: nat)
    requires RoomyFree(h, i) && NoFreeNeighbours(h)
    requires 0 < i && At(h, i - 1).free && i + 1 < |h.path| && At(h, i + 1).free
    requires k < |h.path| && k != i && !At(h, k).free
    ensures k in Lost(h, i) <==> Doomed(h, i) && k == Target(h, i)
  {
    hide HeaderAt;
    hide Exposed;
    hide RoomyFree;
    hide Linked;
    hide Walked;
    hide FreedCells;
    hide MarkedCells;
    hide Lost;
    hide NoFreeNeighbours;
    MarkedFacts(h, i);
    hide Fresh;
    hide Joins;
    hide Hit;
    hide InArena;
    FreshTwo(MarkedCells(h, i), i - 1);
  }

  lemma LostFollowing(h: Heap, i: nat, k: nat)
    requires RoomyFree(h, i) && NoFreeNeighbours(h) && !(0 < i && At(h, i - 1).free)
    requires i + 1 < |h.path| && At(h, i + 1).free && k < |h.path| && k != i && !At(h, k).free
    ensures k in Lost(h, i) <==> Doomed(h, i) && k == Target(h, i)
  {
    hide HeaderAt;
    hide Exposed;
    hide RoomyFree;
    hide Linked;
    hide Walked;
    hide FreedCells;
    hide MarkedCells;
    hide Lost;
    hide NoFreeNeighbours;
    MarkedFacts(h, i);
    hide Fresh;
    hide Joins;
    hide Hit;
    hide InArena;
    FreshOne(MarkedCells(h, i), i);
  }

  lemma NothingLost(h: Heap, i: nat, k: nat)
    requires RoomyFree(h, i) && NoFreeNeighbours(h) && !(0 < i && At(h, i - 1).free)
    requires !(i + 1 < |h.path| && At(h, i + 1).free) && k < |h.path|
    ensures k !in Lost(h, i) && !Doomed(h, i)
  {
    hide HeaderAt;
    hide Exposed;
    hide RoomyFree;
    hide Linked;
    hide Walked;
    hide FreedCells;
    hide MarkedCells;
    hide Lost;
    hide NoFreeNeighbours;
    MarkedFacts(h, i);
    hide Fresh;
    hide Joins;
    hide Hit;
    hide InArena;
    FreshNone(MarkedCells(h, i));
  }

  lemma LostBefore(h: Heap, i: nat, k: nat)
    requires RoomyFree(h, i) && NoFreeNeighbours(h) && 0 < i && At(h, i - 1).free
    requires !(i + 1 < |h.path| && At(h, i + 1).free) && k < |h.path| && k != i && !At(h, k).free
    ensures k in Lost(h, i) <==> Doomed(h, i) && k == Target(h, i)
  {
    hide HeaderAt;
    hide Exposed;
    hide RoomyFree;
    hide Linked;
    hide Walked;
    hide FreedCells;
    hide MarkedCells;
    hide Lost;
    hide NoFreeNeighbours;
    MarkedFacts(h, i);
    hide Fresh;
    hide Joins;
    hide Hit;
    hide InArena;
    FreshOne(MarkedCells(h, i), i - 1);
  }

  /** In such a list the other blocks in use are spared exactly if the freed one is not doomed to take a size. */
  lemma SparesIff(h: Heap, i: nat)
    requires RoomyFree(h, i) && NoFreeNeighbours(h)
    requires forall j :: 0 <= j < |h.path| && !At(h, j).free ==> At(h, j).size > 0
    ensures Spares(h, i) <==> !Doomed(h, i)
  {
    hide HeaderAt;
    hide RoomyFree;
    hide Lost;
    hide Peek;
    RoomyParts(h, i);
    LostOnList(h, i);
    assert i + 1 < |h.path| ==> !BothFree(h, i + 1);
    forall k | 0 <= k < |h.path| && k != i && !At(h, k).free
      ensures k in Lost(h, i) <==> Doomed(h, i) && k == Target(h, i)
    {
      if 0 < i && At(h, i - 1).free && i + 1 < |h.path| && At(h, i + 1).free {
        LostBetween(h, i, k);
      } else if 0 < i && At(h, i - 1).free {
        LostBefore(h, i, k);
      } else if i + 1 < |h.path| && At(h, i + 1).free {
        LostFollowing(h, i, k);
      } else {
        NothingLost(h, i, k);
      }
    }
    assert Doomed(h, i) ==> Target(h, i) < |h.path|;
  }
}
