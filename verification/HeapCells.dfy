/**
 What `kfree` makes of the headers, apart from the bytes between them (src/kernel/mm/heap.cpp:80-113). A header that
 a merge takes off the list stays in memory, and an interrupted walk may still stand on it.
 */
module HeapCells {
  import opened HeapModel

  /**
   A header; `next` is the number of the one that it leads to, or the number of headers. `zero` tells whether the
   byte eight before it, which the nested call takes for a free flag, is 0.
   */
  datatype Cell = Cell(size: nat, free: bool, next: nat, zero: bool)

  /** Every header leads further on, and past none that is in use. */
  ghost predicate Linked(s: seq<Cell>)
  {
    forall k :: 0 <= k < |s| ==> k < s[k].next <= |s| && forall j :: k < j < s[k].next ==> s[j].free
  }

  ghost function ZerosOf(s: seq<Cell>): set<nat> { set k | 0 <= k < |s| && s[k].zero }

  /** The walk merges the block of header `c` with the next one. */
  predicate Joins(s: seq<Cell>, c: nat)
    requires c < |s|
  {
    s[c].free && s[c].next < |s| && s[s[c].next].free
  }

  function Merged(s: seq<Cell>, c: nat): seq<Cell>
    requires c < |s| && Joins(s, c)
  {
    var d := s[s[c].next];
    s[c := s[c].(size := s[c].size + d.size + HEADER, next := d.next)]
  }

  /** After that merge the nested call does something. */
  predicate Hits(s: seq<Cell>, c: nat)
    requires c < |s| && Joins(s, c)
  {
    var e := s[s[c].next].next;
    e < |s| && s[e].zero
  }

  /** The nested call starts with setting the byte. */
  function Flipped(s: seq<Cell>, c: nat): seq<Cell>
    requires c < |s| && Joins(s, c) && Hits(s, c)
  {
    var e := s[s[c].next].next;
    Merged(s, c)[e := Merged(s, c)[e].(zero := false)]
  }

  /** It ends with clearing the size. */
  function Unsized(s: seq<Cell>, e: nat): seq<Cell>
    requires e < |s|
  {
    s[e := s[e].(size := 0)]
  }

  /** The headers after the walk of `kfree` from header `c` on, with its nested calls. */
  ghost function Walked(s: seq<Cell>, c: nat): (s': seq<Cell>)
    requires Linked(s) && c <= |s|
    ensures Linked(s') && |s'| == |s| && ZerosOf(s') <= ZerosOf(s)
    ensures forall k :: 0 <= k < |s| ==> s'[k].free == s[k].free
    decreases ZerosOf(s), |s| - c
  {
    if c == |s| then s
    else if !Joins(s, c) then Walked(s, s[c].next)
    else if !Hits(s, c) then
      MergedLinked(s, c);
      Walked(Merged(s, c), s[s[c].next].next)
    else
      MergedLinked(s, c);
      FlippedLinked(s, c);
      var e := s[s[c].next].next;
      var inner := Walked(Flipped(s, c), 0);
      UnsizedLinked(inner, e);
      Walked(Unsized(inner, e), inner[c].next)
  }

  lemma MergedLinked(s: seq<Cell>, c: nat)
    requires Linked(s) && c < |s| && Joins(s, c)
    ensures Linked(Merged(s, c)) && ZerosOf(Merged(s, c)) == ZerosOf(s)
    ensures Merged(s, c)[c].next == s[s[c].next].next > c + 1
    ensures forall j :: c <= j < s[s[c].next].next ==> s[j].free
  {
    var d := s[c].next;
    forall j | c <= j < s[d].next
      ensures s[j].free
    {
      assert j == c || j == d || c < j < d || d < j;
    }
  }

  lemma FlippedLinked(s: seq<Cell>, c: nat)
    requires Linked(s) && c < |s| && Joins(s, c) && Hits(s, c)
    ensures Linked(Flipped(s, c)) && ZerosOf(Flipped(s, c)) == ZerosOf(s) - {s[s[c].next].next}
    ensures ZerosOf(Flipped(s, c)) < ZerosOf(s)
  {
    MergedLinked(s, c);
  }

  lemma UnsizedLinked(s: seq<Cell>, e: nat)
    requires Linked(s) && e < |s|
    ensures Linked(Unsized(s, e)) && ZerosOf(Unsized(s, e)) == ZerosOf(s)
  {
  }

  // ---------------------------------------------------------------------------------------------
  // What a walk keeps

  /** The headers whose byte was set. */
  ghost predicate Hit(s: seq<Cell>, s': seq<Cell>, k: nat)
    requires k < |s| == |s'|
  {
    s[k].zero && !s'[k].zero
  }

  /** A block in use keeps its header but for its size, which becomes 0 if its byte was set, behind two free blocks. */
  ghost predicate UsedKept(s: seq<Cell>, s': seq<Cell>)
    requires |s| == |s'|
  {
    && (forall k :: 0 <= k < |s| && !s[k].free ==>
          s'[k].next == s[k].next && s'[k].size == if Hit(s, s', k) then 0 else s[k].size)
    && (forall k :: 0 <= k < |s| && Hit(s, s', k) ==> k > 1 && s[k - 1].free && s[k - 2].free)
  }

  lemma {:induction false} WalkedKeeps(s: seq<Cell>, c: nat)
    requires Linked(s) && c <= |s|
    ensures UsedKept(s, Walked(s, c))
    decreases ZerosOf(s), |s| - c
  {
    hide Linked;
    hide UsedKept;
    hide ZerosOf;
    if c == |s| {
      NothingHit(s);
    } else {
      NextBound(s, c);
      if !Joins(s, c) {
        WalkedKeeps(s, s[c].next);
      } else {
        MergedLinked(s, c);
        var e := s[s[c].next].next;
        if !Hits(s, c) {
          WalkedKeeps(Merged(s, c), e);
          KeptThrough(s, Merged(s, c), Walked(s, c));
        } else {
          FlippedLinked(s, c);
          var inner := Walked(Flipped(s, c), 0);
          UnsizedLinked(inner, e);
          NextBound(inner, c);
          WalkedKeeps(Flipped(s, c), 0);
          WalkedKeeps(Unsized(inner, e), inner[c].next);
          StillSet(Flipped(s, c), inner);
          StillSet(Unsized(inner, e), Walked(s, c));
          KeptAround(s, Flipped(s, c), inner, Walked(s, c), e);
        }
      }
    }
  }

  /** Between setting the byte of header `e` and clearing its size lies an inner walk, and behind that an outer one. */
  lemma KeptAround(s: seq<Cell>, s1: seq<Cell>, inner: seq<Cell>, s': seq<Cell>, e: nat)
    requires |s| == |s1| == |inner| == |s'| && 1 < e < |s| && s[e].zero && s[e - 1].free && s[e - 2].free
    requires forall k :: 0 <= k < |s| ==> s1[k].free == s[k].free && s1[k].zero == (s[k].zero && k != e)
    requires forall k :: 0 <= k < |s| && !s[k].free && k != e ==> s1[k] == s[k]
    requires !s[e].free ==> s1[e] == s[e].(zero := false)
    requires UsedKept(s1, inner) && UsedKept(Unsized(inner, e), s')
    requires forall k :: 0 <= k < |s| ==> inner[k].free == s[k].free
    requires forall k :: 0 <= k < |s| && !s1[k].zero ==> !inner[k].zero
    requires forall k :: 0 <= k < |s| && !inner[k].zero ==> !s'[k].zero
    ensures UsedKept(s, s')
  {
    forall k | 0 <= k < |s| && !s[k].free
      ensures s'[k].next == s[k].next && s'[k].size == if Hit(s, s', k) then 0 else s[k].size
    {
      assert !s1[k].free && !Unsized(inner, e)[k].free;
      assert Hit(s, s', k) <==> k == e || Hit(s1, inner, k) || Hit(Unsized(inner, e), s', k);
    }
    forall k | 0 <= k < |s| && Hit(s, s', k)
      ensures k > 1 && s[k - 1].free && s[k - 2].free
    {
      assert k == e || Hit(s1, inner, k) || Hit(Unsized(inner, e), s', k);
    }
  }

  lemma NextBound(s: seq<Cell>, c: nat)
    requires Linked(s) && c < |s|
    ensures c < s[c].next <= |s| && (s[c].next < |s| ==> s[c].next < s[s[c].next].next <= |s|)
    ensures forall j :: c < j < s[c].next ==> s[j].free
  {
  }

  lemma NothingHit(s: seq<Cell>)
    ensures UsedKept(s, s)
  {
  }

  lemma KeptThrough(s: seq<Cell>, s1: seq<Cell>, s': seq<Cell>)
    requires |s| == |s1| == |s'| && UsedKept(s1, s')
    requires forall k :: 0 <= k < |s| ==> s1[k].free == s[k].free && s1[k].zero == s[k].zero
    requires forall k :: 0 <= k < |s| && !s[k].free ==> s1[k] == s[k]
    ensures UsedKept(s, s')
  {
    forall k | 0 <= k < |s| && !s[k].free
      ensures s'[k].next == s[k].next && s'[k].size == if Hit(s, s', k) then 0 else s[k].size
    {
      assert s1[k] == s[k] && Hit(s, s', k) == Hit(s1, s', k);
    }
    forall k | 0 <= k < |s| && Hit(s, s', k)
      ensures k > 1 && s[k - 1].free && s[k - 2].free
    {
      assert Hit(s1, s', k) && s1[k - 1].free && s1[k - 2].free;
    }
  }

  /** A byte that is set stays so. */
  lemma StillSet(s: seq<Cell>, s': seq<Cell>)
    requires |s| == |s'| && ZerosOf(s') <= ZerosOf(s)
    ensures forall k :: 0 <= k < |s| && !s[k].zero ==> !s'[k].zero
  {
    forall k | 0 <= k < |s| && !s[k].zero
      ensures !s'[k].zero
    {
      assert k !in ZerosOf(s);
    }
  }

  // ---------------------------------------------------------------------------------------------
  // Sizes

  /** The place of header `k`; the end of the heap behind the last. */
  function PlaceOf(p: seq<nat>, k: nat): nat { if k < |p| then p[k] else HEAP_SIZE }

  /** The headers lie one behind the other from the start of the heap on. */
  ghost predicate Placed(p: seq<nat>)
  {
    && p != [] && p[0] == 0 && (forall k :: 0 <= k < |p| ==> p[k] + HEADER <= HEAP_SIZE)
    && forall j, k :: 0 <= j < k < |p| ==> p[j] + HEADER <= p[k]
  }

  /** Each block ends before the header that its own one leads to. */
  ghost predicate Fits(p: seq<nat>, s: seq<Cell>)
  {
    |p| == |s| && forall k :: 0 <= k < |s| ==> p[k] + HEADER + s[k].size <= PlaceOf(p, s[k].next)
  }

  lemma MergedFits(p: seq<nat>, s: seq<Cell>, c: nat)
    requires Linked(s) && Fits(p, s) && c < |s| && Joins(s, c)
    ensures Fits(p, Merged(s, c))
  {
    var d := s[c].next;
    assert p[c] + HEADER + s[c].size <= PlaceOf(p, d) == p[d];
    assert p[d] + HEADER + s[d].size <= PlaceOf(p, s[d].next);
  }

  lemma {:induction false} WalkedFits(p: seq<nat>, s: seq<Cell>, c: nat)
    requires Linked(s) && Fits(p, s) && c <= |s|
    ensures Fits(p, Walked(s, c))
    decreases ZerosOf(s), |s| - c
  {
    hide PlaceOf;
    if c < |s| {
      if !Joins(s, c) {
        WalkedFits(p, s, s[c].next);
      } else {
        MergedLinked(s, c);
        MergedFits(p, s, c);
        var e := s[s[c].next].next;
        if !Hits(s, c) {
          WalkedFits(p, Merged(s, c), e);
        } else {
          FlippedLinked(s, c);
          WalkedFits(p, Flipped(s, c), 0);
          var inner := Walked(Flipped(s, c), 0);
          UnsizedLinked(inner, e);
          FitsUnsized(p, inner, e);
          WalkedFits(p, Unsized(inner, e), inner[c].next);
        }
      }
    }
  }

  lemma FitsUnsized(p: seq<nat>, s: seq<Cell>, e: nat)
    requires Fits(p, s) && e < |s|
    ensures Fits(p, Unsized(s, e))
  {
  }

  // ---------------------------------------------------------------------------------------------
  // The list that the headers lead along

  /** The numbers of the headers from the `c`-th on that are still on the list. */
  ghost function ListFrom(s: seq<Cell>, c: nat): (l: seq<nat>)
    requires Linked(s) && c <= |s|
    ensures c < |s| ==> l != [] && l[0] == c
    ensures c == |s| ==> l == []
    decreases |s| - c
  {
    if c == |s| then [] else [c] + ListFrom(s, s[c].next)
  }

  function Following(l: seq<nat>, i: nat, n: nat): nat { if i + 1 < |l| then l[i + 1] else n }

  /** The list is in order, each header leads to the next one on it, and it misses no block in use. */
  lemma {:induction false} ListInOrder(s: seq<Cell>, c: nat)
    requires Linked(s) && c <= |s|
    ensures var l := ListFrom(s, c);
            && (forall i :: 0 <= i < |l| ==> c <= l[i] < |s|)
            && (forall i {:trigger Following(l, i, |s|)} :: 0 <= i < |l| ==> s[l[i]].next == Following(l, i, |s|))
            && (forall k :: c <= k < |s| && !s[k].free ==> k in l)
    decreases |s| - c
  {
    hide Linked;
    if c < |s| {
      NextBound(s, c);
      ListInOrder(s, s[c].next);
      var l, rest := ListFrom(s, c), ListFrom(s, s[c].next);
      assert l == [c] + rest;
      forall i | 0 <= i < |l|
        ensures c <= l[i] < |s| && s[l[i]].next == Following(l, i, |s|)
      {
        if i > 0 {
          assert l[i] == rest[i - 1] && s[rest[i - 1]].next == Following(rest, i - 1, |s|);
        }
      }
      forall k | c <= k < |s| && !s[k].free
        ensures k in l
      {
        assert k == c || k >= s[c].next;
      }
    }
  }
}
