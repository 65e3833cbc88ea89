/** The walk of `kfree` on the bytes of the arena does to the headers what `HeapCells.Walked` says. */
module HeapRefine {
  import opened Options
  import opened Words
  import opened HeapModel
  import opened HeapProofs
  import opened HeapReentry
  import opened HeapCells

  /** The byte eight before the header at `a`, which the nested call takes for a free flag. */
  function Peek(m: Arena, a: nat): byte
  {
    if 8 <= a <= HEAP_SIZE then m[a - 8] else 1
  }

  predicate HeaderIs(m: Arena, p: seq<nat>, k: nat, cell: Cell)
    requires k < |p| && p[k] + HEADER <= HEAP_SIZE
  {
    && HeaderAt(m, p[k]) == Header(cell.size, cell.free, AddressOf(p, cell.next))
    && (cell.zero <==> Peek(m, p[k]) == 0)
  }

  /** The memory holds these headers at these places. */
  ghost predicate Shows(m: Arena, p: seq<nat>, s: seq<Cell>)
  {
    |p| == |s| && Placed(p) && forall k {:trigger s[k]} :: 0 <= k < |s| ==> HeaderIs(m, p, k, s[k])
  }

  /** A free block has at least eight bytes before the next header. */
  ghost predicate Roomy(p: seq<nat>, s: seq<Cell>)
    requires |p| == |s|
  {
    forall k :: 0 <= k < |s| && s[k].free && k + 1 < |s| ==> p[k] + HEADER + 8 <= p[k + 1]
  }

  predicate InRegion(p: seq<nat>, k: nat, x: nat)
  {
    k < |p| && p[k] + HEADER <= x < PlaceOf(p, k + 1)
  }

  /** The bytes between the headers of blocks in use and the next ones are as before. */
  ghost predicate UsedBytes(m: Arena, m': Arena, p: seq<nat>, s: seq<Cell>)
  {
    forall k: nat, x: nat {:trigger InRegion(p, k, x)} ::
      k < |s| && !s[k].free && InRegion(p, k, x) && x < HEAP_SIZE ==> m'[x] == m[x]
  }

  lemma UsedBytesTrans(m: Arena, m1: Arena, m2: Arena, p: seq<nat>, s: seq<Cell>, s1: seq<Cell>)
    requires UsedBytes(m, m1, p, s) && UsedBytes(m1, m2, p, s1)
    requires |s| == |s1| && forall k :: 0 <= k < |s| ==> s1[k].free == s[k].free
    ensures UsedBytes(m, m2, p, s)
  {
    forall k: nat, x: nat | k < |s| && !s[k].free && InRegion(p, k, x) && x < HEAP_SIZE
      ensures m2[x] == m[x]
    {
      assert !s1[k].free;
    }
  }

  // ---------------------------------------------------------------------------------------------
  // The single steps

  /** Changes inside the header of a free block leave all else as it is. */
  lemma HeaderChangedAt(m: Arena, m': Arena, p: seq<nat>, s: seq<Cell>, c: nat, cell: Cell)
    requires Shows(m, p, s) && Roomy(p, s) && c < |s| && s[c].free && SameBut(m, m', p[c])
    requires HeaderAt(m', p[c]) == Header(cell.size, cell.free, AddressOf(p, cell.next)) && cell.zero == s[c].zero
    ensures Shows(m', p, s[c := cell]) && UsedBytes(m, m', p, s)
  {
    hide HeaderAt;
    var s' := s[c := cell];
    forall k | 0 <= k < |s|
      ensures HeaderIs(m', p, k, s'[k])
    {
      assert HeaderIs(m, p, k, s[k]);
      if k != c {
        OtherHeader(m, m', p[c], p[k]);
      }
      assert k > c ==> p[k] >= p[c + 1];
    }
    forall k: nat, x: nat | k < |s| && !s[k].free && InRegion(p, k, x) && x < HEAP_SIZE
      ensures m'[x] == m[x]
    {
      assert k < c ==> p[k + 1] <= p[c];
    }
  }

  lemma JoinedHeader(m: Arena, c: nat, d: nat)
    requires c + HEADER <= HEAP_SIZE && d + HEADER <= HEAP_SIZE && c + HEADER <= d
    requires Load(m, c) + Load(m, d) + HEADER < 0x1_0000_0000
    ensures SameBut(m, JoinedBytes(m, c, d), c)
    ensures HeaderAt(JoinedBytes(m, c, d), c) == Header(Load(m, c) + Load(m, d) + HEADER, m[c + 4] != 0, Load(m, d + 8))
  {
    hide Load;
    hide Store;
    var size := Load(m, c) + Load(m, d) + HEADER;
    var sized := SetSize(m, c, size);
    SetSizeHeader(m, c, size);
    OtherHeader(m, sized, c, d);
    SetNextHeader(sized, c, Load(sized, d + 8));
    SameButTrans(m, sized, SetNext(sized, c, Load(sized, d + 8)), c);
  }

  lemma HeaderOf(m: Arena, p: seq<nat>, s: seq<Cell>, k: nat)
    requires Shows(m, p, s) && k < |s|
    ensures |p| == |s| && p[k] + HEADER <= HEAP_SIZE && PlaceOf(p, s[k].next) <= HEAP_SIZE && HeaderIs(m, p, k, s[k])
    ensures k < s[k].next < |s| ==> p[k] + HEADER <= p[s[k].next]
  {
  }

  lemma JoinShows(m: Arena, p: seq<nat>, s: seq<Cell>, c: nat)
    requires Shows(m, p, s) && Roomy(p, s) && Linked(s) && Fits(p, s) && c < |s| && Joins(s, c)
    ensures var m1 := JoinedBytes(m, p[c], p[s[c].next]);
            && Shows(m1, p, Merged(s, c)) && UsedBytes(m, m1, p, s)
            && Load(m1, p[c] + 8) == AddressOf(p, s[s[c].next].next)
  {
    hide Load;
    hide JoinedBytes;
    hide SameBut;
    hide Shows;
    hide Linked;
    hide UsedBytes;
    hide Roomy;
    var d := s[c].next;
    NextBound(s, c);
    HeaderOf(m, p, s, c);
    HeaderOf(m, p, s, d);
    assert p[c] + HEADER + s[c].size <= PlaceOf(p, d) && p[d] + HEADER + s[d].size <= PlaceOf(p, s[d].next);
    hide Fits;
    JoinedHeader(m, p[c], p[d]);
    HeaderChangedAt(m, JoinedBytes(m, p[c], p[d]), p, s, c, Merged(s, c)[c]);
  }

  /** The byte before header `e` is set, in the room of the free block before it. */
  lemma FlipShows(m: Arena, p: seq<nat>, s: seq<Cell>, e: nat)
    requires Shows(m, p, s) && Roomy(p, s) && 0 < e < |s| && s[e].zero && s[e - 1].free
    ensures p[e] >= HEADER + 8
    ensures var m1 := SetFree(m, p[e] - HEADER, true);
            Shows(m1, p, s[e := s[e].(zero := false)]) && UsedBytes(m, m1, p, s)
  {
    var x := p[e] - 8;
    assert p[e - 1] + HEADER + 8 <= p[e];
    var m1 := SetFree(m, p[e] - HEADER, true);
    assert m1 == m[x := 1];
    var s' := s[e := s[e].(zero := false)];
    forall k | 0 <= k < |s|
      ensures HeaderIs(m1, p, k, s'[k])
    {
      assert HeaderIs(m, p, k, s[k]);
      assert p[k] + HEADER <= x || p[k] > x by {
        assert k < e - 1 ==> p[k] + HEADER <= p[e - 1];
      }
      assert k != e ==> p[k] != p[e];
    }
    forall k: nat, y: nat | k < |s| && !s[k].free && InRegion(p, k, y) && y < HEAP_SIZE
      ensures m1[y] == m[y]
    {
      assert k < e - 1 ==> p[k + 1] <= p[e - 1];
    }
  }

  /** A write of four bytes at the start of a header changes the size at most. */
  lemma ClearShows(m: Arena, p: seq<nat>, s: seq<Cell>, e: nat)
    requires Shows(m, p, s) && e < |s|
    ensures Shows(Store(m, p[e], 0), p, Unsized(s, e)) && UsedBytes(m, Store(m, p[e], 0), p, s)
  {
    var m1 := Store(m, p[e], 0);
    StoreLoad(m, p[e], 0);
    hide Store;
    var s' := Unsized(s, e);
    forall k | 0 <= k < |s|
      ensures HeaderIs(m1, p, k, s'[k])
    {
      assert HeaderIs(m, p, k, s[k]);
      assert k < e ==> p[k] + HEADER <= p[e];
      assert k > e ==> p[e] + HEADER <= p[k];
    }
    forall k: nat, x: nat | k < |s| && !s[k].free && InRegion(p, k, x) && x < HEAP_SIZE
      ensures m1[x] == m[x]
    {
      assert k < e ==> p[k + 1] <= p[e];
      assert k > e ==> p[e] + HEADER <= p[k];
    }
  }

  // ---------------------------------------------------------------------------------------------
  // Whole walks

  /** What a walk starts from. */
  ghost predicate Ready(m: Arena, p: seq<nat>, s: seq<Cell>)
  {
    Shows(m, p, s) && Roomy(p, s) && Linked(s) && Fits(p, s)
  }

  lemma SameRoom(p: seq<nat>, s: seq<Cell>, s1: seq<Cell>)
    requires |p| == |s| == |s1| && Roomy(p, s) && forall k :: 0 <= k < |s| ==> s1[k].free == s[k].free
    ensures Roomy(p, s1)
  {
  }

  /** Where a walk goes on that does not merge. */
  lemma WalkPasses(m: Arena, p: seq<nat>, s: seq<Cell>, c: nat, fuel: nat)
    requires Ready(m, p, s) && c < |s| && !Joins(s, c)
    ensures Walk(m, AddressOf(p, c), fuel + 1) == Walk(m, AddressOf(p, s[c].next), fuel)
  {
    hide Load;
    hide JoinedBytes;
    hide Fits;
    hide Roomy;
    hide Shows;
    NextBound(s, c);
    hide Linked;
    HeaderOf(m, p, s, c);
    if s[c].next < |s| {
      HeaderOf(m, p, s, s[c].next);
    }
  }

  /** A merge: the joined memory, and where the nested call finds it. */
  lemma WalkJoins(m: Arena, p: seq<nat>, s: seq<Cell>, c: nat, fuel: nat)
    requires Ready(m, p, s) && c < |s| && Joins(s, c)
    ensures var m1 := JoinedBytes(m, p[c], p[s[c].next]);
            Walk(m, AddressOf(p, c), fuel + 1) ==
            match Kfree(m1, AddressOf(p, s[s[c].next].next), fuel)
            case None => None
            case Some(m2) => Walk(m2, Load(m2, p[c] + 8), fuel)
  {
    hide Load;
    hide JoinedBytes;
    hide Roomy;
    hide Shows;
    hide Kfree;
    hide UsedBytes;
    JoinShows(m, p, s, c);
    NextBound(s, c);
    hide Linked;
    HeaderOf(m, p, s, c);
    HeaderOf(m, p, s, s[c].next);
    hide Fits;
  }

  lemma JoinReady(m: Arena, p: seq<nat>, s: seq<Cell>, c: nat)
    requires Ready(m, p, s) && c < |s| && Joins(s, c)
    ensures var m1 := JoinedBytes(m, p[c], p[s[c].next]);
            Ready(m1, p, Merged(s, c)) && UsedBytes(m, m1, p, s)
  {
    hide JoinedBytes;
    hide Shows;
    hide UsedBytes;
    hide PlaceOf;
    JoinShows(m, p, s, c);
    MergedLinked(s, c);
    MergedFits(p, s, c);
    hide Linked;
    hide Fits;
    SameRoom(p, s, Merged(s, c));
  }

  /** The nested call passes over header `e`, or there is none. */
  lemma NestedPasses(m: Arena, p: seq<nat>, s: seq<Cell>, e: nat, fuel: nat)
    requires Shows(m, p, s) && 1 < e <= |s| && (e < |s| ==> !s[e].zero)
    ensures Kfree(m, AddressOf(p, e), fuel) == Some(m)
  {
    hide HeaderAt;
    if e < |s| {
      HeaderOf(m, p, s, e);
      assert p[1] + HEADER <= p[e] || e == 1;
      assert p[0] + HEADER <= p[1];
    }
  }

  /** The nested call for header `e` sets its byte, walks, and clears its size. */
  lemma NestedWalks(m: Arena, p: seq<nat>, s: seq<Cell>, e: nat, fuel: nat)
    requires Ready(m, p, s) && 1 < e < |s| && s[e].zero && s[e - 1].free
    ensures p[e] >= HEADER + 8
    ensures var m1 := SetFree(m, p[e] - HEADER, true);
            && Kfree(m, AddressOf(p, e), fuel + 1)
               == (match Walk(m1, HEAP_START, fuel) case None => None case Some(m2) => Some(Store(m2, p[e], 0)))
            && Shows(m1, p, s[e := s[e].(zero := false)]) && UsedBytes(m, m1, p, s)
  {
    hide HeaderAt;
    hide Store;
    hide Walk;
    hide Fits;
    hide Linked;
    FlipShows(m, p, s, e);
    HeaderOf(m, p, s, e);
    hide Shows;
    hide Roomy;
  }

  /** Every walk with its nested calls ends, and does to the headers what `Walked` says. */
  lemma {:induction false} WalkIs(m: Arena, p: seq<nat>, s: seq<Cell>, c: nat) returns (fuel: nat, m': Arena)
    requires Ready(m, p, s) && c <= |s|
    ensures Walk(m, AddressOf(p, c), fuel) == Some(m')
    ensures Ready(m', p, Walked(s, c)) && UsedBytes(m, m', p, s)
    decreases ZerosOf(s), |s| - c, 1
  {
    hide Load;
    hide Walk;
    hide Kfree;
    hide JoinedBytes;
    hide Shows;
    hide Roomy;
    hide Fits;
    hide UsedBytes;
    hide Linked;
    NothingUsed(m, p, s);
    ReadyParts(m, p, s);
    if c == |s| {
      WalkEnds(m);
      return 0, m;
    }
    if !Joins(s, c) {
      NextBound(s, c);
      var f;
      f, m' := WalkIs(m, p, s, s[c].next);
      WalkPasses(m, p, s, c, f);
      return f + 1, m';
    }
    if Hits(s, c) {
      fuel, m' := WalkHits(m, p, s, c);
    } else {
      fuel, m' := WalkMerges(m, p, s, c);
    }
  }

  /** A merge behind which the nested call does nothing. */
  lemma {:induction false} WalkMerges(m: Arena, p: seq<nat>, s: seq<Cell>, c: nat) returns (fuel: nat, m': Arena)
    requires Ready(m, p, s) && c < |s| && Joins(s, c) && !Hits(s, c)
    ensures Walk(m, AddressOf(p, c), fuel) == Some(m')
    ensures Linked(s) && Ready(m', p, Walked(s, c)) && UsedBytes(m, m', p, s)
    decreases ZerosOf(s), |s| - c, 0
  {
    hide Load;
    hide Walk;
    hide Kfree;
    hide JoinedBytes;
    hide Shows;
    hide Roomy;
    hide Fits;
    hide UsedBytes;
    hide Linked;
    ReadyParts(m, p, s);
    NextBound(s, c);
    var e, m1 := s[s[c].next].next, JoinedBytes(m, p[c], p[s[c].next]);
    MergedLinked(s, c);
    JoinReady(m, p, s, c);
    var f;
    f, m' := WalkIs(m1, p, Merged(s, c), e);
    WalkJoins(m, p, s, c, f);
    ReadyParts(m1, p, Merged(s, c));
    NestedPasses(m1, p, Merged(s, c), e, f);
    LinkAt(m1, p, Merged(s, c), c);
    UsedBytesTrans(m, m1, m', p, s, Merged(s, c));
    fuel := f + 1;
  }

  /** A merge behind which it sets a byte and walks. */
  lemma {:induction false} WalkHits(m: Arena, p: seq<nat>, s: seq<Cell>, c: nat) returns (fuel: nat, m': Arena)
    requires Ready(m, p, s) && c < |s| && Joins(s, c) && Hits(s, c)
    ensures Walk(m, AddressOf(p, c), fuel) == Some(m')
    ensures Linked(s) && Ready(m', p, Walked(s, c)) && UsedBytes(m, m', p, s)
    decreases ZerosOf(s), |s| - c, 0
  {
    hide Load;
    hide Walk;
    hide Kfree;
    hide JoinedBytes;
    hide Shows;
    hide Roomy;
    hide Fits;
    hide UsedBytes;
    hide Linked;
    ReadyParts(m, p, s);
    NextBound(s, c);
    var e, m1 := s[s[c].next].next, JoinedBytes(m, p[c], p[s[c].next]);
    MergedLinked(s, c);
    JoinReady(m, p, s, c);
    var f1, f2, m2;
    f1, m2 := HitIs(m1, p, s, c);
    var inner := Walked(Flipped(s, c), 0);
    var s3 := Unsized(inner, e);
    FlippedLinked(s, c);
    UnsizedLinked(inner, e);
    NextBound(inner, c);
    SameFlags(s, c, inner);
    hide Merged;
    hide Flipped;
    hide Unsized;
    f2, m' := WalkIs(m2, p, s3, inner[c].next);
    LinkAt(m2, p, s3, c);
    UsedBytesTrans(m, m1, m2, p, s, Merged(s, c));
    UsedBytesTrans(m, m2, m', p, s, s3);
    fuel := f1 + f2 + 1;
    WalkJoins(m, p, s, c, f1 + f2);
    KfreeMore(m1, AddressOf(p, e), f1, f1 + f2);
    WalkMore(m2, AddressOf(p, inner[c].next), f2, f1 + f2);
  }

  lemma SameFlags(s: seq<Cell>, c: nat, inner: seq<Cell>)
    requires Linked(s) && c < |s| && Joins(s, c) && Hits(s, c) && |inner| == |s|
    requires forall k :: 0 <= k < |s| ==> inner[k].free == Flipped(s, c)[k].free
    ensures var e := s[s[c].next].next; var s3 := Unsized(inner, e);
            && |Merged(s, c)| == |s3| == |s| && s3[c].next == inner[c].next
            && forall k :: 0 <= k < |s| ==> Merged(s, c)[k].free == s[k].free && s3[k].free == s[k].free
  {
  }

  /** The nested call after a merge that left the memory `m`. */
  lemma {:induction false} HitIs(m: Arena, p: seq<nat>, s: seq<Cell>, c: nat) returns (fuel: nat, m': Arena)
    requires Linked(s) && c < |s| && Joins(s, c) && Hits(s, c) && Ready(m, p, Merged(s, c))
    ensures var e := s[s[c].next].next;
            && Kfree(m, AddressOf(p, e), fuel) == Some(m') && Linked(Flipped(s, c))
            && Ready(m', p, Unsized(Walked(Flipped(s, c), 0), e)) && UsedBytes(m, m', p, Merged(s, c))
    decreases ZerosOf(s), 0, 0
  {
    hide Load;
    hide Walk;
    hide Kfree;
    hide JoinedBytes;
    hide Shows;
    hide Roomy;
    hide Fits;
    hide UsedBytes;
    var e, s1 := s[s[c].next].next, Merged(s, c);
    MergedLinked(s, c);
    FlippedLinked(s, c);
    hide Linked;
    ReadyParts(m, p, s1);
    NestedWalks(m, p, s1, e, 0);
    var m1 := SetFree(m, p[e] - HEADER, true);
    FlippedReady(m, m1, p, s1, e);
    var f, m2 := WalkIs(m1, p, Flipped(s, c), 0);
    var inner := Walked(Flipped(s, c), 0);
    ReadyParts(m2, p, inner);
    ClearShows(m2, p, inner, e);
    UnsizedReady(m2, p, inner, e);
    m' := Store(m2, p[e], 0);
    fuel := f + 1;
    NestedWalks(m, p, s1, e, f);
    StartsAtHeap(p, m1, Flipped(s, c));
    UsedBytesTrans(m, m1, m2, p, s1, Flipped(s, c));
    UsedBytesTrans(m, m2, m', p, s1, inner);
  }

  lemma ReadyParts(m: Arena, p: seq<nat>, s: seq<Cell>)
    requires Ready(m, p, s)
    ensures Shows(m, p, s) && |p| == |s| && Roomy(p, s) && Linked(s) && Fits(p, s) && Placed(p)
    ensures forall k :: 0 <= k < |p| ==> p[k] + HEADER <= HEAP_SIZE
  {
  }

  lemma WalkEnds(m: Arena)
    ensures Walk(m, 0, 0) == Some(m)
  {
  }

  lemma NothingUsed(m: Arena, p: seq<nat>, s: seq<Cell>)
    ensures UsedBytes(m, m, p, s)
  {
  }

  lemma StartsAtHeap(p: seq<nat>, m: Arena, s: seq<Cell>)
    requires Ready(m, p, s)
    ensures AddressOf(p, 0) == HEAP_START
  {
  }

  lemma LinkAt(m: Arena, p: seq<nat>, s: seq<Cell>, c: nat)
    requires Ready(m, p, s) && c < |s|
    ensures |p| == |s| && p[c] + HEADER <= HEAP_SIZE && Load(m, p[c] + 8) == AddressOf(p, s[c].next)
  {
    HeaderOf(m, p, s, c);
  }

  lemma FlippedReady(m: Arena, m1: Arena, p: seq<nat>, s: seq<Cell>, e: nat)
    requires Ready(m, p, s) && e < |s| && Shows(m1, p, s[e := s[e].(zero := false)])
    ensures Ready(m1, p, s[e := s[e].(zero := false)])
  {
    hide Shows;
    hide PlaceOf;
    var s1 := s[e := s[e].(zero := false)];
    assert forall k :: 0 <= k < |s| ==> s1[k].next == s[k].next && s1[k].size == s[k].size && s1[k].free == s[k].free;
    SameShape(p, s, s1);
  }

  lemma SameShape(p: seq<nat>, s: seq<Cell>, s1: seq<Cell>)
    requires |p| == |s| == |s1| && Linked(s) && Fits(p, s) && Roomy(p, s)
    requires forall k :: 0 <= k < |s| ==> s1[k].next == s[k].next && s1[k].size == s[k].size && s1[k].free == s[k].free
    ensures Linked(s1) && Fits(p, s1) && Roomy(p, s1)
  {
    hide PlaceOf;
    assert Linked(s1) by {
      forall k | 0 <= k < |s1|
        ensures k < s1[k].next <= |s1| && forall j :: k < j < s1[k].next ==> s1[j].free
      {
        NextBound(s, k);
      }
    }
    hide Linked;
  }

  lemma UnsizedReady(m: Arena, p: seq<nat>, s: seq<Cell>, e: nat)
    requires Ready(m, p, s) && e < |s| && Shows(Store(m, p[e], 0), p, Unsized(s, e))
    ensures Ready(Store(m, p[e], 0), p, Unsized(s, e))
  {
    hide Shows;
    hide Store;
    FitsUnsized(p, s, e);
  }
}
