/** Heap operations keep the list in order and leave the payloads of other live blocks alone. */
module HeapProofs {
  import opened Options
  import opened Words
  import opened HeapModel

  /** Blocks do not overlap, headers included. */
  lemma {:induction false} Ordered(h: Heap, i: nat, j: nat)
    requires WellFormed(h) && i < j < |h.path|
    ensures h.path[i] + HEADER + At(h, i).size <= h.path[j]
    decreases j
  {
    assert h.path[j - 1] + HEADER + At(h, j - 1).size <= Until(h.path, j - 1);
    if i < j - 1 {
      Ordered(h, i, j - 1);
    }
  }

  /** Each block ends inside the arena. */
  lemma {:induction false} Inside(h: Heap, i: nat)
    requires WellFormed(h) && i < |h.path|
    ensures h.path[i] + HEADER + At(h, i).size <= HEAP_SIZE
  {
    assert h.path[i] + HEADER + At(h, i).size <= Until(h.path, i);
  }

  /** The address lies in the payload of the `i`-th block. */
  predicate InPayload(h: Heap, i: nat, x: nat)
    requires i < |h.path| && h.path[i] + HEADER <= HEAP_SIZE
  {
    h.path[i] + HEADER <= x < h.path[i] + HEADER + At(h, i).size
  }

  /** The blocks in use: offset and size. */
  ghost function Live(h: Heap): set<(nat, nat)>
    requires InArena(h)
  {
    set i | 0 <= i < |h.path| && !At(h, i).free :: (h.path[i], At(h, i).size)
  }

  /** The bytes of all blocks in use, except those of the block at `but`, are as before. */
  ghost predicate PayloadsKept(h: Heap, h': Heap, but: Option<nat>)
    requires InArena(h)
  {
    forall i, x {:trigger InPayload(h, i, x)} ::
        0 <= i < |h.path| && 0 <= x < HEAP_SIZE && !At(h, i).free && but != Some(h.path[i]) && InPayload(h, i, x) ==>
            h'.mem[x] == h.mem[x]
  }

  /** Only the header of the `i`-th block has changed. */
  lemma HeaderChanged(h: Heap, m: Arena, i: nat)
    requires WellFormed(h) && i < |h.path| && SameBut(h.mem, m, h.path[i])
    ensures forall j :: 0 <= j < |h.path| && j != i ==> At(Heap(m, h.path), j) == At(h, j)
    ensures PayloadsKept(h, Heap(m, h.path), None)
  {
    forall j | 0 <= j < |h.path| && j != i
      ensures At(Heap(m, h.path), j) == At(h, j)
    {
      if j < i {
        Ordered(h, j, i);
      } else {
        Ordered(h, i, j);
      }
      OtherHeader(h.mem, m, h.path[i], h.path[j]);
    }
    forall j, x | 0 <= j < |h.path| && 0 <= x < HEAP_SIZE && !At(h, j).free && InPayload(h, j, x)
      ensures m[x] == h.mem[x]
    {
      if j < i {
        Ordered(h, j, i);
      } else if i < j {
        Ordered(h, i, j);
      }
    }
  }

  lemma SameButTrans(m: Arena, m1: Arena, m2: Arena, a: nat)
    requires SameBut(m, m1, a) && SameBut(m1, m2, a)
    ensures SameBut(m, m2, a)
  {
  }

  // ---------------------------------------------------------------------------------------------
  // Allocating

  lemma WholeHeaders(h: Heap, i: nat, size: nat)
    requires WellFormed(h) && i < |h.path| && At(h, i).size >= size && !Splits(h, i, size)
    ensures var h' := MallocAt(h, i, size);
            && h'.path == h.path && SameBut(h.mem, h'.mem, h.path[i])
            && HeaderAt(h'.mem, h.path[i]) == At(h, i).(size := size, free := false)
  {
    var c := h.path[i];
    SetSizeHeader(h.mem, c, size);
    SetFreeHeader(SetSize(h.mem, c, size), c, false);
    SameButTrans(h.mem, SetSize(h.mem, c, size), SetFree(SetSize(h.mem, c, size), c, false), c);
  }

  lemma MallocWhole(h: Heap, i: nat, size: nat)
    requires WellFormed(h) && i < |h.path| && At(h, i).free && At(h, i).size >= size && !Splits(h, i, size)
    ensures var h' := MallocAt(h, i, size);
            WellFormed(h') && Live(h') == Live(h) + {(h.path[i], size)} && PayloadsKept(h, h', None)
  {
    WholeHeaders(h, i, size);
    var h' := MallocAt(h, i, size);
    hide MallocAt;
    HeaderChanged(h, h'.mem, i);
    assert At(h', i) == At(h, i).(size := size, free := false);
    hide HeaderAt;
    forall j | 0 <= j < |h.path|
      ensures At(h', j).next == NextOf(h.path, j) && h.path[j] + HEADER + At(h', j).size <= Until(h.path, j)
    {
      assert At(h, j).next == NextOf(h.path, j) && h.path[j] + HEADER + At(h, j).size <= Until(h.path, j);
    }
    TakenLive(h, h', i, size);
  }

  lemma TakenLive(h: Heap, h': Heap, i: nat, size: nat)
    requires InArena(h) && h'.path == h.path && i < |h.path| && At(h, i).free && !At(h', i).free
    requires At(h', i).size == size
    requires forall j :: 0 <= j < |h.path| && j != i ==> At(h', j) == At(h, j)
    ensures Live(h') == Live(h) + {(h.path[i], size)}
  {
    hide HeaderAt;
    forall b | b in Live(h')
      ensures b in Live(h) + {(h.path[i], size)}
    {
      var j :| 0 <= j < |h'.path| && !At(h', j).free && b == (h'.path[j], At(h', j).size);
      assert j != i ==> !At(h, j).free;
    }
    forall b | b in Live(h)
      ensures b in Live(h')
    {
      var j :| 0 <= j < |h.path| && !At(h, j).free && b == (h.path[j], At(h, j).size);
      assert !At(h', j).free;
    }
  }

  /** Another block lies before the `i`-th one or not before the next. */
  lemma Sides(h: Heap, i: nat, j: nat)
    requires WellFormed(h) && i < |h.path| && j < |h.path|
    ensures j < i ==> h.path[j] + HEADER + At(h, j).size <= h.path[i]
    ensures j > i ==> Until(h.path, i) <= h.path[j]
  {
    if j < i {
      Ordered(h, j, i);
    } else if j > i + 1 {
      Ordered(h, i + 1, j);
    }
  }

  /** Writes into the payload of the `i`-th block change no header and no other payload. */
  lemma PayloadWritten(h: Heap, m: Arena, i: nat, a: nat, n: nat)
    requires WellFormed(h) && i < |h.path| && h.path[i] + HEADER <= a && a + n <= Until(h.path, i)
    requires forall x :: 0 <= x < HEAP_SIZE && !(a <= x < a + n) ==> m[x] == h.mem[x]
    ensures forall j :: 0 <= j < |h.path| ==> At(Heap(m, h.path), j) == At(h, j)
    ensures WellFormed(Heap(m, h.path))
    ensures PayloadsKept(h, Heap(m, h.path), Some(h.path[i]))
  {
    forall j | 0 <= j < |h.path|
      ensures At(Heap(m, h.path), j) == At(h, j)
    {
      Sides(h, i, j);
    }
    forall j, x | 0 <= j < |h.path| && 0 <= x < HEAP_SIZE && j != i && InPayload(h, j, x)
      ensures m[x] == h.mem[x]
    {
      Sides(h, i, j);
    }
    var h' := Heap(m, h.path);
    hide HeaderAt;
    forall j | 0 <= j < |h.path|
      ensures At(h', j).next == NextOf(h.path, j) && h.path[j] + HEADER + At(h', j).size <= Until(h.path, j)
    {
      assert At(h, j).next == NextOf(h.path, j) && h.path[j] + HEADER + At(h, j).size <= Until(h.path, j);
    }
  }

  /** The header of the rest, written before it is on the list. */
  function RestWritten(h: Heap, i: nat, size: nat): Arena
    requires WellFormed(h) && i < |h.path| && Splits(h, i, size)
  {
    Inside(h, i);
    var b, n := h.path[i] + HEADER + size, At(h, i);
    SetNext(SetFree(SetSize(h.mem, b, n.size - size - HEADER), b, true), b, n.next)
  }

  lemma RestHeader(h: Heap, i: nat, size: nat)
    requires WellFormed(h) && i < |h.path| && Splits(h, i, size) && At(h, i).free
    ensures var b, m := h.path[i] + HEADER + size, RestWritten(h, i, size);
            && b + HEADER <= HEAP_SIZE && HeaderAt(m, b) == Header(At(h, i).size - size - HEADER, true, At(h, i).next)
            && SameBut(h.mem, m, b) && WellFormed(Heap(m, h.path)) && PayloadsKept(h, Heap(m, h.path), None)
            && forall j :: 0 <= j < |h.path| ==> At(Heap(m, h.path), j) == At(h, j)
  {
    Inside(h, i);
    var b, n := h.path[i] + HEADER + size, At(h, i);
    var m1 := SetSize(h.mem, b, n.size - size - HEADER);
    var m2 := SetFree(m1, b, true);
    var m := SetNext(m2, b, n.next);
    SetSizeHeader(h.mem, b, n.size - size - HEADER);
    SetFreeHeader(m1, b, true);
    SetNextHeader(m2, b, n.next);
    hide HeaderAt;
    SameButTrans(h.mem, m1, m2, b);
    SameButTrans(h.mem, m2, m, b);
    assert h.path[i] + HEADER + At(h, i).size <= Until(h.path, i);
    PayloadWritten(h, m, i, b, HEADER);
  }

  lemma TakenHeader(h: Heap, m1: Arena, i: nat, size: nat)
    requires i < |h.path| && h.path[i] + HEADER + size < HEAP_SIZE
    requires size < 0x1_0000_0000
    ensures var c, b := h.path[i], h.path[i] + HEADER + size;
            var m := SetFree(SetSize(SetNext(m1, c, HEAP_START + b), c, size), c, false);
            SameBut(m1, m, c) && HeaderAt(m, c) == Header(size, false, HEAP_START + b)
  {
    var c, b := h.path[i], h.path[i] + HEADER + size;
    var m2 := SetNext(m1, c, HEAP_START + b);
    var m3 := SetSize(m2, c, size);
    SetNextHeader(m1, c, HEAP_START + b);
    SetSizeHeader(m2, c, size);
    SetFreeHeader(m3, c, false);
    SameButTrans(m1, m2, m3, c);
    SameButTrans(m1, m3, SetFree(m3, c, false), c);
  }

  /** The list after the `i`-th block has been divided. */
  ghost predicate Divided(h: Heap, h': Heap, i: nat, size: nat)
    requires InArena(h) && i < |h.path|
  {
    var b := h.path[i] + HEADER + size;
    && InArena(h') && |h'.path| == |h.path| + 1 && h'.path[i + 1] == b
    && (forall j :: 0 <= j <= i ==> h'.path[j] == h.path[j])
    && (forall j :: i < j < |h.path| ==> h'.path[j + 1] == h.path[j])
    && (forall j :: 0 <= j < i ==> At(h', j) == At(h, j))
    && At(h', i) == Header(size, false, HEAP_START + b)
    && At(h, i).size > size + HEADER && At(h', i + 1) == Header(At(h, i).size - size - HEADER, true, At(h, i).next)
    && (forall j :: i < j < |h.path| ==> At(h', j + 1) == At(h, j))
  }

  lemma PathInserted(path: seq<nat>, i: nat, b: nat)
    requires i < |path|
    ensures var path' := path[..i + 1] + [b] + path[i + 1..];
            && |path'| == |path| + 1 && path'[i + 1] == b
            && (forall j :: 0 <= j <= i ==> path'[j] == path[j])
            && (forall j :: i < j < |path| ==> path'[j + 1] == path[j])
            && forall j :: 0 <= j < |path'| ==> path'[j] == b || path'[j] in path
  {
  }

  lemma MallocDivides(h: Heap, i: nat, size: nat)
    requires WellFormed(h) && i < |h.path| && At(h, i).free && Splits(h, i, size)
    ensures Divided(h, MallocAt(h, i, size), i, size) && PayloadsKept(h, MallocAt(h, i, size), None)
  {
    hide Store;
    hide Load;
    hide SameBut;
    Inside(h, i);
    RestHeader(h, i, size);
    var c, b, m1 := h.path[i], h.path[i] + HEADER + size, RestWritten(h, i, size);
    var h1, h' := Heap(m1, h.path), MallocAt(h, i, size);
    TakenHeader(h, m1, i, size);
    assert h'.mem == SetFree(SetSize(SetNext(m1, c, HEAP_START + b), c, size), c, false);
    PathInserted(h.path, i, b);
    hide MallocAt;
    hide RestWritten;
    HeaderChanged(h1, h'.mem, i);
    OtherHeader(m1, h'.mem, c, b);
    PayloadsThrough(h, h1, h');
    hide HeaderAt;
    DividedNodes(h, h1, h', i, size);
  }

  lemma PayloadsThrough(h: Heap, h1: Heap, h2: Heap)
    requires InArena(h) && h1.path == h.path && forall j :: 0 <= j < |h.path| ==> At(h1, j) == At(h, j)
    requires PayloadsKept(h, h1, None) && PayloadsKept(h1, Heap(h2.mem, h1.path), None)
    ensures PayloadsKept(h, h2, None)
  {
    hide HeaderAt;
    forall j, x | 0 <= j < |h.path| && 0 <= x < HEAP_SIZE && !At(h, j).free && InPayload(h, j, x)
      ensures h2.mem[x] == h.mem[x]
    {
      assert At(h1, j) == At(h, j) && InPayload(h1, j, x);
    }
  }

  lemma DividedNodes(h: Heap, h1: Heap, h': Heap, i: nat, size: nat)
    requires InArena(h) && i < |h.path| && h1.path == h.path && forall j :: 0 <= j < |h.path| ==> At(h1, j) == At(h, j)
    requires var b := h.path[i] + HEADER + size;
             && b + HEADER <= HEAP_SIZE && At(h, i).size > size + HEADER
             && h'.path == h.path[..i + 1] + [b] + h.path[i + 1..]
             && HeaderAt(h'.mem, b) == Header(At(h, i).size - size - HEADER, true, At(h, i).next)
             && HeaderAt(h'.mem, h.path[i]) == Header(size, false, HEAP_START + b)
    requires forall j :: 0 <= j < |h.path| && j != i ==> At(Heap(h'.mem, h.path), j) == At(h1, j)
    ensures Divided(h, h', i, size)
  {
    hide HeaderAt;
    var b := h.path[i] + HEADER + size;
    PathInserted(h.path, i, b);
    forall j | 0 <= j < |h.path| && j != i
      ensures HeaderAt(h'.mem, h.path[j]) == At(h, j)
    {
      assert At(Heap(h'.mem, h.path), j) == At(h1, j);
    }
  }

  lemma DividedWellFormed(h: Heap, h': Heap, i: nat, size: nat)
    requires WellFormed(h) && i < |h.path| && Divided(h, h', i, size)
    ensures WellFormed(h')
  {
    hide HeaderAt;
    assert At(h, i).next == NextOf(h.path, i) && h.path[i] + HEADER + At(h, i).size <= Until(h.path, i);
    forall j | 0 <= j < |h'.path|
      ensures At(h', j).next == NextOf(h'.path, j) && h'.path[j] + HEADER + At(h', j).size <= Until(h'.path, j)
    {
      if j > i + 1 {
        assert At(h', (j - 1) + 1) == At(h, j - 1) && h'.path[(j - 1) + 1] == h.path[j - 1];
        assert At(h, j - 1).next == NextOf(h.path, j - 1)
            && h.path[j - 1] + HEADER + At(h, j - 1).size <= Until(h.path, j - 1);
        assert j < |h.path| ==> h'.path[j + 1] == h.path[j];
      } else if j < i {
        assert At(h, j).next == NextOf(h.path, j) && h.path[j] + HEADER + At(h, j).size <= Until(h.path, j);
      } else if i + 1 < |h.path| {
        assert h'.path[(i + 1) + 1] == h.path[i + 1];
      }
    }
  }

  lemma DividedLive(h: Heap, h': Heap, i: nat, size: nat)
    requires InArena(h) && i < |h.path| && Divided(h, h', i, size) && At(h, i).free
    ensures Live(h') == Live(h) + {(h.path[i], size)}
  {
    hide HeaderAt;
    var taken := (h.path[i], size);
    forall b | b in Live(h')
      ensures b in Live(h) + {taken}
    {
      var j :| 0 <= j < |h'.path| && !At(h', j).free && b == (h'.path[j], At(h', j).size);
      if j > i + 1 {
        assert At(h', (j - 1) + 1) == At(h, j - 1) && h'.path[(j - 1) + 1] == h.path[j - 1];
        assert !At(h, j - 1).free;
      } else if j < i {
        assert !At(h, j).free;
      }
    }
    forall b | b in Live(h)
      ensures b in Live(h')
    {
      var k :| 0 <= k < |h.path| && !At(h, k).free && b == (h.path[k], At(h, k).size);
      if k < i {
        assert !At(h', k).free;
      } else {
        assert !At(h', k + 1).free;
      }
    }
    assert !At(h', i).free;
  }

  /** An allocation hands out exactly the asked-for bytes of free memory and changes no live payload. */
  lemma MallocKeeps(h: Heap, i: nat, size: nat)
    requires WellFormed(h) && i < |h.path| && At(h, i).free && At(h, i).size >= size
    ensures var h' := MallocAt(h, i, size);
            WellFormed(h') && Live(h') == Live(h) + {(h.path[i], size)} && PayloadsKept(h, h', None)
  {
    if Splits(h, i, size) {
      MallocDivides(h, i, size);
      hide MallocAt;
      hide Divided;
      DividedWellFormed(h, MallocAt(h, i, size), i, size);
      DividedLive(h, MallocAt(h, i, size), i, size);
    } else {
      MallocWhole(h, i, size);
    }
  }

  /** The block that an allocation takes stays where it is and gets the size asked for. */
  lemma MallocBlock(h: Heap, i: nat, size: nat)
    requires WellFormed(h) && i < |h.path| && At(h, i).free && At(h, i).size >= size
    ensures var h' := MallocAt(h, i, size);
            WellFormed(h') && i < |h'.path| && h'.path[i] == h.path[i] && At(h', i).size == size && !At(h', i).free
  {
    MallocKeeps(h, i, size);
    if Splits(h, i, size) {
      MallocDivides(h, i, size);
    } else {
      WholeHeaders(h, i, size);
    }
  }
}
