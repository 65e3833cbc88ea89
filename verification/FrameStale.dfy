/**
 Lists with `prev` pointers that were left behind: exactly when an allocation as coded still hands out the block that
 it has found, and what runs keep as long as all do.
 */
module FrameStale {
  import opened Options
  import opened FrameModel
  import opened FrameProofs
  import opened FrameRuns

  /** The two states differ in `prev` pointers only. */
  ghost predicate Twins(m: Pmm, k: Pmm)
  {
    && Chain(m) && Chain(k) && m.path == k.path && m.used == k.used && m.slots.Keys == k.slots.Keys
    && (forall s :: s in m.slots ==> k.slots[s] == m.slots[s].(prev := k.slots[s].prev))
    && forall s :: s in m.slots ==> m.slots[s].prev.Some? ==> m.slots[s].prev.value in m.slots
  }

  /** The list would be well formed if its `prev` pointers were put right. */
  ghost predicate Repairable(m: Pmm, lo: nat, hi: nat)
  {
    exists k :: Twins(m, k) && Good(k, lo, hi)
  }

  lemma InitialRepairable(lo: nat, hi: nat)
    requires lo < hi && WholeFrames(lo)
    ensures Repairable(Initial(lo, hi), lo, hi)
  {
    InitialGood(lo, hi);
    assert Twins(Initial(lo, hi), Initial(lo, hi));
  }

  lemma TwinNodes(m: Pmm, k: Pmm)
    requires Twins(m, k)
    ensures |m.path| == |k.path|
    ensures forall i :: 0 <= i < |m.path| ==> At(k, i) == At(m, i).(prev := At(k, i).prev)
  {
  }

  /** The block before, by the `prev` pointer, ends where the `i`-th begins. */
  ghost predicate PrevEndsHere(m: Pmm, i: nat, size: nat)
    requires Chain(m) && i < |m.path|
  {
    var c, p := m.path[i], At(m, i).prev;
    p.Some? ==> p.value != c && (At(m, i).size > size ==> p.value != c + 1)
                && m.slots[p.value].addr + m.slots[p.value].size == At(m, i).addr
  }

  /** The address that the allocation computes. */
  ghost function HandedOut(m: Pmm, i: nat, size: nat): nat
    requires Chain(m) && i < |m.path| && At(m, i).size >= size
  {
    AllocAt(m, i, size, false).slots[m.path[i]].addr
  }

  /** It is that of the block found exactly if the `prev` pointer still tells where that begins. */
  lemma HandedOutIff(m: Pmm, i: nat, size: nat)
    requires Chain(m) && i < |m.path| && At(m, i).size >= size > 0
    ensures HandedOut(m, i, size) == At(m, i).addr <==> PrevEndsHere(m, i, size)
  {
  }

  // ---------------------------------------------------------------------------------------------
  // Allocating

  ghost predicate TwinSlots(s: map<nat, Node>, t: map<nat, Node>)
  {
    s.Keys == t.Keys && forall x :: x in s ==> t[x] == s[x].(prev := t[x].prev)
  }

  /** The node that the `prev` pointer of slot `c` names is another one and ends where that of slot `c` begins. */
  ghost predicate EndsAt(slots: map<nat, Node>, c: nat, x: nat)
    requires c in slots
  {
    var p := slots[c].prev;
    p.Some? ==> p.value in slots && p.value != c && p.value != x
                && slots[p.value].addr + slots[p.value].size == slots[c].addr
  }

  predicate PrevIn(slots: map<nat, Node>, c: nat)
    requires c in slots
  {
    slots[c].prev.Some? ==> slots[c].prev.value in slots
  }

  lemma TakeTwins(s: map<nat, Node>, t: map<nat, Node>, c: nat, size: nat)
    requires TwinSlots(s, t) && c in s && EndsAt(s, c, c) && EndsAt(t, c, c)
    ensures TwinSlots(Take(s, c, size), Take(t, c, size)) && Take(s, c, size).Keys == s.Keys
    ensures forall x :: x in s ==> Take(s, c, size)[x].prev == s[x].prev
  {
  }

  lemma SplitTwins(s: map<nat, Node>, t: map<nat, Node>, c: nat, x: nat, size: nat)
    requires TwinSlots(s, t) && c in s && s[c].size > size && x != c && EndsAt(s, c, x) && EndsAt(t, c, x)
    requires s[c].next.Some? ==> s[c].next.value in s && s[c].next.value != c && s[c].next.value != x
    requires s[c].next.Some? ==> t[c].prev != s[c].next
    ensures var s', t' := Split(s, c, x, size, false), Split(t, c, x, size, true);
            && TwinSlots(s', t') && s'.Keys == s.Keys + {x} && EndsAt(s', c, c) && EndsAt(t', c, c)
            && PrevIn(s', c) && PrevIn(t', c)
            && s'[x].prev == Some(c) && forall y :: y in s && y != x ==> s'[y].prev == s[y].prev
  {
  }

  /** Then the allocation does to the list what it would do to the one put right. */
  lemma AllocTwins(m: Pmm, k: Pmm, lo: nat, hi: nat, i: nat, size: nat)
    requires Twins(m, k) && Good(k, lo, hi) && i < |m.path| && At(m, i).free && At(m, i).size >= size > 0
    requires WholeFrames(size) && !Collides(m, i, size) && PrevEndsHere(m, i, size)
    ensures At(k, i).size >= size && Good(AllocAt(k, i, size, true), lo, hi)
    ensures Twins(AllocAt(m, i, size, false), AllocAt(k, i, size, true))
  {
    TwinNodes(m, k);
    AllocKeeps(k, lo, hi, i, size, true);
    AllocSlots(m, k, lo, hi, i, size);
    hide Good;
    hide PrevEndsHere;
    hide AllocAt;
    AllocChain(m, AllocAt(m, i, size, false), AllocAt(k, i, size, true), i);
  }

  lemma AllocSlots(m: Pmm, k: Pmm, lo: nat, hi: nat, i: nat, size: nat)
    requires Twins(m, k) && Good(k, lo, hi) && i < |m.path| && At(m, i).size >= size > 0
    requires i < |k.path| && At(k, i).size >= size && !Collides(m, i, size) && PrevEndsHere(m, i, size)
    ensures var m', k' := AllocAt(m, i, size, false), AllocAt(k, i, size, true);
            && m'.path == k'.path && m'.used == k'.used && TwinSlots(m'.slots, k'.slots)
            && m.slots.Keys <= m'.slots.Keys
            && forall s :: s in m'.slots ==> m'.slots[s].prev == Some(m.path[i])
                                             || (s in m.slots && m'.slots[s].prev == m.slots[s].prev)
  {
    hide Good;
    hide Collides;
    hide PrevEndsHere;
    hide Take;
    hide Split;
    hide EndsAt;
    hide TwinSlots;
    SlotFacts(m, k, lo, hi, i, size);
    if At(m, i).size > size {
      PartTwins(m, k, i, size);
    } else {
      WholeTwins(m, k, i, size);
    }
  }

  lemma PartTwins(m: Pmm, k: Pmm, i: nat, size: nat)
    requires Chain(m) && Chain(k) && m.path == k.path && m.used == k.used && TwinSlots(m.slots, k.slots)
    requires i < |m.path| && m.path[i] in m.slots && m.path[i] in k.slots
    requires At(m, i).size > size && At(k, i).size > size
    requires EndsAt(m.slots, m.path[i], m.path[i] + 1) && EndsAt(k.slots, m.path[i], m.path[i] + 1)
    requires var n := At(m, i).next; n.Some? ==> n.value in m.slots && n.value != m.path[i] && n.value != m.path[i] + 1
    requires At(m, i).next.Some? ==> At(k, i).prev != At(m, i).next
    ensures var m', k' := AllocAt(m, i, size, false), AllocAt(k, i, size, true);
            && m'.path == k'.path && m'.used == k'.used && TwinSlots(m'.slots, k'.slots)
            && m.slots.Keys <= m'.slots.Keys
            && forall s :: s in m'.slots ==> m'.slots[s].prev == Some(m.path[i])
                                             || (s in m.slots && m'.slots[s].prev == m.slots[s].prev)
  {
    hide Chain;
    hide Take;
    hide Split;
    hide EndsAt;
    hide TwinSlots;
    hide AllocAt;
    var c := m.path[i];
    SplitTwins(m.slots, k.slots, c, c + 1, size);
    PartShape(m, i, size, false);
    PartShape(k, i, size, true);
    var s, t := Split(m.slots, c, c + 1, size, false), Split(k.slots, c, c + 1, size, true);
    TakeTwins(s, t, c, size);
  }

  lemma WholeTwins(m: Pmm, k: Pmm, i: nat, size: nat)
    requires Chain(m) && Chain(k) && m.path == k.path && m.used == k.used && TwinSlots(m.slots, k.slots)
    requires i < |m.path| && m.path[i] in m.slots && m.path[i] in k.slots && At(m, i).size == size == At(k, i).size
    requires EndsAt(m.slots, m.path[i], m.path[i]) && EndsAt(k.slots, m.path[i], m.path[i])
    ensures var m', k' := AllocAt(m, i, size, false), AllocAt(k, i, size, true);
            && m'.path == k'.path && m'.used == k'.used && TwinSlots(m'.slots, k'.slots)
            && m'.slots.Keys == m.slots.Keys
            && forall s :: s in m'.slots ==> s in m.slots && m'.slots[s].prev == m.slots[s].prev
  {
    hide Chain;
    hide Take;
    hide TwinSlots;
    hide AllocAt;
    assert PrevIn(m.slots, m.path[i]) && PrevIn(k.slots, m.path[i]);
    WholeShape(m, i, size, false);
    WholeShape(k, i, size, true);
    TakeTwins(m.slots, k.slots, m.path[i], size);
  }

  lemma PartShape(m: Pmm, i: nat, size: nat, repair: bool)
    requires Chain(m) && i < |m.path| && At(m, i).size > size
    requires PrevIn(Split(m.slots, m.path[i], m.path[i] + 1, size, repair), m.path[i])
    ensures var c := m.path[i];
            AllocAt(m, i, size, repair)
            == Pmm(Take(Split(m.slots, c, c + 1, size, repair), c, size),
                   m.path[..i + 1] + [c + 1] + m.path[i + 1..], m.used + size)
  {
    hide Take;
    hide Split;
  }

  lemma WholeShape(m: Pmm, i: nat, size: nat, repair: bool)
    requires Chain(m) && i < |m.path| && At(m, i).size == size
    requires PrevIn(m.slots, m.path[i])
    ensures AllocAt(m, i, size, repair) == Pmm(Take(m.slots, m.path[i], size), m.path, m.used + size)
  {
    hide Take;
    hide Split;
  }

  lemma SlotFacts(m: Pmm, k: Pmm, lo: nat, hi: nat, i: nat, size: nat)
    requires Twins(m, k) && Good(k, lo, hi) && i < |m.path| && At(m, i).size >= size > 0
    requires i < |k.path| && !Collides(m, i, size) && PrevEndsHere(m, i, size)
    ensures var c, s, t := m.path[i], m.slots, k.slots;
            && TwinSlots(s, t) && EndsAt(s, c, c) && EndsAt(t, c, c) && t[c].size == s[c].size
            && (s[c].size > size ==> EndsAt(s, c, c + 1) && EndsAt(t, c, c + 1))
            && (s[c].size > size && s[c].next.Some? ==>
                  s[c].next.value in s && s[c].next.value != c && s[c].next.value != c + 1 && t[c].prev != s[c].next)
  {
    OwnAddress(k, lo, hi, i);
    assert At(m, i).next == After(m.path, i) && At(k, i).next == After(k.path, i);
    assert i + 1 < |k.path| ==> k.path[i] < k.path[i + 1];
    assert i > 0 ==> k.path[i - 1] < k.path[i];
    assert i > 0 && i + 1 < |k.path| ==> k.path[i - 1] < k.path[i + 1];
    hide Tiles;
    hide Links;
    hide UsedBy;
    hide Merged;
    hide Ascending;
  }

  lemma AllocChain(m: Pmm, m': Pmm, k': Pmm, i: nat)
    requires Chain(m) && Chain(k') && m'.path == k'.path && m'.used == k'.used && TwinSlots(m'.slots, k'.slots)
    requires i < |m.path| && m.slots.Keys <= m'.slots.Keys
    requires forall j :: 0 <= j < |m'.path| ==> m'.path[j] in m'.slots
    requires forall s :: s in m'.slots ==> m'.slots[s].prev == Some(m.path[i])
                                           || (s in m.slots && m'.slots[s].prev == m.slots[s].prev)
    requires forall s :: s in m.slots ==> m.slots[s].prev.Some? ==> m.slots[s].prev.value in m.slots
    ensures Twins(m', k')
  {
    assert forall j :: 0 <= j < |m'.path| ==> At(k', j) == At(m', j).(prev := At(k', j).prev);
  }

  /** An allocation leaves a repairable list exactly if it hands out the block that it has found, in a free slot. */
  lemma AllocRepairableIff(m: Pmm, lo: nat, hi: nat, i: nat, size: nat)
    requires Repairable(m, lo, hi) && Chain(m) && i < |m.path|
    requires At(m, i).free && At(m, i).size >= size > 0 && WholeFrames(size)
    ensures Repairable(AllocAt(m, i, size, false), lo, hi) <==> PrevEndsHere(m, i, size) && !Collides(m, i, size)
  {
    hide Good;
    hide PrevEndsHere;
    hide Collides;
    hide AllocAt;
    var k :| Twins(m, k) && Good(k, lo, hi);
    if PrevEndsHere(m, i, size) && !Collides(m, i, size) {
      AllocTwins(m, k, lo, hi, i, size);
    }
    var m' := AllocAt(m, i, size, false);
    if Repairable(m', lo, hi) {
      var k' :| Twins(m', k') && Good(k', lo, hi);
      NotCollided(m, k', lo, hi, i, size);
      SameAddress(m, k, m', k', lo, hi, i, size);
      HandedOutIff(m, i, size);
    }
  }

  lemma NotCollided(m: Pmm, k': Pmm, lo: nat, hi: nat, i: nat, size: nat)
    requires Chain(m) && i < |m.path| && At(m, i).size >= size && Twins(AllocAt(m, i, size, false), k')
    ensures !Collides(m, i, size)
  {
    if Collides(m, i, size) {
      CollidedPath(m, i, size);
      assert false;
    }
  }

  lemma CollidedPath(m: Pmm, i: nat, size: nat)
    requires Chain(m) && i < |m.path| && At(m, i).size >= size && Collides(m, i, size)
    ensures !Chain(AllocAt(m, i, size, false))
  {
    assert At(m, i).next == After(m.path, i);
    var path := AllocAt(m, i, size, false).path;
    assert i + 2 < |path| && path[i + 1] == path[i + 2];
  }

  /** Where a block begins follows from those before it. */
  lemma SameAddress(m: Pmm, k: Pmm, m': Pmm, k': Pmm, lo: nat, hi: nat, i: nat, size: nat)
    requires Twins(m, k) && Good(k, lo, hi) && Twins(m', k') && Good(k', lo, hi) && i < |m.path| && size > 0
    requires At(m, i).size >= size && m' == AllocAt(m, i, size, false) && !Collides(m, i, size)
    ensures HandedOut(m, i, size) == At(m, i).addr
  {
    AllocBefore(m, k, i, size);
    TwinNodes(m, k);
    TwinNodes(m', k');
    hide AllocAt;
    hide Chain;
    if i > 0 {
      assert At(k, i - 1).addr + At(k, i - 1).size == Until(k, i - 1, hi);
      assert At(k', i - 1).addr + At(k', i - 1).size == Until(k', i - 1, hi);
    }
    hide Tiles;
  }

  /** An allocation does not touch the block before. */
  lemma AllocBefore(m: Pmm, k: Pmm, i: nat, size: nat)
    requires Twins(m, k) && Ascending(k.path) && i < |m.path| && At(m, i).size >= size
    ensures var m' := AllocAt(m, i, size, false);
            && i < |m'.path| && m'.path[i] == m.path[i] && m.path[i] in m'.slots
            && (i > 0 ==> m'.path[i - 1] == m.path[i - 1] && m.path[i - 1] in m'.slots
                          && m'.slots[m.path[i - 1]] == m.slots[m.path[i - 1]])
            && (i == 0 ==> m'.path[0] == m.path[0])
  {
    assert i > 0 ==> k.path[i - 1] < k.path[i];
    hide Ascending;
  }

  // ---------------------------------------------------------------------------------------------
  // Releasing

  lemma MergeTwins(m: Pmm, k: Pmm, i: nat)
    requires Twins(m, k) && i + 1 < |m.path|
    ensures Twins(MergeAt(m, i), MergeAt(k, i))
  {
    MergeChain(m, i);
    MergeChain(k, i);
    JoinedSlots(m, i);
    JoinedSlots(k, i);
    TwinNodes(m, k);
    MergedPaths(m, k, i);
    var c, m', k' := m.path[i], MergeAt(m, i), MergeAt(k, i);
    hide MergeAt;
    hide Chain;
    forall x | x in m'.slots
      ensures k'.slots[x] == m'.slots[x].(prev := k'.slots[x].prev)
      ensures m'.slots[x].prev.Some? ==> m'.slots[x].prev.value in m'.slots
    {
      assert k.slots[x] == m.slots[x].(prev := k.slots[x].prev);
    }
  }

  lemma MergeChain(m: Pmm, i: nat)
    requires Chain(m) && i + 1 < |m.path|
    ensures Chain(MergeAt(m, i))
  {
    MergeJoins(m, i);
    hide MergeAt;
    JoinedChain(m, MergeAt(m, i), i);
  }

  lemma MergedPaths(m: Pmm, k: Pmm, i: nat)
    requires Nodes(m) && Nodes(k) && m.path == k.path && m.used == k.used && i + 1 < |m.path|
    ensures MergeAt(m, i).path == MergeAt(k, i).path && MergeAt(m, i).used == MergeAt(k, i).used
  {
  }

  lemma TwinPair(m: Pmm, k: Pmm, i: nat)
    requires Twins(m, k) && i < |m.path|
    ensures Nodes(k) && i < |k.path| && (BothFree(k, i) <==> BothFree(m, i)) && (BothFree(m, i) ==> i + 1 < |m.path|)
    ensures BothFree(m, i) ==> (At(k, i + 1).addr == At(k, i).addr + At(k, i).size <==>
                                At(m, i + 1).addr == At(m, i).addr + At(m, i).size)
  {
    TwinNodes(m, k);
  }

  lemma {:induction false} PassTwins(m: Pmm, k: Pmm, i: nat)
    requires Twins(m, k) && i <= |m.path|
    ensures Twins(MergePass(m, i), MergePass(k, i))
    decreases |m.path| - i
  {
    hide MergeAt;
    hide BothFree;
    hide Chain;
    hide Twins;
    TwinParts(m, k);
    if i < |m.path| {
      TwinPair(m, k, i);
      if BothFree(m, i) && At(m, i + 1).addr == At(m, i).addr + At(m, i).size {
        MergeTwins(m, k, i);
        PassTwins(MergeAt(m, i), MergeAt(k, i), i + 1);
      } else {
        PassTwins(m, k, i + 1);
      }
    }
  }

  lemma {:induction false} MergeAllTwins(m: Pmm, k: Pmm)
    requires Twins(m, k)
    ensures Twins(MergeAll(m), MergeAll(k))
    decreases |m.path|
  {
    PassTwins(m, k, 0);
    var m1, k1 := MergePass(m, 0), MergePass(k, 0);
    TwinNodes(m1, k1);
    if |m1.path| < |m.path| {
      MergeAllTwins(m1, k1);
    }
  }

  lemma FreeTwins(m: Pmm, k: Pmm, i: nat)
    requires Twins(m, k) && i < |m.path|
    ensures Nodes(k) && i < |k.path| && Twins(FreeAt(m, i), FreeAt(k, i))
  {
    TwinNodes(m, k);
    assert Twins(Release(m, i), Release(k, i));
    MergeAllTwins(Release(m, i), Release(k, i));
  }

  lemma {:induction false} FindTwins(m: Pmm, k: Pmm, i: nat, addr: nat)
    requires Twins(m, k) && i <= |m.path|
    ensures Nodes(k) && |k.path| == |m.path| && Find(k, i, addr) == Find(m, i, addr)
    decreases |m.path| - i
  {
    TwinNodes(m, k);
    if i < |m.path| {
      FindTwins(m, k, i + 1, addr);
    }
  }

  // ---------------------------------------------------------------------------------------------
  // Runs

  /** The call hands out the block that it has found, in a free slot, or returns what is in use. */
  ghost predicate Trusty(m: Pmm, op: Op)
    requires Chain(m)
  {
    match op
    case AllocOp(n) =>
      var i := FirstFit(m, 0, Bytes(n));
      n > 0 && i < |m.path| ==> Bytes(n) > 0 && PrevEndsHere(m, i, Bytes(n)) && !Collides(m, i, Bytes(n))
    case FreeOp(ptr) => Owned(m, ptr)
  }

  lemma StepRepairable(m: Pmm, lo: nat, hi: nat, op: Op)
    requires Repairable(m, lo, hi) && Chain(m) && Trusty(m, op)
    ensures Repairable(Step(m, op, false), lo, hi) && Chain(Step(m, op, false))
  {
    hide Good;
    hide PrevEndsHere;
    hide Collides;
    hide AllocAt;
    hide FreeAt;
    hide Chain;
    var k :| Twins(m, k) && Good(k, lo, hi);
    TwinParts(m, k);
    match op
    case AllocOp(n) =>
      WholeBlocks(n);
      var i := FirstFit(m, 0, Bytes(n));
      if n > 0 && i < |m.path| {
        AllocTwins(m, k, lo, hi, i, Bytes(n));
        TwinParts(AllocAt(m, i, Bytes(n), false), AllocAt(k, i, Bytes(n), true));
      }
    case FreeOp(ptr) =>
      var i := Find(m, 0, ptr);
      FindTwins(m, k, 0, ptr);
      FreeTwins(m, k, i);
      GoodParts(k, lo, hi);
      FreeKeeps(k, lo, hi, i);
      assert Good(FreeAt(k, i), lo, hi) by { PartsGood(FreeAt(k, i), lo, hi); }
      TwinParts(FreeAt(m, i), FreeAt(k, i));
  }

  lemma TwinParts(m: Pmm, k: Pmm)
    requires Twins(m, k)
    ensures Chain(m) && Chain(k) && Nodes(m) && Nodes(k) && m.path == k.path
    ensures forall i :: 0 <= i < |m.path| ==> At(k, i).free == At(m, i).free
  {
  }

  lemma GoodParts(k: Pmm, lo: nat, hi: nat)
    requires Good(k, lo, hi)
    ensures Kept(k, lo, hi) && Ascending(k.path)
  {
  }

  lemma PartsGood(k: Pmm, lo: nat, hi: nat)
    requires Kept(k, lo, hi) && Ascending(k.path)
    ensures Good(k, lo, hi)
  {
  }

  ghost predicate TrustyRun(m: Pmm, ops: seq<Op>)
    decreases |ops|
  {
    ops == [] || (Chain(m) && Trusty(m, ops[0]) && TrustyRun(Step(m, ops[0], false), ops[1..]))
  }

  function RunOn(m: Pmm, ops: seq<Op>): Pmm
    requires TrustyRun(m, ops)
    decreases |ops|
  {
    if ops == [] then m else RunOn(Step(m, ops[0], false), ops[1..])
  }

  /**
   As long as every allocation of a run as coded hands out the block that it has found, in a free slot, no two live
   blocks overlap, whatever becomes of the `prev` pointers.
   */
  lemma {:induction false} TrustyRunKeeps(m: Pmm, lo: nat, hi: nat, ops: seq<Op>)
    requires Repairable(m, lo, hi) && TrustyRun(m, ops)
    ensures Repairable(RunOn(m, ops), lo, hi) && Nodes(RunOn(m, ops))
    ensures forall a, b :: a in Live(RunOn(m, ops)) && b in Live(RunOn(m, ops)) && a != b ==>
              a.0 + a.1 <= b.0 || b.0 + b.1 <= a.0
    decreases |ops|
  {
    if ops == [] {
      RepairableDisjoint(m, lo, hi);
    } else {
      StepRepairable(m, lo, hi, ops[0]);
      hide Repairable;
      hide Step;
      hide Trusty;
      hide Live;
      TrustyRunKeeps(Step(m, ops[0], false), lo, hi, ops[1..]);
    }
  }

  lemma RepairableDisjoint(m: Pmm, lo: nat, hi: nat)
    requires Repairable(m, lo, hi)
    ensures Nodes(m)
    ensures forall a, b :: a in Live(m) && b in Live(m) && a != b ==> a.0 + a.1 <= b.0 || b.0 + b.1 <= a.0
  {
    var k :| Twins(m, k) && Good(k, lo, hi);
    TwinLive(m, k);
    hide Live;
    forall a, b | a in Live(m) && b in Live(m) && a != b
      ensures a.0 + a.1 <= b.0 || b.0 + b.1 <= a.0
    {
      LiveDisjoint(k, lo, hi, a, b);
    }
  }

  lemma TwinLive(m: Pmm, k: Pmm)
    requires Twins(m, k)
    ensures Live(m) == Live(k)
  {
    TwinNodes(m, k);
    forall b | b in Live(m)
      ensures b in Live(k)
    {
      var i :| 0 <= i < |m.path| && !At(m, i).free && b == (At(m, i).addr, At(m, i).size);
      assert !At(k, i).free;
    }
    forall b | b in Live(k)
      ensures b in Live(m)
    {
      var i :| 0 <= i < |k.path| && !At(k, i).free && b == (At(k, i).addr, At(k, i).size);
      assert !At(m, i).free;
    }
  }

  // ---------------------------------------------------------------------------------------------
  // Memory in use that is handed out

  /** The memory handed out overlaps no live block. */
  ghost predicate Untaken(m: Pmm, addr: nat, size: nat)
    requires Nodes(m)
  {
    forall b :: b in Live(m) ==> b.0 + b.1 <= addr || addr + size <= b.0
  }

  /** The block that holds this address. */
  lemma {:induction false} BlockOf(k: Pmm, lo: nat, hi: nat, i: nat, a: nat) returns (j: nat)
    requires Nodes(k) && Tiles(k, lo, hi) && i < |k.path| && lo <= a < At(k, i).addr
    ensures j < i && At(k, j).addr <= a < At(k, j + 1).addr == At(k, j).addr + At(k, j).size
    decreases i
  {
    assert At(k, i - 1).addr + At(k, i - 1).size == Until(k, i - 1, hi);
    if At(k, i - 1).addr <= a {
      j := i - 1;
    } else {
      j := BlockOf(k, lo, hi, i - 1, a);
    }
  }

  /**
   What first fit hands out, if it does not lie behind the block found, overlaps no live block exactly if it is that
   block: memory before it is in use, or too small and followed by memory in use.
   */
  lemma UntakenIff(m: Pmm, lo: nat, hi: nat, size: nat)
    requires Repairable(m, lo, hi) && Chain(m) && size > 0 && FirstFit(m, 0, size) < |m.path|
    requires lo <= HandedOut(m, FirstFit(m, 0, size), size) <= At(m, FirstFit(m, 0, size)).addr
    ensures var i := FirstFit(m, 0, size);
            Untaken(m, HandedOut(m, i, size), size) <==> PrevEndsHere(m, i, size)
  {
    hide PrevEndsHere;
    hide HandedOut;
    hide Live;
    hide Untaken;
    var i := FirstFit(m, 0, size);
    var a := HandedOut(m, i, size);
    HandedOutIff(m, i, size);
    var k :| Twins(m, k) && Good(k, lo, hi);
    TwinNodes(m, k);
    TwinLive(m, k);
    if a == At(m, i).addr {
      FreeBlockIsFresh(k, lo, hi, i, size);
      assert Untaken(k, a, size) by { FreshUntaken(k, lo, hi, a, size); }
    } else {
      var j := BlockOf(k, lo, hi, i, a);
      assert !BothFree(k, j);
      assert !(At(m, j).free && At(m, j).size >= size);
      var l := if At(k, j).free then j + 1 else j;
      LiveHit(k, l, a, size);
    }
    SameUntaken(m, k, a, size);
  }

  lemma FreshUntaken(k: Pmm, lo: nat, hi: nat, a: nat, size: nat)
    requires Nodes(k) && FreshBlock(k, lo, hi, a, size)
    ensures Untaken(k, a, size)
  {
  }

  lemma SameUntaken(m: Pmm, k: Pmm, a: nat, size: nat)
    requires Nodes(m) && Nodes(k) && Live(m) == Live(k)
    ensures Untaken(m, a, size) <==> Untaken(k, a, size)
  {
  }

  lemma LiveHit(k: Pmm, l: nat, a: nat, size: nat)
    requires Nodes(k) && l < |k.path| && !At(k, l).free && At(k, l).addr + At(k, l).size > a && a + size > At(k, l).addr
    ensures !Untaken(k, a, size)
  {
    assert (At(k, l).addr, At(k, l).size) in Live(k);
  }
}
