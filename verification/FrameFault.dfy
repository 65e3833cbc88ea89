/** A run of single-frame calls after which two blocks in use have the same address. */
module FrameFault {
  import opened Options
  import opened FrameModel
  import FrameProofs

  const F: nat := FRAME_SIZE

  function Used(addr: nat, next: nat, prev: Option<nat>): Node { Node(addr, F, false, Some(next), prev) }

  function Rest(addr: nat, hi: nat, prev: nat): Node
    requires addr <= hi
  {
    Node(addr, hi - addr, true, None, Some(prev))
  }

  /** The states of the run from the third allocation on. */
  function State(lo: nat, hi: nat, i: nat): Pmm
    requires lo + 4 * F < hi
  {
    var n0, n1, n2 := Used(lo, 1, None), Used(lo + F, 2, Some(0)), Used(lo + 2 * F, 3, Some(1));
    var rest := Rest(lo + 3 * F, hi, 2);
    match i
    case 0 => Initial(lo, hi)
    case 1 => Pmm(map[0 := n0, 1 := Rest(lo + F, hi, 0)], [0, 1], F)
    case 2 => Pmm(map[0 := n0, 1 := n1, 2 := Rest(lo + 2 * F, hi, 1)], [0, 1, 2], 2 * F)
    case 3 => Pmm(map[0 := n0, 1 := n1, 2 := n2, 3 := rest], [0, 1, 2, 3], 3 * F)
    case 4 => Pmm(map[0 := n0.(free := true), 1 := n1, 2 := n2, 3 := rest], [0, 1, 2, 3], 2 * F)
    case 5 =>
      var joined := Node(lo, 2 * F, true, Some(2), None);
      Pmm(map[0 := joined, 1 := n1.(free := true), 2 := n2.(prev := Some(0)), 3 := rest], [0, 2, 3], F)
    case 6 => Pmm(map[0 := n0, 1 := n1.(free := true), 2 := n2.(prev := Some(0)), 3 := rest], [0, 1, 2, 3], 2 * F)
    case 7 => Pmm(map[0 := n0, 1 := n1, 2 := n2.(prev := Some(0)), 3 := rest], [0, 1, 2, 3], 3 * F)
    case 8 => Pmm(map[0 := n0, 1 := n1, 2 := Rest(lo + 2 * F, hi, 0), 3 := rest], [0, 1, 2], 2 * F)
    case _ => Pmm(map[0 := n0, 1 := n1, 2 := n2.(addr := lo + F, prev := Some(0)), 3 := rest], [0, 1, 2, 3], 3 * F)
  }

  function Call(lo: nat, i: nat): Op
  {
    if i == 3 then FreeOp(lo) else if i == 4 then FreeOp(lo + F) else if i == 7 then FreeOp(lo + 2 * F) else AllocOp(1)
  }

  lemma EarlyChain(lo: nat, hi: nat, i: nat)
    requires lo + 4 * F < hi && i <= 4
    ensures Chain(State(lo, hi, i))
  {
  }

  lemma LateChain(lo: nat, hi: nat, i: nat)
    requires lo + 4 * F < hi && 4 < i <= 9
    ensures Chain(State(lo, hi, i))
  {
  }

  lemma StateChain(lo: nat, hi: nat, i: nat)
    requires lo + 4 * F < hi && i <= 9
    ensures Chain(State(lo, hi, i))
  {
    hide *;
    if i <= 4 {
      EarlyChain(lo, hi, i);
    } else {
      LateChain(lo, hi, i);
    }
  }

  /** The block that an allocation takes is the `k`-th: none of those before it will do. */
  lemma {:induction false} FirstFitIs(m: Pmm, i: nat, k: nat, size: nat)
    requires Nodes(m) && i <= k < |m.path| && At(m, k).free && At(m, k).size >= size
    requires forall j :: i <= j < k ==> !At(m, j).free
    ensures FirstFit(m, i, size) == k
    decreases k - i
  {
    if i < k {
      FirstFitIs(m, i + 1, k, size);
    }
  }

  /** A request for one frame takes from the first free block. */
  lemma TakesFirstFree(m: Pmm, k: nat)
    requires Chain(m) && k < |m.path| && At(m, k).free && At(m, k).size >= F
    requires forall j :: 0 <= j < k ==> !At(m, j).free
    ensures Step(m, AllocOp(1), false) == AllocAt(m, k, F, false)
  {
    FirstFitIs(m, 0, k, F);
  }

  lemma FirstTaken(lo: nat, hi: nat)
    requires lo + 4 * F < hi
    ensures Chain(State(lo, hi, 0)) && Step(State(lo, hi, 0), AllocOp(1), false) == State(lo, hi, 1)
  {
    hide Step;
    hide Chain;
    StateChain(lo, hi, 0);
    TakesFirstFree(State(lo, hi, 0), 0);
    var m' := AllocAt(State(lo, hi, 0), 0, F, false);
    assert m'.path == State(lo, hi, 1).path;
    assert m'.slots == State(lo, hi, 1).slots;
  }

  lemma SecondTaken(lo: nat, hi: nat)
    requires lo + 4 * F < hi
    ensures Chain(State(lo, hi, 1)) && Step(State(lo, hi, 1), AllocOp(1), false) == State(lo, hi, 2)
  {
    hide Step;
    hide Chain;
    StateChain(lo, hi, 1);
    TakesFirstFree(State(lo, hi, 1), 1);
    var m' := AllocAt(State(lo, hi, 1), 1, F, false);
    assert m'.path == State(lo, hi, 2).path;
    assert m'.slots == State(lo, hi, 2).slots;
  }

  lemma ThirdTaken(lo: nat, hi: nat)
    requires lo + 4 * F < hi
    ensures Chain(State(lo, hi, 2)) && Step(State(lo, hi, 2), AllocOp(1), false) == State(lo, hi, 3)
  {
    hide Step;
    hide Chain;
    StateChain(lo, hi, 2);
    TakesFirstFree(State(lo, hi, 2), 2);
    var m' := AllocAt(State(lo, hi, 2), 2, F, false);
    assert m'.path == State(lo, hi, 3).path;
    assert m'.slots == State(lo, hi, 3).slots;
  }

  lemma TakenAgainSlots(lo: nat, hi: nat)
    requires lo + 4 * F < hi && Chain(State(lo, hi, 5))
    ensures At(State(lo, hi, 5), 0).size == 2 * F
    ensures Take(Split(State(lo, hi, 5).slots, 0, 1, F, false), 0, F) == State(lo, hi, 6).slots
    ensures State(lo, hi, 5).path[..1] + [1] + State(lo, hi, 5).path[1..] == State(lo, hi, 6).path
    ensures State(lo, hi, 5).path[0] == 0 && State(lo, hi, 5).used + F == State(lo, hi, 6).used
  {
    hide Chain;
  }

  lemma FirstTakenAgain(lo: nat, hi: nat)
    requires lo + 4 * F < hi
    ensures Chain(State(lo, hi, 5)) && Step(State(lo, hi, 5), AllocOp(1), false) == State(lo, hi, 6)
  {
    hide Step;
    hide Chain;
    StateChain(lo, hi, 5);
    TakesFirstFree(State(lo, hi, 5), 0);
    TakenAgainSlots(lo, hi);
    var m' := AllocAt(State(lo, hi, 5), 0, F, false);
    hide State;
    hide Split;
  }

  lemma SecondTakenAgain(lo: nat, hi: nat)
    requires lo + 4 * F < hi
    ensures Chain(State(lo, hi, 6)) && Step(State(lo, hi, 6), AllocOp(1), false) == State(lo, hi, 7)
  {
    hide Step;
    hide Chain;
    hide Split;
    StateChain(lo, hi, 6);
    TakesFirstFree(State(lo, hi, 6), 1);
    var m' := AllocAt(State(lo, hi, 6), 1, F, false);
    assert m'.path == State(lo, hi, 7).path;
    assert m'.slots == State(lo, hi, 7).slots;
  }

  lemma ThirdTakenAgain(lo: nat, hi: nat)
    requires lo + 4 * F < hi
    ensures Chain(State(lo, hi, 8)) && Step(State(lo, hi, 8), AllocOp(1), false) == State(lo, hi, 9)
  {
    hide Step;
    hide Chain;
    StateChain(lo, hi, 8);
    TakesFirstFree(State(lo, hi, 8), 2);
    var m' := AllocAt(State(lo, hi, 8), 2, F, false);
    assert m'.path == State(lo, hi, 9).path;
    assert m'.slots == State(lo, hi, 9).slots;
  }

  lemma EarlyAlloc(lo: nat, hi: nat, i: nat)
    requires lo + 4 * F < hi && i <= 2
    ensures Chain(State(lo, hi, i)) && Step(State(lo, hi, i), AllocOp(1), false) == State(lo, hi, i + 1)
  {
    hide *;
    if i == 0 {
      FirstTaken(lo, hi);
    } else if i == 1 {
      SecondTaken(lo, hi);
    } else {
      ThirdTaken(lo, hi);
    }
  }

  lemma LateAlloc(lo: nat, hi: nat, i: nat)
    requires lo + 4 * F < hi && (i == 5 || i == 6 || i == 8)
    ensures Chain(State(lo, hi, i)) && Step(State(lo, hi, i), AllocOp(1), false) == State(lo, hi, i + 1)
  {
    hide *;
    if i == 5 {
      FirstTakenAgain(lo, hi);
    } else if i == 6 {
      SecondTakenAgain(lo, hi);
    } else {
      ThirdTakenAgain(lo, hi);
    }
  }

  lemma {:induction false} NothingToMerge(m: Pmm, i: nat)
    requires Nodes(m) && i <= |m.path| && forall j :: i <= j < |m.path| ==> !BothFree(m, j)
    ensures MergePass(m, i) == m
    decreases |m.path| - i
  {
    if i < |m.path| {
      NothingToMerge(m, i + 1);
    }
  }

  /** Only the `k`-th block has a free neighbour behind it, and nothing is left to merge after that. */
  lemma {:induction false} MergeOnce(m: Pmm, i: nat, k: nat)
    requires Nodes(m) && i <= k && k + 1 < |m.path| && BothFree(m, k)
    requires At(m, k + 1).addr == At(m, k).addr + At(m, k).size
    requires forall j :: i <= j < k ==> !BothFree(m, j)
    requires forall j :: 0 <= j < |MergeAt(m, k).path| ==> !BothFree(MergeAt(m, k), j)
    ensures MergePass(m, i) == MergeAt(m, k)
    decreases k - i
  {
    hide MergeAt;
    if i < k {
      MergeOnce(m, i + 1, k);
    } else {
      NothingToMerge(MergeAt(m, k), k + 1);
    }
  }

  lemma FindAt(lo: nat, hi: nat, i: nat, k: nat)
    requires lo + 4 * F < hi && ((i == 3 && k == 0) || (i == 4 && k == 1) || (i == 7 && k == 2))
    ensures Chain(State(lo, hi, i)) && Find(State(lo, hi, i), 0, Call(lo, i).ptr) == k
    ensures k < |State(lo, hi, i).path| && !At(State(lo, hi, i), k).free
  {
    var m, ptr := State(lo, hi, i), Call(lo, i).ptr;
    StateChain(lo, hi, i);
    assert Find(m, k, ptr) == k;
    assert k == 2 ==> Find(m, 1, ptr) == Find(m, 2, ptr);
    assert k >= 1 ==> Find(m, 0, ptr) == Find(m, 1, ptr);
  }

  /** After its release nothing is left to merge with the first block. */
  lemma FirstReleased(lo: nat, hi: nat)
    requires lo + 4 * F < hi
    ensures Chain(State(lo, hi, 3)) && Release(State(lo, hi, 3), 0) == State(lo, hi, 4)
  {
    StateChain(lo, hi, 3);
    assert Release(State(lo, hi, 3), 0).slots == State(lo, hi, 4).slots;
  }

  /** The other released blocks have one free neighbour each. */
  lemma NeighbourReleased(lo: nat, hi: nat, i: nat, k: nat, j: nat)
    requires lo + 4 * F < hi && ((i == 4 && k == 1 && j == 0) || (i == 7 && k == 2 && j == 2))
    ensures Chain(State(lo, hi, i)) && Nodes(State(lo, hi, i + 1))
    ensures var r := Release(State(lo, hi, i), k);
            && MergeAt(r, j) == State(lo, hi, i + 1) && BothFree(r, j)
            && At(r, j + 1).addr == At(r, j).addr + At(r, j).size
            && forall j' :: 0 <= j' < j ==> !BothFree(r, j')
  {
    StateChain(lo, hi, i);
    StateChain(lo, hi, i + 1);
    hide Chain;
    var r, m' := Release(State(lo, hi, i), k), State(lo, hi, i + 1);
    assert MergeAt(r, j).path == m'.path;
    assert MergeAt(r, j).slots == m'.slots;
  }

  lemma NoFreeNeighbours(lo: nat, hi: nat, i: nat)
    requires lo + 4 * F < hi && (i == 4 || i == 5 || i == 8)
    ensures Nodes(State(lo, hi, i)) && MergePass(State(lo, hi, i), 0) == State(lo, hi, i)
    ensures forall j :: 0 <= j < |State(lo, hi, i).path| ==> !BothFree(State(lo, hi, i), j)
  {
    StateChain(lo, hi, i);
    NothingToMerge(State(lo, hi, i), 0);
  }

  lemma FreeStep(lo: nat, hi: nat, i: nat, k: nat)
    requires lo + 4 * F < hi && ((i == 3 && k == 0) || (i == 4 && k == 1) || (i == 7 && k == 2))
    ensures Chain(State(lo, hi, i)) && Owned(State(lo, hi, i), Call(lo, i).ptr)
    ensures Step(State(lo, hi, i), Call(lo, i), false) == State(lo, hi, i + 1)
  {
    hide State;
    hide Find;
    hide MergeAt;
    hide Release;
    FindAt(lo, hi, i, k);
    NoFreeNeighbours(lo, hi, i + 1);
    assert Call(lo, i).FreeOp?;
    var r, m' := Release(State(lo, hi, i), k), State(lo, hi, i + 1);
    assert MergeAll(m') == m';
    if i == 3 {
      FirstReleased(lo, hi);
    } else {
      var j := if i == 4 then 0 else 2;
      NeighbourReleased(lo, hi, i, k, j);
      MergeOnce(r, 0, j);
      assert MergeAll(r) == MergeAll(m');
    }
  }

  /** Three single frames are allocated, the first two freed and allocated again, then the third freed and
      allocated again: the last two allocations hand out the same frame. */
  lemma SameFrameTwice(lo: nat, hi: nat) returns (run: seq<Pmm>)
    requires lo + 4 * F < hi
    ensures |run| == 10 && run[0] == Initial(lo, hi)
    ensures forall i :: 0 <= i < 9 ==> Chain(run[i]) && (Call(lo, i).FreeOp? ==> Owned(run[i], Call(lo, i).ptr))
    ensures forall i :: 0 <= i < 9 ==> run[i + 1] == Step(run[i], Call(lo, i), false)
    ensures Chain(run[9]) && |run[9].path| == 4
    ensures !At(run[9], 1).free && !At(run[9], 2).free && At(run[9], 1).addr == At(run[9], 2).addr
  {
    run := seq(10, i requires 0 <= i < 10 => State(lo, hi, i));
    forall i | 0 <= i < 9
      ensures Chain(run[i]) && (Call(lo, i).FreeOp? ==> Owned(run[i], Call(lo, i).ptr))
      ensures run[i + 1] == Step(run[i], Call(lo, i), false)
    {
      hide State;
      hide Step;
      hide Owned;
      if i == 3 || i == 4 || i == 7 {
        FreeStep(lo, hi, i, if i == 3 then 0 else if i == 4 then 1 else 2);
      } else if i <= 2 {
        EarlyAlloc(lo, hi, i);
      } else {
        LateAlloc(lo, hi, i);
      }
    }
    StateChain(lo, hi, 9);
  }

  /** Two frames, then one, are allocated, and the two freed: now a single frame's rest collides. */
  lemma CollisionReachable(lo: nat, hi: nat)
    requires lo + 4 * F < hi
    ensures var m0 := Initial(lo, hi); Chain(m0) && At(m0, 0).size >= 2 * F
    ensures var m1 := AllocAt(Initial(lo, hi), 0, 2 * F, false); Chain(m1) && |m1.path| == 2 && At(m1, 1).size >= F
    ensures var m2 := AllocAt(AllocAt(Initial(lo, hi), 0, 2 * F, false), 1, F, false);
            Chain(m2) && Nodes(FreeAt(m2, 0)) && FrameProofs.Collides(FreeAt(m2, 0), 0, F)
  {
    var m0 := Initial(lo, hi);
    var m1 := AllocAt(m0, 0, 2 * F, false);
    var first := Node(lo, 2 * F, false, Some(1), None);
    assert m1.path == [0, 1];
    assert m1.slots == map[0 := first, 1 := Rest(lo + 2 * F, hi, 0)];
    hide AllocAt;
    CollisionAfterFree(lo, hi, m1);
  }

  lemma CollisionAfterFree(lo: nat, hi: nat, m1: Pmm)
    requires lo + 4 * F < hi && m1.path == [0, 1]
    requires m1.slots == map[0 := Node(lo, 2 * F, false, Some(1), None), 1 := Rest(lo + 2 * F, hi, 0)]
    ensures Chain(m1) && At(m1, 1).size >= F
    ensures var m2 := AllocAt(m1, 1, F, false);
            Chain(m2) && Nodes(FreeAt(m2, 0)) && FrameProofs.Collides(FreeAt(m2, 0), 0, F)
  {
    var m2 := AllocAt(m1, 1, F, false);
    assert m2.path == [0, 1, 2];
    var first := Node(lo, 2 * F, false, Some(1), None);
    assert m2.slots == map[0 := first, 1 := Used(lo + 2 * F, 2, Some(0)), 2 := Rest(lo + 3 * F, hi, 1)];
    assert Chain(m2);
    hide AllocAt;
    var m3 := Release(m2, 0);
    assert forall j :: 0 <= j < |m3.path| ==> !BothFree(m3, j);
    NothingToMerge(m3, 0);
  }
}
