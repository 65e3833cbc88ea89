/**
 Requests for any number of frames, in the form in which the node of a rest gets a slot of its own and the node
 behind it learns of it. The code's slot behind may be taken, as `CollisionReachable` shows.
 */
module FrameFresh {
  import opened FrameModel
  import opened FrameProofs
  import opened FrameRuns

  /** A request comes with the unused slot that a new node would get. */
  datatype FreshOp = Request(numBlocks: nat, slot: nat) | Return(ptr: nat)

  ghost predicate Enabled(m: Pmm, op: FreshOp)
    requires Nodes(m)
  {
    match op
    case Request(n, slot) => slot !in m.slots
    case Return(ptr) => Owned(m, ptr)
  }

  function FreshStep(m: Pmm, op: FreshOp): Pmm
    requires Chain(m) && Enabled(m, op)
  {
    match op
    case Request(n, slot) =>
      var k := FirstFit(m, 0, n * FRAME_SIZE);
      if n == 0 || k == |m.path| then m else AllocInto(m, k, slot, n * FRAME_SIZE, true)
    case Return(ptr) => FreeAt(m, Find(m, 0, ptr))
  }

  /**
   What one call does: a request hands out the given number of whole frames apart from all live blocks, or nothing
   if no free block is large enough; a return takes exactly its block out of use.
   */
  ghost predicate FreshResult(m: Pmm, lo: nat, hi: nat, op: FreshOp, m': Pmm)
    requires Nodes(m) && Nodes(m')
  {
    match op
    case Request(n, slot) =>
      if n == 0 || forall j :: 0 <= j < |m.path| ==> !(At(m, j).free && At(m, j).size >= n * FRAME_SIZE) then m' == m
      else exists addr :: FreshBlock(m, lo, hi, addr, n * FRAME_SIZE) && m'.used == m.used + n * FRAME_SIZE
                          && Live(m') == Live(m) + {(addr, n * FRAME_SIZE)}
    case Return(ptr) =>
      exists size :: (ptr, size) in Live(m) && m'.used == m.used - size && Live(m') == Live(m) - {(ptr, size)}
  }

  /** Every call keeps the list well formed and does exactly what it is for. */
  lemma FreshStepKeeps(m: Pmm, lo: nat, hi: nat, op: FreshOp)
    requires Kept(m, lo, hi) && Enabled(m, op)
    ensures Kept(FreshStep(m, op), lo, hi) && FreshResult(m, lo, hi, op, FreshStep(m, op))
  {
    hide Tiles;
    hide Links;
    hide Merged;
    hide AllocInto;
    hide FreeAt;
    hide FreshBlock;
    hide UsedBy;
    hide Live;
    match op
    case Request(n, slot) =>
      WholeBlocks(n);
      var k := FirstFit(m, 0, n * FRAME_SIZE);
      if n > 0 && k < |m.path| {
        AllocResult(m, lo, hi, k, slot, n * FRAME_SIZE, true);
      }
    case Return(ptr) =>
      var k := Find(m, 0, ptr);
      FreeKeeps(m, lo, hi, k);
      UsedIsLive(m, k);
  }

  lemma UsedIsLive(m: Pmm, k: nat)
    requires Nodes(m) && k < |m.path| && !At(m, k).free
    ensures (At(m, k).addr, At(m, k).size) in Live(m)
  {
  }

  ghost predicate FreshRun(m: Pmm, ops: seq<FreshOp>)
    decreases |ops|
  {
    ops == [] || (Chain(m) && Enabled(m, ops[0]) && FreshRun(FreshStep(m, ops[0]), ops[1..]))
  }

  function RunFresh(m: Pmm, ops: seq<FreshOp>): Pmm
    requires FreshRun(m, ops)
    decreases |ops|
  {
    if ops == [] then m else RunFresh(FreshStep(m, ops[0]), ops[1..])
  }

  /**
   Every run of requests for any number of frames and returns of what is in use keeps the list well formed, and no
   two live blocks ever overlap.
   */
  lemma {:induction false} FreshRunKeeps(m: Pmm, lo: nat, hi: nat, ops: seq<FreshOp>)
    requires Kept(m, lo, hi) && FreshRun(m, ops)
    ensures Kept(RunFresh(m, ops), lo, hi)
    ensures forall a, b :: a in Live(RunFresh(m, ops)) && b in Live(RunFresh(m, ops)) && a != b ==>
              a.0 + a.1 <= b.0 || b.0 + b.1 <= a.0
    decreases |ops|
  {
    if ops != [] {
      FreshStepKeeps(m, lo, hi, ops[0]);
      hide Kept;
      hide FreshStep;
      hide Live;
      FreshRunKeeps(FreshStep(m, ops[0]), lo, hi, ops[1..]);
    } else {
      forall a, b | a in Live(m) && b in Live(m) && a != b
        ensures a.0 + a.1 <= b.0 || b.0 + b.1 <= a.0
      {
        LiveDisjoint(m, lo, hi, a, b);
      }
    }
  }
}
