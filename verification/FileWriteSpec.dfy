/**
 What writing the first bytes of a forest of blocks means, and how such writes compose: next to each
 other, and below a pointer block.
 */
module FileWriteSpec {
  import opened Words
  import opened BlockStore
  import opened BlockTree

  /** The device, the set of free blocks and the superblock's count of them. */
  datatype Snap = Snap(disk: Disk, free: set<nat>, count: nat)

  /** `f` may be written to: it is separated, allocated, and apart from the bitmap blocks `meta`. */
  ghost predicate Ready(meta: set<nat>, n: nat, bs: nat, s: Snap, f: Forest)
  {
    && n > 0 && bs == 4 * n
    && Sized(s.disk, bs)
    && Sep(s.disk, n, f)
    && Reach(s.disk, n, f) !! s.free
    && Reach(s.disk, n, f) !! meta
    && s.free !! meta
  }

  /** Blocks outside the forest that were in use and are no bitmaps keep their bytes. */
  predicate OthersKept(meta: set<nat>, s: Snap, s': Snap, own: set<nat>)
  {
    |s'.disk| == |s.disk|
    && forall b :: 0 <= b < |s.disk| && b !in own && b !in s.free && b !in meta ==> s'.disk[b] == s.disk[b]
  }

  predicate SameShape(f: Forest, f': Forest)
  {
    |f'| == |f| && forall i :: 0 <= i < |f| ==> f'[i].level == f[i].level && (f[i].ptr != 0 ==> f'[i].ptr == f[i].ptr)
  }

  /** The first bytes of the forest became `data`, in allocated blocks, at the cost of the missing blocks. */
  ghost predicate BytesWritten(n: nat, bs: nat, s: Snap, f: Forest, s': Snap, f': Forest, data: seq<byte>)
  {
    && |data| <= |Content(s.disk, n, bs, f)|
    && Content(s'.disk, n, bs, f') == data + Content(s.disk, n, bs, f)[|data|..]
    && Backed(s'.disk, n, bs, f', |data|)
    && s.count == s'.count + Missing(s.disk, n, bs, f, |data|)
  }

  /** No block is shared, every block taken from the free ones belongs to the forest, nothing else changed. */
  ghost predicate BlocksWritten(meta: set<nat>, n: nat, bs: nat, s: Snap, f: Forest, s': Snap, f': Forest)
  {
    && Sep(s'.disk, n, f')
    && s'.free <= s.free
    && Reach(s'.disk, n, f') == Reach(s.disk, n, f) + (s.free - s'.free)
    && OthersKept(meta, s, s', Reach(s.disk, n, f))
    && Sized(s'.disk, bs)
  }

  /**
   From `s` to `s'` the first bytes of forest `f` were replaced by `data`: the other bytes stay, no
   block is shared, exactly the missing blocks were taken from the free ones and all of them now
   belong to the forest, and nothing else on the device changed.
   */
  ghost predicate Written(meta: set<nat>, n: nat, bs: nat, s: Snap, f: Forest, s': Snap, f': Forest, data: seq<byte>)
  {
    SameShape(f, f') && BytesWritten(n, bs, s, f, s', f', data) && BlocksWritten(meta, n, bs, s, f, s', f')
  }

  lemma WrittenNothing(meta: set<nat>, n: nat, bs: nat, s: Snap, f: Forest)
    requires Ready(meta, n, bs, s, f)
    ensures Written(meta, n, bs, s, f, s, f, [])
  {
    assert Content(s.disk, n, bs, f) == [] + Content(s.disk, n, bs, f)[0..];
  }

  /** Writing `f` leaves a forest beside it as it was. */
  lemma NeighbourKept(meta: set<nat>, n: nat, bs: nat, s: Snap, f: Forest, s': Snap, own: set<nat>)
    requires Ready(meta, n, bs, s, f) && OthersKept(meta, s, s', own) && own !! Reach(s.disk, n, f)
    ensures Agree(s.disk, s'.disk, Reach(s.disk, n, f))
    ensures Reach(s'.disk, n, f) == Reach(s.disk, n, f) && Sep(s'.disk, n, f)
    ensures Content(s'.disk, n, bs, f) == Content(s.disk, n, bs, f)
  {
    FrameReach(s.disk, s'.disk, n, f);
    FrameSep(s.disk, s'.disk, n, f);
    FrameContent(s.disk, s'.disk, n, bs, f);
  }

  lemma ReadySplit(meta: set<nat>, n: nat, bs: nat, s: Snap, f: Forest, g: Forest)
    ensures Ready(meta, n, bs, s, f + g)
       <==> Ready(meta, n, bs, s, f) && Ready(meta, n, bs, s, g) && Reach(s.disk, n, f) !! Reach(s.disk, n, g)
  {
    SepConcat(s.disk, n, f, g);
    ReachConcat(s.disk, n, f, g);
  }

  /** After writing `f`, its neighbour `g` is still ready, and apart from what `f` has become. */
  lemma ReadyNext(meta: set<nat>, n: nat, bs: nat, s: Snap, f: Forest, g: Forest, s': Snap, f': Forest, data: seq<byte>)
    requires Ready(meta, n, bs, s, f + g) && Written(meta, n, bs, s, f, s', f', data)
    ensures Ready(meta, n, bs, s', g) && Ready(meta, n, bs, s', f' + g)
    ensures Content(s'.disk, n, bs, g) == Content(s.disk, n, bs, g)
    ensures Reach(s'.disk, n, g) == Reach(s.disk, n, g)
    ensures Agree(s.disk, s'.disk, Reach(s.disk, n, g))
  {
    ReadySplit(meta, n, bs, s, f, g);
    NeighbourKept(meta, n, bs, s, g, s', Reach(s.disk, n, f));
    ReadySplit(meta, n, bs, s', f', g);
  }

  lemma {:induction false} CapsShape(n: nat, bs: nat, f: Forest, f': Forest)
    requires SameShape(f, f')
    ensures Caps(n, bs, f') == Caps(n, bs, f)
  {
    if f != [] {
      CapsShape(n, bs, f[1..], f'[1..]);
    }
  }

  lemma SpliceConcat(x: seq<byte>, y: seq<byte>, a: seq<byte>, b: seq<byte>)
    requires |a| <= |x| && |b| <= |y| && (b == [] || |a| == |x|)
    ensures (a + x[|a|..]) + (b + y[|b|..]) == (a + b) + (x + y)[|a + b|..]
  {
    if b == [] {
      assert (x + y)[|a|..] == x[|a|..] + y;
      assert a + b == a;
    }
  }

  lemma ComposeContent(d: Disk, n: nat, bs: nat, f: Forest, g: Forest, d': Disk, f': Forest, g': Forest, a: seq<byte>,
          b: seq<byte>)
    requires |a| <= |Content(d, n, bs, f)| && |b| <= |Content(d, n, bs, g)|
    requires Content(d', n, bs, f') == a + Content(d, n, bs, f)[|a|..]
    requires Content(d', n, bs, g') == b + Content(d, n, bs, g)[|b|..]
    requires b == [] || |a| == |Content(d, n, bs, f)|
    ensures |a + b| <= |Content(d, n, bs, f + g)|
    ensures Content(d', n, bs, f' + g') == (a + b) + Content(d, n, bs, f + g)[|a + b|..]
  {
    ContentConcat(d, n, bs, f, g);
    ContentConcat(d', n, bs, f', g');
    SpliceConcat(Content(d, n, bs, f), Content(d, n, bs, g), a, b);
  }

  lemma ComposeSets(meta: set<nat>, n: nat, s: Snap, f: Forest, g: Forest, s1: Snap, f': Forest, s2: Snap, g': Forest)
    requires s1.free <= s.free && s2.free <= s1.free
    requires Reach(s1.disk, n, f') == Reach(s.disk, n, f) + (s.free - s1.free)
    requires Reach(s2.disk, n, g') == Reach(s1.disk, n, g) + (s1.free - s2.free)
    requires Reach(s1.disk, n, g) == Reach(s.disk, n, g) && Reach(s2.disk, n, f') == Reach(s1.disk, n, f')
    requires Sep(s2.disk, n, f') && Sep(s2.disk, n, g')
    requires Reach(s1.disk, n, f') !! Reach(s1.disk, n, g) && Reach(s1.disk, n, f') !! s1.free
    requires OthersKept(meta, s, s1, Reach(s.disk, n, f)) && OthersKept(meta, s1, s2, Reach(s1.disk, n, g))
    ensures Reach(s2.disk, n, f' + g') == Reach(s.disk, n, f + g) + (s.free - s2.free)
    ensures Sep(s2.disk, n, f' + g')
    ensures OthersKept(meta, s, s2, Reach(s.disk, n, f + g))
  {
    ReachConcat(s.disk, n, f, g);
    ReachConcat(s2.disk, n, f', g');
    SepConcat(s2.disk, n, f', g');
  }

  lemma ComposeCounts(n: nat, bs: nat, d: Disk, f: Forest, g: Forest, d1: Disk, f': Forest, d2: Disk, g': Forest,
          m: nat, m': nat, k: nat)
    requires k == m + m' && n > 0 && bs > 0 && SameShape(f, f') && m <= Caps(n, bs, f)
    requires (m' == 0 || m == Caps(n, bs, f))
    requires Agree(d, d1, Reach(d, n, g)) && Agree(d1, d2, Reach(d1, n, f'))
    requires Backed(d1, n, bs, f', m) && Backed(d2, n, bs, g', m')
    ensures Backed(d2, n, bs, f' + g', k)
    ensures Missing(d, n, bs, f + g, k) == Missing(d, n, bs, f, m) + Missing(d1, n, bs, g, m')
  {
    assert Missing(d, n, bs, f + g, k) == Missing(d, n, bs, f, m) + Missing(d1, n, bs, g, m') by {
      FrameMissing(d, d1, n, bs, g, m');
      MissingConcat(d, n, bs, f, g, m, m', k);
    }
    assert Backed(d2, n, bs, f' + g', k) by {
      FrameBacked(d1, d2, n, bs, f', m);
      CapsShape(n, bs, f, f');
      BackedConcat(d2, n, bs, f', g', m, m', k);
    }
  }

  /** Two writes next to each other are one write, if the first one fills its part or the second is empty. */
  lemma Compose(meta: set<nat>, n: nat, bs: nat, s: Snap, f: Forest, g: Forest, s1: Snap, f': Forest, s2: Snap,
          g': Forest, a: seq<byte>, b: seq<byte>)
    requires Ready(meta, n, bs, s, f + g)
    requires Written(meta, n, bs, s, f, s1, f', a) && Written(meta, n, bs, s1, g, s2, g', b)
    requires b == [] || |a| == Caps(n, bs, f)
    ensures Written(meta, n, bs, s, f + g, s2, f' + g', a + b)
  {
    ReadyNext(meta, n, bs, s, f, g, s1, f', a);
    ReadySplit(meta, n, bs, s, f, g);
    ReadySplit(meta, n, bs, s1, f', g);
    NeighbourKept(meta, n, bs, s1, f', s2, Reach(s1.disk, n, g));
    ContentLength(s.disk, n, bs, f);
    assert |a + b| <= |Content(s.disk, n, bs, f + g)|
           && Content(s2.disk, n, bs, f' + g') == (a + b) + Content(s.disk, n, bs, f + g)[|a + b|..] by {
      ComposeContent(s.disk, n, bs, f, g, s2.disk, f', g', a, b);
    }
    assert && Reach(s2.disk, n, f' + g') == Reach(s.disk, n, f + g) + (s.free - s2.free)
           && Sep(s2.disk, n, f' + g')
           && OthersKept(meta, s, s2, Reach(s.disk, n, f + g)) by {
      ComposeSets(meta, n, s, f, g, s1, f', s2, g');
    }
    ComposeCounts(n, bs, s.disk, f, g, s1.disk, f', s2.disk, g', |a|, |b|, |a + b|);
    ShapeConcat(f, f', g, g');
  }

  lemma ShapeConcat(f: Forest, f': Forest, g: Forest, g': Forest)
    requires SameShape(f, f') && SameShape(g, g')
    ensures SameShape(f + g, f' + g')
  {
  }

  // ---------------------------------------------------------------------------------------------
  // One data block and one block of pointers

  /** A free block `p` was taken: only bitmap blocks changed. */
  predicate Took(meta: set<nat>, s: Snap, s': Snap, p: uint32)
  {
    && 0 < p < |s.disk| && p as nat in s.free
    && s'.free == s.free - {p as nat} && s.count == s'.count + 1
    && |s'.disk| == |s.disk|
    && (forall b :: 0 <= b < |s.disk| && b !in meta ==> s'.disk[b] == s.disk[b])
  }

  /** The bytes of a data block after its first bytes were replaced. */
  function Overwritten(before: seq<byte>, data: seq<byte>): seq<byte>
    requires |data| <= |before|
  {
    data + before[|data|..]
  }

  lemma LeafContent(d: Disk, n: nat, bs: nat, p: uint32)
    ensures Content(d, n, bs, [Root(p, 0)]) == BlockBytes(d, bs, p)
    ensures Reach(d, n, [Root(p, 0)]) == if p == 0 then {} else {p as nat}
    ensures Sep(d, n, [Root(p, 0)]) <==> p == 0 || p < |d|
  {
  }

  lemma LeafBacked(d: Disk, n: nat, bs: nat, p: uint32, m: nat)
    requires 0 < m <= bs
    ensures Backed(d, n, bs, [Root(p, 0)], m) <==> p != 0
    ensures Missing(d, n, bs, [Root(p, 0)], m) == if p == 0 then 1 else 0
  {
    assert Min(m, Cap(n, bs, 0)) == m;
  }

  /** Writing into a data block, allocated first if it was missing. */
  lemma WrittenLeaf(meta: set<nat>, n: nat, bs: nat, s: Snap, p0: uint32, s1: Snap, p: uint32, s2: Snap,
          data: seq<byte>)
    requires Ready(meta, n, bs, s, [Root(p0, 0)]) && 0 < |data| <= bs
    requires if p0 == 0 then Took(meta, s, s1, p) else p == p0 && s1 == s
    requires Sized(s1.disk, bs)
    requires p < |s1.disk|
    requires s2 == s1.(disk := s1.disk[p := Overwritten(BlockBytes(s.disk, bs, p0), data)])
    ensures Written(meta, n, bs, s, [Root(p0, 0)], s2, [Root(p, 0)], data)
  {
    LeafContent(s.disk, n, bs, p0);
    LeafContent(s2.disk, n, bs, p);
    LeafBacked(s.disk, n, bs, p0, |data|);
    LeafBacked(s2.disk, n, bs, p, |data|);
  }

  /** The kids `k` of the pointer block of `r` hold its bytes and miss what it misses besides that block. */
  ghost predicate OpenedBytes(n: nat, bs: nat, s: Snap, r: Root, s1: Snap, k: Forest)
  {
    && Content(s1.disk, n, bs, k) == Content(s.disk, n, bs, [r])
    && s.count == s1.count + (if r.ptr == 0 then 1 else 0)
    && (forall m: nat :: 0 < m <= Cap(n, bs, r.level) ==>
          Missing(s.disk, n, bs, [r], m) == Missing(s1.disk, n, bs, k, m) + (if r.ptr == 0 then 1 else 0))
  }

  ghost predicate OpenedBlocks(meta: set<nat>, n: nat, bs: nat, s: Snap, r: Root, s1: Snap, p: uint32, k: Forest)
  {
    && p as nat !in Reach(s1.disk, n, k) && p as nat !in s1.free && p as nat !in meta
    && s1.free <= s.free
    && Reach(s1.disk, n, k) + {p as nat} == Reach(s.disk, n, [r]) + (s.free - s1.free)
    && OthersKept(meta, s, s1, Reach(s.disk, n, [r]))
  }

  /** The pointer block of root `r` is present as that of `r'`, and its kids `k` are ready to be written. */
  ghost predicate Opened(meta: set<nat>, n: nat, bs: nat, s: Snap, r: Root, s1: Snap, r': Root, k: Forest)
  {
    && k == Kids(s1.disk, n, r')
    && r.level > 0 && r'.level == r.level && 0 < r'.ptr < |s1.disk| && (r.ptr != 0 ==> r' == r)
    && Ready(meta, n, bs, s1, k)
    && OpenedBytes(n, bs, s, r, s1, k)
    && OpenedBlocks(meta, n, bs, s, r, s1, r'.ptr, k)
  }

  lemma NodeMissing(d: Disk, n: nat, bs: nat, r: Root, m: nat)
    requires r.level > 0 && 0 < m <= Cap(n, bs, r.level)
    ensures Missing(d, n, bs, [r], m) == (if r.ptr == 0 then 1 else 0) + Missing(d, n, bs, Kids(d, n, r), m)
    ensures Backed(d, n, bs, [r], m) <==> r.ptr != 0 && Backed(d, n, bs, Kids(d, n, r), m)
  {
    MissingCons(d, n, bs, [r], m, m);
    BackedCons(d, n, bs, [r], m, m);
  }

  lemma NodeContent(d: Disk, n: nat, bs: nat, r: Root)
    requires r.level > 0
    ensures Content(d, n, bs, [r]) == Content(d, n, bs, Kids(d, n, r))
    ensures Reach(d, n, [r]) == if r.ptr == 0 then {} else {r.ptr as nat} + Reach(d, n, Kids(d, n, r))
    ensures Sep(d, n, [r]) <==>
              r.ptr == 0 || (r.ptr < |d| && Sep(d, n, Kids(d, n, r)) && r.ptr as nat !in Reach(d, n, Kids(d, n, r)))
  {
    assert Content(d, n, bs, [r]) == Content(d, n, bs, Kids(d, n, r)) + [];
  }

  lemma OpenedPresent(meta: set<nat>, n: nat, bs: nat, s: Snap, r: Root)
    requires Ready(meta, n, bs, s, [r]) && r.level > 0 && r.ptr != 0
    ensures Opened(meta, n, bs, s, r, s, r, Kids(s.disk, n, r))
  {
    NodeContent(s.disk, n, bs, r);
    forall m: nat | 0 < m <= Cap(n, bs, r.level)
      ensures Missing(s.disk, n, bs, [r], m) == Missing(s.disk, n, bs, Kids(s.disk, n, r), m)
    {
      NodeMissing(s.disk, n, bs, r, m);
    }
  }

  /** A fresh pointer block is zeroed before use. */
  lemma OpenedFresh(meta: set<nat>, n: nat, bs: nat, s: Snap, r: Root, s0: Snap, p: uint32, s1: Snap)
    requires Ready(meta, n, bs, s, [r]) && r.level > 0 && r.ptr == 0
    requires Took(meta, s, s0, p) && s1 == s0.(disk := s0.disk[p := Zeros(bs)])
    requires Sized(s0.disk, bs)
    ensures Opened(meta, n, bs, s, r, s1, Root(p, r.level), Kids(s1.disk, n, Root(p, r.level)))
  {
    var k := Kids(s1.disk, n, Root(p, r.level));
    TableOfZeros(bs);
    assert Kids(s.disk, n, r) == k;
    NullReach(s1.disk, n, k);
    NullContent(s1.disk, n, bs, k);
    NullContent(s.disk, n, bs, k);
    NodeContent(s.disk, n, bs, r);
    forall m: nat | 0 < m <= Cap(n, bs, r.level)
      ensures Missing(s.disk, n, bs, [r], m) == Missing(s1.disk, n, bs, k, m) + 1
    {
      NodeMissing(s.disk, n, bs, r, m);
      NullReach(s.disk, n, k);
      if |s.disk| == |s1.disk| {
        FrameMissing(s.disk, s1.disk, n, bs, k, m);
      }
    }
  }

  lemma KidsLoaded(d: Disk, n: nat, r: Root)
    requires r.level > 0 && 0 < r.ptr < |d| && |d[r.ptr]| == 4 * n
    ensures Kids(d, n, r) == Roots(Table(d[r.ptr]), r.level - 1) && |Table(d[r.ptr])| == n
  {
    assert Table(d[r.ptr])[..n] == Table(d[r.ptr]);
  }

  /** Storing a table of pointers in a block apart from what they reach gives a root over them. */
  lemma TableStored(n: nat, bs: nat, d: Disk, r: Root, t: seq<uint32>, d': Disk)
    requires r.level > 0 && 0 < r.ptr < |d| && |t| == n && d' == d[r.ptr := Bytes(t)]
    requires r.ptr as nat !in Reach(d, n, Roots(t, r.level - 1))
    ensures Agree(d, d', Reach(d, n, Roots(t, r.level - 1)))
    ensures Kids(d', n, r) == Roots(t, r.level - 1)
  {
    hide Reach;
    KidsLoaded(d', n, r);
    TableOfBytes(t);
  }

  lemma UpSets(p: nat, kids: set<nat>, kids': set<nat>, reach: set<nat>, a: set<nat>, b: set<nat>, c: set<nat>)
    requires c <= b <= a && kids + {p} == reach + (a - b) && kids' == kids + (b - c)
    ensures {p} + kids' == reach + (a - c)
  {
    assert a - c == (a - b) + (b - c);
    assert {p} + kids' == (kids + {p}) + (b - c);
  }

  lemma UpBytes(n: nat, bs: nat, s: Snap, r: Root, s1: Snap, k: Forest, s2: Snap, f: Forest, s3: Snap, r': Root,
          data: seq<byte>)
    requires r.level > 0 && r'.level == r.level && r'.ptr != 0 && 0 < |data| <= Cap(n, bs, r.level)
    requires OpenedBytes(n, bs, s, r, s1, k) && BytesWritten(n, bs, s1, k, s2, f, data)
    requires Kids(s3.disk, n, r') == f && Agree(s2.disk, s3.disk, Reach(s2.disk, n, f)) && s3.count == s2.count
    ensures BytesWritten(n, bs, s, [r], s3, [r'], data)
  {
    assert Content(s3.disk, n, bs, [r']) == Content(s2.disk, n, bs, f) by {
      FrameContent(s2.disk, s3.disk, n, bs, f);
      NodeContent(s3.disk, n, bs, r');
    }
    assert Backed(s3.disk, n, bs, [r'], |data|) by {
      FrameBacked(s2.disk, s3.disk, n, bs, f, |data|);
      NodeMissing(s3.disk, n, bs, r', |data|);
    }
  }

  lemma UpBlocks(meta: set<nat>, n: nat, bs: nat, s: Snap, r: Root, s1: Snap, k: Forest, s2: Snap, f: Forest, s3: Snap,
          r': Root)
    requires r.level > 0 && r'.level == r.level && 0 < r'.ptr < |s2.disk| && s3.free == s2.free
    requires OpenedBlocks(meta, n, bs, s, r, s1, r'.ptr, k) && BlocksWritten(meta, n, bs, s1, k, s2, f)
    requires Kids(s3.disk, n, r') == f && r'.ptr as nat !in Reach(s2.disk, n, f)
    requires |s3.disk| == |s2.disk| && |s3.disk[r'.ptr]| == bs
    requires forall b :: 0 <= b < |s2.disk| && b != r'.ptr ==> s3.disk[b] == s2.disk[b]
    ensures BlocksWritten(meta, n, bs, s, [r], s3, [r'])
  {
    assert Sep(s3.disk, n, [r']) && Reach(s3.disk, n, [r']) == {r'.ptr as nat} + Reach(s2.disk, n, f) by {
      FrameReach(s2.disk, s3.disk, n, f);
      FrameSep(s2.disk, s3.disk, n, f);
      NodeContent(s3.disk, n, bs, r');
    }
    UpSets(r'.ptr, Reach(s1.disk, n, k), Reach(s2.disk, n, f), Reach(s.disk, n, [r]), s.free, s1.free, s2.free);
  }

  lemma UpTable(n: nat, bs: nat, s2: Snap, r': Root, t: seq<uint32>, f: Forest, s3: Snap)
    requires r'.level > 0 && 0 < r'.ptr < |s2.disk| && |t| == n && bs == 4 * n && f == Roots(t, r'.level - 1)
    requires s3 == s2.(disk := s2.disk[r'.ptr := Bytes(t)]) && r'.ptr as nat !in Reach(s2.disk, n, f)
    ensures Kids(s3.disk, n, r') == f && Agree(s2.disk, s3.disk, Reach(s2.disk, n, f))
    ensures |s3.disk| == |s2.disk| && |s3.disk[r'.ptr]| == bs && s3.free == s2.free && s3.count == s2.count
    ensures forall b :: 0 <= b < |s2.disk| && b != r'.ptr ==> s3.disk[b] == s2.disk[b]
  {
    TableStored(n, bs, s2.disk, r', t, s3.disk);
  }

  lemma WrittenFits(n: nat, bs: nat, d: Disk, r: Root, k: Forest, s: Snap, s': Snap, f: Forest, data: seq<byte>)
    requires r.level > 0 && d == s.disk && k == Kids(d, n, r) && BytesWritten(n, bs, s, k, s', f, data)
    ensures |data| <= Cap(n, bs, r.level)
  {
    ContentLength(d, n, bs, k);
    CapsOfKids(d, n, bs, r);
  }

  /** Writing the kids `k` in memory and then the table `t` of pointers writes the root. */
  lemma WrittenUp(meta: set<nat>, n: nat, bs: nat, s: Snap, r: Root, s1: Snap, r': Root, k: Forest, s2: Snap,
          t: seq<uint32>, f: Forest, s3: Snap, data: seq<byte>)
    requires Opened(meta, n, bs, s, r, s1, r', k) && |data| > 0
    requires Written(meta, n, bs, s1, k, s2, f, data)
    requires |t| == n && f == Roots(t, r.level - 1)
    requires s3 == s2.(disk := s2.disk[r'.ptr := Bytes(t)])
    ensures Written(meta, n, bs, s, [r], s3, [r'], data)
  {
    UpTable(n, bs, s2, r', t, f, s3);
    WrittenFits(n, bs, s1.disk, r', k, s1, s2, f, data);
    UpBlocks(meta, n, bs, s, r, s1, k, s2, f, s3, r');
    UpBytes(n, bs, s, r, s1, k, s2, f, s3, r', data);
  }
}
