/**
 The trees of blocks that hang off an inode. A root is a pointer together with its level of
 indirection: level 0 is a data block, level 1 a block of pointers to data blocks, and so on. A
 forest is a list of roots; the fifteen pointers of an inode are one.
 */
module BlockTree {
  import opened Words
  import opened BlockStore

  datatype Root = Root(ptr: uint32, level: nat)
  type Forest = seq<Root>

  function Min(a: nat, b: nat): nat { if a < b then a else b }

  /** The bytes below one root when each block of pointers holds `n` and each data block `bs` bytes. */
  function Cap(n: nat, bs: nat, level: nat): nat
  {
    if level == 0 then bs else n * Cap(n, bs, level - 1)
  }

  function Caps(n: nat, bs: nat, f: Forest): nat
  {
    if f == [] then 0 else Cap(n, bs, f[0].level) + Caps(n, bs, f[1..])
  }

  function MaxLevel(f: Forest): nat
  {
    if f == [] then 0 else if f[0].level > MaxLevel(f[1..]) then f[0].level else MaxLevel(f[1..])
  }

  lemma {:induction false} MaxLevelBound(f: Forest, h: nat)
    requires forall i :: 0 <= i < |f| ==> f[i].level <= h
    ensures MaxLevel(f) <= h
  {
    if f != [] {
      MaxLevelBound(f[1..], h);
    }
  }

  /** A pointer table as roots of the given level. */
  function Roots(t: seq<uint32>, level: nat): (f: Forest)
    ensures |f| == |t| && MaxLevel(f) <= level
  {
    var f := seq(|t|, i requires 0 <= i < |t| => Root(t[i], level));
    MaxLevelBound(f, level);
    f
  }

  /** The pointers stored in block `p`; all zero for the null pointer and past the end of the device. */
  function Pointers(d: Disk, n: nat, p: uint32): (t: seq<uint32>)
    ensures |t| == n
  {
    if 0 < p < |d| && 4 * n <= |d[p]| then Table(d[p])[..n] else seq(n, _ => 0)
  }

  /** The roots that the first `n` entries of the block of `r` point to. */
  function Kids(d: Disk, n: nat, r: Root): (f: Forest)
    ensures r.level > 0 ==> |f| == n && MaxLevel(f) < r.level
    ensures r.level == 0 ==> f == []
  {
    if r.level == 0 then [] else Roots(Pointers(d, n, r.ptr), r.level - 1)
  }

  /** Every block of the forest: pointer blocks and data blocks. */
  function Reach(d: Disk, n: nat, f: Forest): set<nat>
    decreases MaxLevel(f), |f|
  {
    if f == [] then {}
    else (if f[0].ptr == 0 then {} else {f[0].ptr as nat} + Reach(d, n, Kids(d, n, f[0]))) + Reach(d, n, f[1..])
  }

  /** No block is reachable twice, and every pointer is on the device. */
  predicate Sep(d: Disk, n: nat, f: Forest)
    decreases MaxLevel(f), |f|
  {
    f == [] ||
    (&& (f[0].ptr != 0 ==>
           && f[0].ptr < |d|
           && Sep(d, n, Kids(d, n, f[0]))
           && f[0].ptr as nat !in Reach(d, n, Kids(d, n, f[0])))
     && Sep(d, n, f[1..])
     && Reach(d, n, [f[0]]) !! Reach(d, n, f[1..]))
  }

  /** The bytes of a data block; zeros where there is none. */
  function BlockBytes(d: Disk, bs: nat, p: uint32): (b: seq<byte>)
    ensures |b| == bs
  {
    if 0 < p < |d| && |d[p]| == bs then d[p] else Zeros(bs)
  }

  /** The logical bytes of the forest. */
  function Content(d: Disk, n: nat, bs: nat, f: Forest): seq<byte>
    decreases MaxLevel(f), |f|
  {
    if f == [] then []
    else (if f[0].level == 0 then BlockBytes(d, bs, f[0].ptr) else Content(d, n, bs, Kids(d, n, f[0])))
         + Content(d, n, bs, f[1..])
  }

  /** The first `m` logical bytes all lie in allocated blocks. */
  predicate Backed(d: Disk, n: nat, bs: nat, f: Forest, m: nat)
    decreases MaxLevel(f), |f|
  {
    m == 0 ||
    (&& f != []
     && var c := Min(m, Cap(n, bs, f[0].level));
        BackedBelow(d, n, bs, f[0], c) && Backed(d, n, bs, f[1..], m - c))
  }

  predicate BackedBelow(d: Disk, n: nat, bs: nat, r: Root, m: nat)
    decreases r.level, 0
  {
    r.ptr != 0 && (r.level > 0 ==> Backed(d, n, bs, Kids(d, n, r), m))
  }

  /** How many blocks are missing to hold the first `m` logical bytes. */
  function Missing(d: Disk, n: nat, bs: nat, f: Forest, m: nat): nat
    decreases MaxLevel(f), |f|
  {
    if f == [] || m == 0 then 0
    else var c := Min(m, Cap(n, bs, f[0].level));
         MissingBelow(d, n, bs, f[0], c) + Missing(d, n, bs, f[1..], m - c)
  }

  function MissingBelow(d: Disk, n: nat, bs: nat, r: Root, m: nat): nat
    decreases r.level, 0
  {
    (if r.ptr == 0 then 1 else 0) + (if r.level == 0 then 0 else Missing(d, n, bs, Kids(d, n, r), m))
  }

  // ---------------------------------------------------------------------------------------------
  // Sizes

  lemma {:induction false} CapsOfLevel(n: nat, bs: nat, f: Forest, level: nat)
    requires forall i :: 0 <= i < |f| ==> f[i].level == level
    ensures Caps(n, bs, f) == |f| * Cap(n, bs, level)
  {
    if f != [] {
      CapsOfLevel(n, bs, f[1..], level);
      assert |f| * Cap(n, bs, level) == Cap(n, bs, level) + |f[1..]| * Cap(n, bs, level);
    }
  }

  lemma CapsOfKids(d: Disk, n: nat, bs: nat, r: Root)
    requires r.level > 0
    ensures Caps(n, bs, Kids(d, n, r)) == Cap(n, bs, r.level)
  {
    CapsOfLevel(n, bs, Kids(d, n, r), r.level - 1);
  }

  lemma {:induction false} ContentLength(d: Disk, n: nat, bs: nat, f: Forest)
    ensures |Content(d, n, bs, f)| == Caps(n, bs, f)
    decreases MaxLevel(f), |f|
  {
    if f != [] {
      if f[0].level > 0 {
        ContentLength(d, n, bs, Kids(d, n, f[0]));
        CapsOfKids(d, n, bs, f[0]);
      }
      ContentLength(d, n, bs, f[1..]);
    }
  }

  // ---------------------------------------------------------------------------------------------
  // Concatenation

  lemma {:induction false} CapsConcat(n: nat, bs: nat, f: Forest, g: Forest)
    ensures Caps(n, bs, f + g) == Caps(n, bs, f) + Caps(n, bs, g)
  {
    if f == [] {
      assert f + g == g;
    } else {
      assert (f + g)[1..] == f[1..] + g;
      CapsConcat(n, bs, f[1..], g);
    }
  }

  lemma {:induction false} ReachConcat(d: Disk, n: nat, f: Forest, g: Forest)
    ensures Reach(d, n, f + g) == Reach(d, n, f) + Reach(d, n, g)
    decreases |f|
  {
    if f == [] {
      assert f + g == g;
    } else {
      assert (f + g)[1..] == f[1..] + g;
      ReachConcat(d, n, f[1..], g);
    }
  }

  lemma ReachCons(d: Disk, n: nat, r: Root, f: Forest)
    ensures Reach(d, n, [r] + f) == Reach(d, n, [r]) + Reach(d, n, f)
  {
    ReachConcat(d, n, [r], f);
  }

  lemma {:induction false} SepConcat(d: Disk, n: nat, f: Forest, g: Forest)
    ensures Sep(d, n, f + g) <==> Sep(d, n, f) && Sep(d, n, g) && Reach(d, n, f) !! Reach(d, n, g)
    decreases |f|
  {
    if f == [] {
      assert f + g == g;
    } else {
      assert (f + g)[1..] == f[1..] + g;
      SepConcat(d, n, f[1..], g);
      ReachConcat(d, n, f[1..], g);
      assert [f[0]] + f[1..] == f;
      ReachCons(d, n, f[0], f[1..]);
    }
  }

  lemma {:induction false} ContentConcat(d: Disk, n: nat, bs: nat, f: Forest, g: Forest)
    ensures Content(d, n, bs, f + g) == Content(d, n, bs, f) + Content(d, n, bs, g)
    decreases |f|
  {
    if f == [] {
      assert f + g == g;
    } else {
      assert (f + g)[1..] == f[1..] + g;
      ContentConcat(d, n, bs, f[1..], g);
    }
  }

  lemma {:induction false} CapPositive(n: nat, bs: nat, level: nat)
    requires n > 0 && bs > 0
    ensures Cap(n, bs, level) > 0
  {
    if level > 0 {
      CapPositive(n, bs, level - 1);
    }
  }

  /** The first root takes its share of `m` bytes that end within `f`, or at its end with `m'` more to come. */
  lemma CutFirst(n: nat, bs: nat, f: Forest, m: nat, m': nat)
    requires n > 0 && bs > 0 && f != []
    requires m <= Caps(n, bs, f) && (m' == 0 || m == Caps(n, bs, f))
    ensures var c := Min(m, Cap(n, bs, f[0].level));
            && c == Min(m + m', Cap(n, bs, f[0].level))
            && m - c <= Caps(n, bs, f[1..]) && (m' == 0 || m - c == Caps(n, bs, f[1..]))
            && (m == 0 ==> m' == 0)
  {
    CapPositive(n, bs, f[0].level);
  }

  lemma BackedCons(d: Disk, n: nat, bs: nat, f: Forest, m: nat, c: nat)
    requires f != [] && m > 0 && c == Min(m, Cap(n, bs, f[0].level))
    ensures Backed(d, n, bs, f, m) <==> BackedBelow(d, n, bs, f[0], c) && Backed(d, n, bs, f[1..], m - c)
  {
  }

  lemma MissingCons(d: Disk, n: nat, bs: nat, f: Forest, m: nat, c: nat)
    requires f != [] && m > 0 && c == Min(m, Cap(n, bs, f[0].level))
    ensures Missing(d, n, bs, f, m) == MissingBelow(d, n, bs, f[0], c) + Missing(d, n, bs, f[1..], m - c)
  {
  }

  lemma {:induction false} BackedConcat(d: Disk, n: nat, bs: nat, f: Forest, g: Forest, m: nat, m': nat, k: nat)
    requires n > 0 && bs > 0 && k == m + m'
    requires m <= Caps(n, bs, f) && (m' == 0 || m == Caps(n, bs, f))
    ensures Backed(d, n, bs, f + g, k) <==> Backed(d, n, bs, f, m) && Backed(d, n, bs, g, m')
    decreases |f|
  {
    hide Cap;
    if f == [] {
      assert f + g == g;
    } else {
      CutFirst(n, bs, f, m, m');
      if m > 0 {
        var c := Min(m, Cap(n, bs, f[0].level));
        var h := f + g;
        assert h[1..] == f[1..] + g && h[0] == f[0];
        BackedCons(d, n, bs, h, k, c);
        BackedCons(d, n, bs, f, m, c);
        BackedConcat(d, n, bs, f[1..], g, m - c, m', k - c);
      }
    }
  }

  lemma {:induction false} MissingConcat(d: Disk, n: nat, bs: nat, f: Forest, g: Forest, m: nat, m': nat, k: nat)
    requires n > 0 && bs > 0 && k == m + m'
    requires m <= Caps(n, bs, f) && (m' == 0 || m == Caps(n, bs, f))
    ensures Missing(d, n, bs, f + g, k) == Missing(d, n, bs, f, m) + Missing(d, n, bs, g, m')
    decreases |f|
  {
    if f == [] {
      assert f + g == g;
    } else {
      CutFirst(n, bs, f, m, m');
      if m > 0 {
        var c := Min(m, Cap(n, bs, f[0].level));
        var h := f + g;
        assert h[1..] == f[1..] + g && h[0] == f[0];
        MissingCons(d, n, bs, h, k, c);
        MissingCons(d, n, bs, f, m, c);
        MissingConcat(d, n, bs, f[1..], g, m - c, m', k - c);
      }
    }
  }

  // ---------------------------------------------------------------------------------------------
  // Framing

  /** Two disks that agree on a set of blocks. */
  predicate Agree(d: Disk, d': Disk, s: set<nat>)
  {
    |d| == |d'| && forall b :: b in s && b < |d| ==> d[b] == d'[b]
  }

  predicate AllNull(f: Forest)
  {
    forall i :: 0 <= i < |f| ==> f[i].ptr == 0
  }

  lemma {:induction false} NullReach(d: Disk, n: nat, f: Forest)
    requires AllNull(f)
    ensures Reach(d, n, f) == {} && Sep(d, n, f)
    decreases |f|
  {
    if f != [] {
      NullReach(d, n, f[1..]);
    }
  }

  /** The first root of a forest and its kids depend only on the blocks that the forest reaches. */
  lemma FrameKids(d: Disk, d': Disk, n: nat, f: Forest)
    requires f != [] && Agree(d, d', Reach(d, n, f))
    ensures Kids(d', n, f[0]) == Kids(d, n, f[0])
    ensures Agree(d, d', Reach(d, n, Kids(d, n, f[0]))) && Agree(d, d', Reach(d, n, f[1..]))
  {
    if f[0].ptr == 0 {
      NullReach(d, n, Kids(d, n, f[0]));
    }
  }

  /** A forest depends only on the blocks that it reaches. */
  lemma {:induction false} FrameReach(d: Disk, d': Disk, n: nat, f: Forest)
    requires Agree(d, d', Reach(d, n, f))
    ensures Reach(d', n, f) == Reach(d, n, f)
    decreases MaxLevel(f), |f|
  {
    if f != [] {
      FrameKids(d, d', n, f);
      FrameReach(d, d', n, Kids(d, n, f[0]));
      FrameReach(d, d', n, f[1..]);
    }
  }

  lemma {:induction false} FrameSep(d: Disk, d': Disk, n: nat, f: Forest)
    requires Agree(d, d', Reach(d, n, f))
    ensures Sep(d', n, f) == Sep(d, n, f)
    decreases MaxLevel(f), |f|
  {
    if f != [] {
      FrameKids(d, d', n, f);
      FrameReach(d, d', n, Kids(d, n, f[0]));
      FrameReach(d, d', n, f[1..]);
      FrameSep(d, d', n, Kids(d, n, f[0]));
      FrameSep(d, d', n, f[1..]);
      assert Reach(d', n, [f[0]]) == Reach(d, n, [f[0]]);
    }
  }

  lemma {:induction false} FrameContent(d: Disk, d': Disk, n: nat, bs: nat, f: Forest)
    requires Agree(d, d', Reach(d, n, f))
    ensures Content(d', n, bs, f) == Content(d, n, bs, f)
    decreases MaxLevel(f), |f|
  {
    if f != [] {
      FrameKids(d, d', n, f);
      FrameContent(d, d', n, bs, Kids(d, n, f[0]));
      FrameContent(d, d', n, bs, f[1..]);
    }
  }

  lemma {:induction false} FrameBacked(d: Disk, d': Disk, n: nat, bs: nat, f: Forest, m: nat)
    requires Agree(d, d', Reach(d, n, f))
    ensures Backed(d', n, bs, f, m) == Backed(d, n, bs, f, m)
    decreases MaxLevel(f), |f|
  {
    if f != [] && m != 0 {
      FrameKids(d, d', n, f);
      var c := Min(m, Cap(n, bs, f[0].level));
      FrameBacked(d, d', n, bs, Kids(d, n, f[0]), c);
      FrameBacked(d, d', n, bs, f[1..], m - c);
    }
  }

  lemma {:induction false} FrameMissing(d: Disk, d': Disk, n: nat, bs: nat, f: Forest, m: nat)
    requires Agree(d, d', Reach(d, n, f))
    ensures Missing(d', n, bs, f, m) == Missing(d, n, bs, f, m)
    decreases MaxLevel(f), |f|
  {
    if f != [] && m != 0 {
      FrameKids(d, d', n, f);
      var c := Min(m, Cap(n, bs, f[0].level));
      FrameMissing(d, d', n, bs, Kids(d, n, f[0]), c);
      FrameMissing(d, d', n, bs, f[1..], m - c);
    }
  }

  /** A forest of null pointers holds zeros. */
  lemma {:induction false} NullContent(d: Disk, n: nat, bs: nat, f: Forest)
    requires AllNull(f)
    ensures Content(d, n, bs, f) == Zeros(Caps(n, bs, f))
    decreases MaxLevel(f), |f|
  {
    if f != [] {
      if f[0].level > 0 {
        NullContent(d, n, bs, Kids(d, n, f[0]));
        CapsOfKids(d, n, bs, f[0]);
      }
      NullContent(d, n, bs, f[1..]);
    }
  }

  /** Every block of a separated forest is on the device and is not block 0. */
  lemma {:induction false} ReachOnDevice(d: Disk, n: nat, f: Forest)
    requires Sep(d, n, f)
    ensures forall b :: b in Reach(d, n, f) ==> 0 < b < |d|
    decreases MaxLevel(f), |f|
  {
    if f != [] {
      if f[0].ptr != 0 {
        ReachOnDevice(d, n, Kids(d, n, f[0]));
      }
      ReachOnDevice(d, n, f[1..]);
    }
  }

  /** A shorter prefix of a backed file is backed. */
  lemma {:induction false} BackedLess(d: Disk, n: nat, bs: nat, f: Forest, m: nat, m': nat)
    requires Backed(d, n, bs, f, m) && m' <= m
    ensures Backed(d, n, bs, f, m')
    decreases MaxLevel(f), |f|
  {
    if m' > 0 {
      var c := Cap(n, bs, f[0].level);
      if f[0].level > 0 {
        BackedLess(d, n, bs, Kids(d, n, f[0]), Min(m, c), Min(m', c));
      }
      BackedLess(d, n, bs, f[1..], m - Min(m, c), m' - Min(m', c));
    }
  }
}
