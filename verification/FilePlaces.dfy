/** Which block holds which bytes of a file, told by the pointers, and how large a file can be. */
module FilePlaces {
  import opened Words
  import opened BlockStore
  import opened BlockTree
  import opened InodeTable
  import opened DiskLayout
  import Arith

  /** The data blocks below one pointer of a level. */
  function Leaves(n: nat, level: nat): nat
  {
    if level == 0 then 1 else n * Leaves(n, level - 1)
  }

  /** The pointer to the `k`-th data block below `p`. */
  function Leaf(d: Disk, n: nat, p: uint32, level: nat, k: nat): uint32
    requires n > 0 && k < Leaves(n, level)
    decreases level
  {
    if level == 0 then p
    else
      var each := Leaves(n, level - 1);
      LeafParts(n, each, k);
      Leaf(d, n, Pointers(d, n, p)[k / each], level - 1, k % each)
  }

  lemma LeafParts(n: nat, each: nat, k: nat)
    requires k < n * each
    ensures each > 0 && k == k / each * each + k % each && k / each < n && k / each * each + k % each < n * each
  {
    assert each > 0;
    assert k == each * (k / each) + k % each;
    Arith.LessFactor(k / each, n, each);
  }

  /** The bytes of a forest from `x` on that lie in its `j`-th root. */
  lemma PartOfRoot(d: Disk, n: nat, bs: nat, f: Forest, j: nat, x: nat, x': nat)
    requires j < |f| && x <= x' <= Cap(n, bs, f[j].level)
    ensures var at := Caps(n, bs, f[..j]);
            && |Content(d, n, bs, [f[j]])| == Cap(n, bs, f[j].level)
            && at + Cap(n, bs, f[j].level) <= |Content(d, n, bs, f)|
            && Content(d, n, bs, f)[at + x..at + x'] == Content(d, n, bs, [f[j]])[x..x']
  {
    hide Content;
    hide Cap;
    var a, r, c := f[..j], [f[j]], f[j + 1..];
    assert f == a + (r + c);
    ContentConcat(d, n, bs, a, r + c);
    ContentConcat(d, n, bs, r, c);
    ContentLength(d, n, bs, a);
    ContentLength(d, n, bs, r);
    assert r[1..] == [];
    assert Caps(n, bs, r) == Cap(n, bs, f[j].level);
  }

  lemma {:induction false} CapIs(n: nat, bs: nat, level: nat)
    ensures Cap(n, bs, level) == Leaves(n, level) * bs
  {
    if level > 0 {
      CapIs(n, bs, level - 1);
    }
  }

  lemma ContentOfRoot(d: Disk, n: nat, bs: nat, r: Root)
    ensures Content(d, n, bs, [r])
         == if r.level == 0 then BlockBytes(d, bs, r.ptr) else Content(d, n, bs, Kids(d, n, r))
  {
    assert [r][1..] == [];
    assert Content(d, n, bs, [r][1..]) == [];
  }

  /** The kids of a root are its pointers, one level down, and those before the `j`-th hold `j` equal shares. */
  lemma KidsShare(d: Disk, n: nat, bs: nat, r: Root, j: nat)
    requires r.level > 0 && j < n
    ensures Kids(d, n, r)[j] == Root(Pointers(d, n, r.ptr)[j], r.level - 1)
    ensures Caps(n, bs, Kids(d, n, r)[..j]) == j * (Leaves(n, r.level - 1) * bs)
  {
    CapsOfLevel(n, bs, Kids(d, n, r)[..j], r.level - 1);
    CapIs(n, bs, r.level - 1);
  }

  /** Bytes of the `j`-th kid of a root among those of the root. */
  lemma BytesOfKid(d: Disk, n: nat, bs: nat, r: Root, j: nat, inner: nat, x: nat)
    requires r.level > 0 && j < n && inner + bs <= Leaves(n, r.level - 1) * bs
    requires x == j * (Leaves(n, r.level - 1) * bs) + inner
    ensures var c, kid := Content(d, n, bs, [r]), Content(d, n, bs, [Root(Pointers(d, n, r.ptr)[j], r.level - 1)]);
            x + bs <= |c| && inner + bs <= |kid| && c[x..x + bs] == kid[inner..inner + bs]
  {
    hide *;
    ContentOfRoot(d, n, bs, r);
    KidsShare(d, n, bs, r, j);
    CapIs(n, bs, r.level - 1);
    PartOfRoot(d, n, bs, Kids(d, n, r), j, inner, inner + bs);
  }

  /** The `k`-th block of bytes below one pointer is the block that its `k`-th leaf points to. */
  lemma {:induction false} BelowRoot(d: Disk, n: nat, bs: nat, p: uint32, level: nat, k: nat, x: nat)
    requires n > 0 && k < Leaves(n, level) && x == k * bs
    ensures var c := Content(d, n, bs, [Root(p, level)]);
            x + bs <= |c| && c[x..x + bs] == BlockBytes(d, bs, Leaf(d, n, p, level, k))
    decreases level
  {
    hide Content;
    hide Pointers;
    hide BlockBytes;
    if level == 0 {
      ContentOfRoot(d, n, bs, Root(p, 0));
    } else {
      var each := Leaves(n, level - 1);
      LeafParts(n, each, k);
      var j, i := k / each, k % each;
      InShare(each, i, bs);
      Shifted(j, each, i, bs);
      BytesOfKid(d, n, bs, Root(p, level), j, i * bs, x);
      BelowRoot(d, n, bs, Pointers(d, n, p)[j], level - 1, i, i * bs);
    }
  }

  lemma InShare(each: nat, i: nat, bs: nat)
    requires i < each
    ensures i * bs + bs <= each * bs
  {
    Arith.MulMonotone(i + 1, each, bs);
  }

  lemma Shifted(j: nat, each: nat, i: nat, bs: nat)
    ensures j * (each * bs) + i * bs == (j * each + i) * bs
  {
    assert j * (each * bs) == j * each * bs;
  }

  // ---------------------------------------------------------------------------------------------
  // The fifteen pointers

  /** The entries of a block of pointers are its little-endian words. */
  lemma PointerBytes(d: Disk, n: nat, p: uint32, i: nat)
    requires 0 < p < |d| && 4 * n <= |d[p]| && i < n
    ensures Pointers(d, n, p)[i] == Number(d[p], 4 * i)
  {
  }

  lemma TwoDigits(n: nat, i: nat)
    requires n > 0 && i < n * n
    ensures 0 <= i / n < n && 0 <= i % n < n
  {
    LeafParts(n, n, i);
  }

  lemma Squared(n: nat)
    requires n > 0
    ensures n * n > 0 && n * (n * n) == n * n * n
  {
  }

  lemma ThreeDigits(n: nat, i: nat)
    requires n > 0 && i < n * n * n
    ensures n * n > 0 && 0 <= i / (n * n) < n && 0 <= i % (n * n) / n < n && 0 <= i % (n * n) % n < n
  {
    Squared(n);
    var square := n * n;
    LeafParts(n, square, i);
    assert i % square < n * n;
    TwoDigits(n, i % square);
  }

  /**
   The pointer to the `k`-th data block of a file: twelve direct ones, then those of one table, then those of a table
   of tables, then those three tables deep.
   */
  function PointerTo(d: Disk, n: nat, inode: Inode, k: nat): uint32
    requires inode.WellFormed() && n > 0 && k < 12 + n + n * n + n * n * n
  {
    if k < 12 then inode.direct[k]
    else if k < 12 + n then Pointers(d, n, inode.single)[k - 12]
    else if k < 12 + n + n * n then
      var i := k - 12 - n;
      TwoDigits(n, i);
      Pointers(d, n, Pointers(d, n, inode.double)[i / n])[i % n]
    else
      var i := k - 12 - n - n * n;
      ThreeDigits(n, i);
      Pointers(d, n, Pointers(d, n, Pointers(d, n, inode.triple)[i / (n * n)])[i % (n * n) / n])[i % (n * n) % n]
  }

  /** The bytes that the direct pointers and the tables of each depth hold before the next ones. */
  lemma RootsAt(n: nat, bs: nat, inode: Inode)
    requires inode.WellFormed()
    ensures var f := inode.Forest();
            && |f| == 15 && f[..12] == Roots(inode.direct, 0)
            && f[12] == Root(inode.single, 1) && f[13] == Root(inode.double, 2) && f[14] == Root(inode.triple, 3)
            && Caps(n, bs, f[..12]) == 12 * bs && Caps(n, bs, f[..13]) == (12 + n) * bs
            && Caps(n, bs, f[..14]) == (12 + n + n * n) * bs && Caps(n, bs, f) == (12 + n + n * n + n * n * n) * bs
  {
    var f := inode.Forest();
    CapsOfLevel(n, bs, f[..12], 0);
    OneMore(n, bs, f, 12);
    OneMore(n, bs, f, 13);
    OneMore(n, bs, f, 14);
    assert f[..15] == f;
    DeepLeaves(n);
    hide Cap;
    hide Caps;
    hide Roots;
    Sums(n, bs);
  }

  lemma OneMore(n: nat, bs: nat, f: Forest, j: nat)
    requires j < |f|
    ensures Caps(n, bs, f[..j + 1]) == Caps(n, bs, f[..j]) + Leaves(n, f[j].level) * bs
  {
    assert f[..j + 1] == f[..j] + [f[j]];
    CapsConcat(n, bs, f[..j], [f[j]]);
    CapIs(n, bs, f[j].level);
    assert [f[j]][1..] == [];
  }

  lemma DeepLeaves(n: nat)
    ensures Leaves(n, 0) == 1 && Leaves(n, 1) == n && Leaves(n, 2) == n * n && Leaves(n, 3) == n * n * n
  {
    assert Leaves(n, 1) == n * Leaves(n, 0);
  }

  lemma Sums(n: nat, bs: nat)
    ensures 12 * bs + n * bs == (12 + n) * bs
    ensures (12 + n) * bs + n * n * bs == (12 + n + n * n) * bs
    ensures (12 + n + n * n) * bs + n * n * n * bs == (12 + n + n * n + n * n * n) * bs
  {
  }

  /** The root and the place below it that the `k`-th pointer comes from. */
  lemma PointerIs(d: Disk, n: nat, inode: Inode, k: nat)
    requires inode.WellFormed() && n > 0 && k < 12 + n + n * n + n * n * n
    ensures var p := PointerTo(d, n, inode, k);
            if k < 12 then p == Leaf(d, n, inode.direct[k], 0, 0)
            else if k < 12 + n then k - 12 < Leaves(n, 1) && p == Leaf(d, n, inode.single, 1, k - 12)
            else if k < 12 + n + n * n then
              k - 12 - n < Leaves(n, 2) && p == Leaf(d, n, inode.double, 2, k - 12 - n)
            else k - 12 - n - n * n < Leaves(n, 3) && p == Leaf(d, n, inode.triple, 3, k - 12 - n - n * n)
  {
    hide Pointers;
    DeepLeaves(n);
  }

  /** The `k`-th block of bytes of a file is the block that the `k`-th pointer leads to. */
  lemma FileBlock(d: Disk, n: nat, bs: nat, inode: Inode, k: nat)
    requires inode.WellFormed() && n > 0 && k < 12 + n + n * n + n * n * n
    ensures var c := Content(d, n, bs, inode.Forest());
            && |c| == (12 + n + n * n + n * n * n) * bs && k * bs + bs <= |c|
            && c[k * bs..k * bs + bs] == BlockBytes(d, bs, PointerTo(d, n, inode, k))
  {
    hide *;
    ContentLength(d, n, bs, inode.Forest());
    RootsAt(n, bs, inode);
    PointerIs(d, n, inode, k);
    var two, three := n * n, n * n * n;
    if k < 12 {
      DirectBlock(d, n, bs, inode, k);
    } else if k < 12 + n {
      LaterBlock(d, n, bs, inode, 12, 12, k);
    } else if k < 12 + n + two {
      LaterBlock(d, n, bs, inode, 13, 12 + n, k);
    } else {
      LaterBlock(d, n, bs, inode, 14, 12 + n + two, k);
    }
  }

  lemma DirectBlock(d: Disk, n: nat, bs: nat, inode: Inode, k: nat)
    requires inode.WellFormed() && n > 0 && k < 12
    ensures var c := Content(d, n, bs, inode.Forest());
            k * bs + bs <= |c| && c[k * bs..k * bs + bs] == BlockBytes(d, bs, Leaf(d, n, inode.direct[k], 0, 0))
  {
    hide Content;
    hide BlockBytes;
    hide Leaf;
    var f := inode.Forest();
    assert f[k] == Root(inode.direct[k], 0);
    CapsOfLevel(n, bs, f[..k], 0);
    RootBlock(d, n, bs, f, k, 0, 0, k * bs);
  }

  /** The blocks below the `j`-th root follow `before` others. */
  lemma LaterBlock(d: Disk, n: nat, bs: nat, inode: Inode, j: nat, before: nat, k: nat)
    requires inode.WellFormed() && n > 0 && j < |inode.Forest()| && before <= k
    requires Caps(n, bs, inode.Forest()[..j]) == before * bs && k - before < Leaves(n, inode.Forest()[j].level)
    ensures var c, r := Content(d, n, bs, inode.Forest()), inode.Forest()[j];
            k * bs + bs <= |c| && c[k * bs..k * bs + bs] == BlockBytes(d, bs, Leaf(d, n, r.ptr, r.level, k - before))
  {
    hide *;
    Distributed(before, k - before, bs);
    RootBlock(d, n, bs, inode.Forest(), j, k - before, (k - before) * bs, k * bs);
  }

  lemma Distributed(a: nat, b: nat, c: nat)
    ensures (a + b) * c == a * c + b * c
  {
  }

  /** The `i`-th block below the `j`-th root, `x` bytes behind the bytes of the roots before. */
  lemma RootBlock(d: Disk, n: nat, bs: nat, f: Forest, j: nat, i: nat, x: nat, at: nat)
    requires n > 0 && j < |f| && i < Leaves(n, f[j].level) && x == i * bs && at == Caps(n, bs, f[..j]) + x
    ensures var c := Content(d, n, bs, f);
            at + bs <= |c| && c[at..at + bs] == BlockBytes(d, bs, Leaf(d, n, f[j].ptr, f[j].level, i))
  {
    hide *;
    assert x + bs <= Cap(n, bs, f[j].level) by {
      CapIs(n, bs, f[j].level);
      InShare(Leaves(n, f[j].level), i, bs);
    }
    BelowRoot(d, n, bs, f[j].ptr, f[j].level, i, x);
    PartOfRoot(d, n, bs, f, j, x, x + bs);
  }
}
