/** Releasing the blocks of a file (src/kernel/fs/ext/block.cpp, `free_blocks`). */
module FileFree {
  import opened Powers
  import opened Words
  import opened BlockStore
  import opened BlockTree
  import opened FileWriteSpec
  import opened FileWrite
  import opened InodeTable
  import opened FileContent

  datatype FsState = FsState(disk: Disk, groups: seq<Descriptor>, sb: Superblock)

  ghost function StateOf(fs: Ext2Fs): FsState
    reads fs
  {
    FsState(fs.disk, fs.groups, fs.sb)
  }

  ghost predicate AllReleasable(x: FsState, s: set<nat>)
  {
    forall b :: b in s ==> Releasable(x.disk, x.groups, x.sb, b)
  }

  /** Only bitmap blocks and the counters of free blocks differ. */
  ghost predicate OnlyBitmaps(x: FsState, y: FsState)
  {
    && SameLayout(x.groups, x.sb, y.groups, y.sb) && Bitmaps(y.groups) == Bitmaps(x.groups)
    && |y.disk| == |x.disk|
    && forall b :: 0 <= b < |x.disk| && b !in Bitmaps(x.groups) ==> y.disk[b] == x.disk[b]
  }

  /** Exactly the blocks of `s` became free, the counters rose by as many, and only bitmaps were rewritten. */
  ghost predicate Released(x: FsState, y: FsState, s: set<nat>)
  {
    && Sound(y.disk, y.groups, y.sb)
    && OnlyBitmaps(x, y)
    && FreeSet(y.disk, y.groups, y.sb) == FreeSet(x.disk, x.groups, x.sb) + s
    && y.sb.freeBlocks == x.sb.freeBlocks + |s|
  }

  lemma ReleasedNothing(x: FsState)
    requires Sound(x.disk, x.groups, x.sb)
    ensures Released(x, x, {})
  {
  }

  lemma ReleasedBoth(x: FsState, y: FsState, z: FsState, s: set<nat>, t: set<nat>)
    requires Released(x, y, s) && Released(y, z, t) && s !! t
    ensures Released(x, z, s + t)
  {
    hide Sound;
    hide FreeSet;
    hide Layout;
    assert |s + t| == |s| + |t|;
  }

  lemma GroupsKept(x: FsState, y: FsState, b: nat)
    requires SameLayout(x.groups, x.sb, y.groups, y.sb)
    ensures InGroups(y.groups, y.sb, b) == InGroups(x.groups, x.sb, b)
  {
    assert |Layout(x.groups)| == |Layout(y.groups)|;
  }

  /** A block of a group that the bitmaps hold is free exactly if it is in the free set. */
  lemma StillReleasable(x: FsState, y: FsState, s: set<nat>, t: set<nat>)
    requires Released(x, y, s) && AllReleasable(x, t) && s !! t
    ensures AllReleasable(y, t)
  {
    hide Sound;
    hide IsFree;
    hide Layout;
    hide InGroups;
    forall b | b in t
      ensures Releasable(y.disk, y.groups, y.sb, b)
    {
      assert b !in FreeSet(x.disk, x.groups, x.sb);
      assert b !in FreeSet(y.disk, y.groups, y.sb);
      GroupsKept(x, y, b);
    }
  }

  /** A forest of releasable blocks looks the same after other blocks were released. */
  lemma ForestKept(x: FsState, y: FsState, s: set<nat>, e: nat, f: Forest)
    requires Released(x, y, s) && AllReleasable(x, Reach(x.disk, e, f))
    ensures Reach(y.disk, e, f) == Reach(x.disk, e, f) && Sep(y.disk, e, f) == Sep(x.disk, e, f)
  {
    hide Sound;
    hide IsFree;
    FrameReach(x.disk, y.disk, e, f);
    FrameSep(x.disk, y.disk, e, f);
  }

  lemma NextEntry(x: FsState, y: FsState, e: nat, k: Forest, i: nat)
    requires i < |k| && Sep(x.disk, e, k) && AllReleasable(x, Reach(x.disk, e, k))
    requires Released(x, y, Reach(x.disk, e, k[..i]))
    ensures Reach(x.disk, e, k[..i + 1]) == Reach(x.disk, e, k[..i]) + Reach(x.disk, e, [k[i]])
    ensures Reach(x.disk, e, k[..i]) !! Reach(x.disk, e, [k[i]])
    ensures Reach(y.disk, e, [k[i]]) == Reach(x.disk, e, [k[i]]) && Sep(y.disk, e, [k[i]])
    ensures AllReleasable(y, Reach(y.disk, e, [k[i]]))
  {
    hide Released;
    hide Reach;
    hide Sep;
    hide Releasable;
    assert k == k[..i] + k[i..] && k[i..] == [k[i]] + k[i + 1..] && k[..i + 1] == k[..i] + [k[i]];
    SepConcat(x.disk, e, k[..i], k[i..]);
    SepConcat(x.disk, e, [k[i]], k[i + 1..]);
    ReachConcat(x.disk, e, k[..i], k[i..]);
    ReachConcat(x.disk, e, [k[i]], k[i + 1..]);
    ReachConcat(x.disk, e, k[..i], [k[i]]);
    ForestKept(x, y, Reach(x.disk, e, k[..i]), e, [k[i]]);
    StillReleasable(x, y, Reach(x.disk, e, k[..i]), Reach(x.disk, e, [k[i]]));
  }

  /** Releases what the non-zero entries of a table of pointers lead to. */
  method FreeEntries(fs: Ext2Fs, blocks: seq<uint32>, level: nat, entries: nat)
    requires fs.Valid() && entries <= PerBlock(fs.sb) && Sep(fs.disk, entries, Roots(blocks, level))
    requires AllReleasable(StateOf(fs), Reach(fs.disk, entries, Roots(blocks, level)))
    modifies fs
    ensures Released(old(StateOf(fs)), StateOf(fs), Reach(old(fs.disk), entries, Roots(blocks, level)))
    decreases level, 1
  {
    hide Sound;
    hide Reach;
    hide Sep;
    hide Releasable;
    hide SizeFromLog;
    hide FreeSet;
    ghost var x, k := StateOf(fs), Roots(blocks, level);
    NothingReached(x, entries);
    var i := 0;
    while i < |blocks|
      invariant i <= |blocks| && Released(x, StateOf(fs), Reach(x.disk, entries, k[..i]))
    {
      ghost var y := StateOf(fs);
      NextEntry(x, y, entries, k, i);
      if blocks[i] != 0 {
        FreeTree(fs, blocks[i], level, entries);
        ReleasedBoth(x, y, StateOf(fs), Reach(x.disk, entries, k[..i]), Reach(x.disk, entries, [k[i]]));
      } else {
        NullReach(x.disk, entries, [k[i]]);
      }
      i := i + 1;
    }
    assert k[..i] == k;
  }

  lemma NothingReached(x: FsState, e: nat)
    requires Sound(x.disk, x.groups, x.sb)
    ensures Released(x, x, Reach(x.disk, e, []))
  {
    hide Sound;
    ReleasedNothing(x);
  }

  /** Releases one allocated block. */
  method FreeOne(fs: Ext2Fs, blockNum: uint32)
    requires fs.Valid() && AllReleasable(StateOf(fs), {blockNum as nat})
    modifies fs
    ensures Released(old(StateOf(fs)), StateOf(fs), {blockNum as nat})
  {
    hide Sound;
    hide IsFree;
    hide FreeSet;
    hide Layout;
    assert Releasable(fs.disk, fs.groups, fs.sb, blockNum as nat);
    fs.FreeBlock(blockNum);
  }

  lemma TreeParts(x: FsState, e: nat, p: uint32, level: nat)
    requires p != 0 && level > 0 && Sep(x.disk, e, [Root(p, level)]) && Sized(x.disk, BlockSize(x.sb))
    requires e <= PerBlock(x.sb)
    ensures p < |x.disk| && e <= |Table(x.disk[p])|
    ensures var k := Roots(Table(x.disk[p])[..e], level - 1);
            Sep(x.disk, e, k) && p as nat !in Reach(x.disk, e, k)
            && Reach(x.disk, e, [Root(p, level)]) == Reach(x.disk, e, k) + {p as nat}
  {
    NodeContent(x.disk, e, BlockSize(x.sb), Root(p, level));
    assert Kids(x.disk, e, Root(p, level)) == Roots(Table(x.disk[p])[..e], level - 1);
  }

  /** Releases the tree of blocks below the non-zero pointer `blockNum`, through `entries` entries of each table. */
  method FreeTree(fs: Ext2Fs, blockNum: uint32, level: nat, entries: nat)
    requires fs.Valid() && blockNum != 0 && entries <= PerBlock(fs.sb)
    requires Sep(fs.disk, entries, [Root(blockNum, level)])
    requires AllReleasable(StateOf(fs), Reach(fs.disk, entries, [Root(blockNum, level)]))
    modifies fs
    ensures Released(old(StateOf(fs)), StateOf(fs), Reach(old(fs.disk), entries, [Root(blockNum, level)]))
    decreases level, 0
  {
    hide Reach;
    hide Sep;
    hide Releasable;
    hide SizeFromLog;
    hide FreeSet;
    hide BitmapsSound;
    hide CountersAgree;
    ghost var x := StateOf(fs);
    if level == 0 {
      LeafContent(fs.disk, entries, BlockSize(fs.sb), blockNum);
      FreeOne(fs, blockNum);
    } else {
      TreeParts(x, entries, blockNum, level);
      var answer := fs.ReadBlock(blockNum);
      var buffer := answer.bytes;
      var blocks := Table(buffer)[..entries];
      ghost var below := Reach(x.disk, entries, Roots(blocks, level - 1));
      FreeEntries(fs, blocks, level - 1, entries);
      ghost var y := StateOf(fs);
      StillReleasable(x, y, below, {blockNum as nat});
      FreeOne(fs, blockNum);
      ReleasedBoth(x, y, StateOf(fs), below, {blockNum as nat});
    }
  }

  // ---------------------------------------------------------------------------------------------
  // All blocks of an inode

  /** Going through fewer entries of each table reaches fewer blocks. */
  lemma {:induction false} FewerEntries(d: Disk, n: nat, e: nat, f: Forest)
    requires e <= n && Sized(d, 4 * n)
    ensures Reach(d, e, f) <= Reach(d, n, f) && (Sep(d, n, f) ==> Sep(d, e, f))
    decreases MaxLevel(f), |f|
  {
    if f != [] {
      var r := f[0];
      if r.level > 0 {
        var k := Kids(d, n, r);
        assert Kids(d, e, r) == k[..e] && k == k[..e] + k[e..];
        ReachConcat(d, n, k[..e], k[e..]);
        SepConcat(d, n, k[..e], k[e..]);
        MaxLevelBound(k[..e], r.level - 1);
        FewerEntries(d, n, e, k[..e]);
      }
      FewerEntries(d, n, e, f[1..]);
      FewerBelow(d, n, e, r);
    }
  }

  lemma {:induction false} FewerBelow(d: Disk, n: nat, e: nat, r: Root)
    requires e <= n && Reach(d, e, Kids(d, e, r)) <= Reach(d, n, Kids(d, n, r))
    ensures Reach(d, e, [r]) <= Reach(d, n, [r])
  {
  }

  /** Releases the tree of a pointer of the inode if it has one. */
  method FreeRoot(fs: Ext2Fs, blockNum: uint32, level: nat, entries: nat, ghost x: FsState, ghost before: Forest)
    requires fs.Valid() && entries <= PerBlock(fs.sb)
    requires Sep(x.disk, entries, before + [Root(blockNum, level)])
    requires AllReleasable(x, Reach(x.disk, entries, before + [Root(blockNum, level)]))
    requires Released(x, StateOf(fs), Reach(x.disk, entries, before))
    modifies fs
    ensures Released(x, StateOf(fs), Reach(x.disk, entries, before + [Root(blockNum, level)]))
  {
    hide Sound;
    hide Reach;
    hide Sep;
    hide Releasable;
    hide SizeFromLog;
    hide FreeSet;
    ghost var y, k := StateOf(fs), before + [Root(blockNum, level)];
    assert k[..|before|] == before && k[..|before| + 1] == k;
    NextEntry(x, y, entries, k, |before|);
    if blockNum != 0 {
      FreeTree(fs, blockNum, level, entries);
      ReleasedBoth(x, y, StateOf(fs), Reach(x.disk, entries, before), Reach(x.disk, entries, [Root(blockNum, level)]));
    } else {
      NullReach(x.disk, entries, [Root(blockNum, level)]);
    }
  }

  lemma SoundSizes(x: FsState)
    requires Sound(x.disk, x.groups, x.sb)
    ensures Sized(x.disk, 4 * PerBlock(x.sb))
  {
  }

  /** Releases every block that the pointers of an inode lead to through `entries` entries of each table. */
  method FreeAll(fs: Ext2Fs, node: CachedInode, entries: nat)
    requires fs.Valid() && entries <= PerBlock(fs.sb) && node.inode.WellFormed()
    requires Sep(fs.disk, PerBlock(fs.sb), node.inode.Forest())
    requires AllReleasable(StateOf(fs), Reach(fs.disk, PerBlock(fs.sb), node.inode.Forest()))
    modifies fs, node
    ensures Released(old(StateOf(fs)), StateOf(fs), Reach(old(fs.disk), entries, old(node.inode.Forest())))
    ensures node.inode == old(node.inode).(direct := seq(12, _ => 0), single := 0, double := 0, triple := 0)
  {
    hide Sound;
    hide Reach;
    hide Sep;
    hide Releasable;
    hide SizeFromLog;
    hide FreeSet;
    hide Roots;
    ghost var x, f, n := StateOf(fs), node.inode.Forest(), PerBlock(fs.sb);
    assert Sized(fs.disk, 4 * n) by { SoundSizes(x); }
    FewerEntries(fs.disk, n, entries, f);
    ghost var f0 := Roots(node.inode.direct, 0);
    ghost var f1 := f0 + [Root(node.inode.single, 1)];
    ghost var f2 := f1 + [Root(node.inode.double, 2)];
    assert f == f2 + [Root(node.inode.triple, 3)];
    ReachConcat(x.disk, entries, f2, [Root(node.inode.triple, 3)]);
    ReachConcat(x.disk, entries, f1, [Root(node.inode.double, 2)]);
    ReachConcat(x.disk, entries, f0, [Root(node.inode.single, 1)]);
    SepConcat(x.disk, entries, f2, [Root(node.inode.triple, 3)]);
    SepConcat(x.disk, entries, f1, [Root(node.inode.double, 2)]);
    SepConcat(x.disk, entries, f0, [Root(node.inode.single, 1)]);
    FreeEntries(fs, node.inode.direct, 0, entries);
    node.inode := node.inode.(direct := seq(12, _ => 0));
    FreeRoot(fs, node.inode.single, 1, entries, x, f0);
    node.inode := node.inode.(single := 0);
    FreeRoot(fs, node.inode.double, 2, entries, x, f1);
    node.inode := node.inode.(double := 0);
    FreeRoot(fs, node.inode.triple, 3, entries, x, f2);
    node.inode := node.inode.(triple := 0);
  }

  /** The number of table entries that the code goes through: a quarter of the logarithm that the superblock stores. */
  function CodedEntries(sb: Superblock): nat
  {
    sb.logBlockSize / 4
  }

  lemma CodedEntriesFew(sb: Superblock)
    ensures CodedEntries(sb) <= PerBlock(sb)
    ensures sb.logBlockSize < 4 ==> CodedEntries(sb) == 0
  {
    LogBelowPower(sb.logBlockSize);
  }

  lemma {:induction false} LogBelowPower(k: nat)
    ensures k <= Pow2(k)
  {
    if k > 0 {
      LogBelowPower(k - 1);
    }
  }

  /** Releases the blocks of an inode as the code does. */
  method FreeBlocks(fs: Ext2Fs, node: CachedInode)
    requires fs.Valid() && node.inode.WellFormed()
    requires Sep(fs.disk, PerBlock(fs.sb), node.inode.Forest())
    requires AllReleasable(StateOf(fs), Reach(fs.disk, PerBlock(fs.sb), node.inode.Forest()))
    modifies fs, node
    ensures Released(old(StateOf(fs)), StateOf(fs),
            Reach(old(fs.disk), CodedEntries(old(fs.sb)), old(node.inode.Forest())))
    ensures node.inode == old(node.inode).(direct := seq(12, _ => 0), single := 0, double := 0, triple := 0)
  {
    hide Sound;
    hide Released;
    CodedEntriesFew(fs.sb);
    FreeAll(fs, node, fs.sb.logBlockSize / 4);
  }
}
