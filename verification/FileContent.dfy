/** Overwriting the contents of a file (src/kernel/fs/ext/ext2.cpp, `write_file_content`). */
module FileContent {
  import opened Words
  import opened BlockStore
  import opened BlockTree
  import opened FileWriteSpec
  import opened FileWrite
  import opened InodeTable
  import Arith

  /** The copy of an inode that the VFS node keeps in memory. */
  class CachedInode {
    var inode: Inode

    constructor (inode: Inode)
      ensures this.inode == inode
    {
      this.inode := inode;
    }
  }

  /**
   Inode `num` owns its blocks alone: they are separated, allocated, and apart from the bitmaps and
   from the block of the inode table, which is itself in use.
   */
  ghost predicate OwnsBlocks(fs: Ext2Fs, inode: Inode, num: nat)
    reads fs
  {
    && FsReady(fs, inode.Forest()) && inode.WellFormed()
    && ValidInodeNum(fs.disk, fs.groups, fs.sb, num)
    && SlotBlock(fs.groups, fs.sb, num) !in fs.Free()
    && SlotBlock(fs.groups, fs.sb, num) !in Reach(fs.disk, PerBlock(fs.sb), inode.Forest())
  }

  /** The largest file that fifteen pointers can hold. */
  ghost function MaxFile(sb: Superblock, inode: Inode): nat
  {
    Caps(PerBlock(sb), BlockSize(sb), inode.Forest())
  }

  /** Goes on below the next indirect pointer of the inode if input is left. */
  method WriteNextRoot(fs: Ext2Fs, blockNum: uint32, level: nat, input: seq<byte>, written: nat, ghost s: Snap,
          ghost f: Forest, ghost f': Forest)
    returns (ok: bool, blockNum': uint32, written': nat)
    requires level > 0 && written <= |input| && fs.Valid() && (written == |input| || written % BlockSize(fs.sb) == 0)
    requires Ready(Bitmaps(fs.groups), PerBlock(fs.sb), BlockSize(fs.sb), s, f + [Root(blockNum, level)])
    requires WriteOutcome(Bitmaps(fs.groups), PerBlock(fs.sb), BlockSize(fs.sb), s, f, SnapOf(fs), f', input, 0,
            true, written)
    modifies fs
    ensures fs.Valid() && SameLayout(old(fs.groups), old(fs.sb), fs.groups, fs.sb)
    ensures Bitmaps(fs.groups) == Bitmaps(old(fs.groups))
    ensures WriteOutcome(Bitmaps(fs.groups), PerBlock(fs.sb), BlockSize(fs.sb), s, f + [Root(blockNum, level)],
                         SnapOf(fs), f' + [Root(blockNum', level)], input, 0, ok, written')
    ensures ok ==> written' == |input| || written' % BlockSize(fs.sb) == 0
  {
    hide Sound;
    hide Layout;
    hide SizeFromLog;
    hide Written;
    hide Ready;
    hide Missing;
    hide Caps;
    ghost var meta, n, bs, s1 := Bitmaps(fs.groups), PerBlock(fs.sb), BlockSize(fs.sb), SnapOf(fs);
    ghost var g := [Root(blockNum, level)];
    ok, blockNum', written' := true, blockNum, written;
    if written < |input| {
      ReadyNext(meta, n, bs, s, f, g, s1, f', input[0..written]);
      ok, blockNum', written' := WriteIndirectBlock(fs, blockNum, level, input, written);
      OutcomeNext(meta, n, bs, s, f, g, s1, f', SnapOf(fs), [Root(blockNum', level)], input, 0, written, ok, written');
    } else {
      OutcomeDone(meta, n, bs, s, f, g, s1, f', input, 0);
    }
  }

  /** Writes `input` through the fifteen pointers of the inode, in order, and updates the pointers. */
  method WriteThroughPointers(fs: Ext2Fs, inode: Inode, input: seq<byte>) returns (ok: bool, inode': Inode)
    requires inode.WellFormed() && FsReady(fs, inode.Forest())
    modifies fs
    ensures fs.Valid() && SameLayout(old(fs.groups), old(fs.sb), fs.groups, fs.sb)
    ensures Bitmaps(fs.groups) == Bitmaps(old(fs.groups))
    ensures inode'.WellFormed()
    ensures inode' == inode.(direct := inode'.direct, single := inode'.single, double := inode'.double,
                             triple := inode'.triple)
    ensures WriteOutcome(Bitmaps(fs.groups), PerBlock(fs.sb), BlockSize(fs.sb), old(SnapOf(fs)), inode.Forest(),
                         SnapOf(fs), inode'.Forest(), input, 0, ok, Min(|input|, old(MaxFile(fs.sb, inode))))
  {
    hide Sound;
    hide Layout;
    hide SizeFromLog;
    hide Written;
    hide Ready;
    hide Missing;
    hide Caps;
    hide Roots;
    ghost var meta, n, bs, s := Bitmaps(fs.groups), PerBlock(fs.sb), BlockSize(fs.sb), SnapOf(fs);
    ghost var f0 := Roots(inode.direct, 0);
    ghost var f1 := f0 + [Root(inode.single, 1)];
    ghost var f2 := f1 + [Root(inode.double, 2)];
    assert inode.Forest() == f2 + [Root(inode.triple, 3)];
    ReadySplit(meta, n, bs, s, f2, [Root(inode.triple, 3)]);
    ReadySplit(meta, n, bs, s, f1, [Root(inode.double, 2)]);
    ReadySplit(meta, n, bs, s, f0, [Root(inode.single, 1)]);
    ok, inode' := true, inode;
    var direct, written := inode.direct, 0;
    if 0 < |input| {
      Arith.DivUnique(0, bs, 0, 0);
      ok, direct, written := WriteEntries(fs, inode.direct, 1, input, 0);
    } else {
      NoBytesLeft(meta, n, bs, s, f0, input);
    }
    inode' := inode'.(direct := direct);
    if ok {
      var single;
      ok, single, written := WriteNextRoot(fs, inode.single, 1, input, written, s, f0, Roots(direct, 0));
      inode' := inode'.(single := single);
    } else {
      OutcomePanic(meta, n, bs, s, f0, [Root(inode.single, 1)], SnapOf(fs), Roots(direct, 0),
                   Roots(direct, 0) + [Root(inode'.single, 1)], input, 0, written);
    }
    ghost var g1 := Roots(direct, 0) + [Root(inode'.single, 1)];
    if ok {
      var double;
      ok, double, written := WriteNextRoot(fs, inode.double, 2, input, written, s, f1, g1);
      inode' := inode'.(double := double);
    } else {
      OutcomePanic(meta, n, bs, s, f1, [Root(inode.double, 2)], SnapOf(fs), g1,
                   g1 + [Root(inode'.double, 2)], input, 0, written);
    }
    ghost var g2 := g1 + [Root(inode'.double, 2)];
    if ok {
      var triple;
      ok, triple, written := WriteNextRoot(fs, inode.triple, 3, input, written, s, f2, g2);
      inode' := inode'.(triple := triple);
    } else {
      OutcomePanic(meta, n, bs, s, f2, [Root(inode.triple, 3)], SnapOf(fs), g2,
                   g2 + [Root(inode'.triple, 3)], input, 0, written);
    }
    assert inode'.Forest() == g2 + [Root(inode'.triple, 3)];
  }

  /** What the file system promises after the pointers were written and the inode was stored in block `slot`. */
  ghost predicate FileOverwritten(meta: set<nat>, n: nat, bs: nat, s: Snap, f: Forest, s': Snap, f': Forest, slot: nat,
          data: seq<byte>)
  {
    && Ready(meta, n, bs, s', f')
    && BytesWritten(n, bs, s, f, s', f', data)
    && s'.free <= s.free
    && Reach(s'.disk, n, f') == Reach(s.disk, n, f) + (s.free - s'.free)
    && |s'.disk| == |s.disk|
    && forall b :: 0 <= b < |s.disk| && b !in Reach(s.disk, n, f) && b !in s.free && b !in meta && b != slot ==>
         s'.disk[b] == s.disk[b]
  }

  /** Storing the inode does not touch the file's blocks. */
  lemma InodeStoreHarmless(meta: set<nat>, n: nat, bs: nat, s: Snap, f: Forest, s1: Snap, f': Forest, data: seq<byte>,
          slot: nat, s2: Snap)
    requires Ready(meta, n, bs, s, f) && Written(meta, n, bs, s, f, s1, f', data)
    requires slot !in s.free && slot !in Reach(s.disk, n, f) && s2 == s1.(disk := s2.disk)
    requires |s2.disk| == |s1.disk| && Sized(s2.disk, bs)
    requires forall b :: 0 <= b < |s1.disk| && b != slot ==> s2.disk[b] == s1.disk[b]
    ensures FileOverwritten(meta, n, bs, s, f, s2, f', slot, data)
  {
    FrameReach(s1.disk, s2.disk, n, f');
    FrameSep(s1.disk, s2.disk, n, f');
    FrameContent(s1.disk, s2.disk, n, bs, f');
    FrameBacked(s1.disk, s2.disk, n, bs, f', |data|);
  }

  /** `other` is another inode than `num`, whose table block is neither free nor among the blocks `own`. */
  ghost predicate Beside(d: Disk, ds: seq<Descriptor>, sb: Superblock, own: set<nat>, num: nat, other: nat)
  {
    && other != num && TablesApart(ds, sb) && ValidInodeNum(d, ds, sb, other)
    && SlotBlock(ds, sb, other) !in own && SlotBlock(ds, sb, other) !in FreeSet(d, ds, sb)
  }

  /** On the device every inode beside `num` is as it was. */
  ghost predicate OthersOnDisk(d: Disk, ds: seq<Descriptor>, sb: Superblock, own: set<nat>, num: nat, d': Disk,
          ds': seq<Descriptor>, sb': Superblock)
    requires Sized(d, BlockSize(sb)) && Sized(d', BlockSize(sb'))
  {
    forall other {:trigger Beside(d, ds, sb, own, num, other)} :: Beside(d, ds, sb, own, num, other) ==>
      ValidInodeNum(d', ds', sb', other) && InodeAt(d', ds', sb', other) == InodeAt(d, ds, sb, other)
  }

  /** Writing the blocks of a file and storing its inode leaves every other inode on the device as it was. */
  lemma OtherInodesStay(d: Disk, ds: seq<Descriptor>, sb: Superblock, own: set<nat>, num: nat, d1: Disk,
          ds1: seq<Descriptor>, sb1: Superblock, inode: Inode, d2: Disk)
    requires Sized(d, BlockSize(sb)) && Sized(d1, BlockSize(sb1)) && inode.WellFormed()
    requires SameLayout(ds, sb, ds1, sb1) && |d1| == |d| && Bitmaps(ds1) == Bitmaps(ds)
    requires forall b :: 0 <= b < |d| && b !in own && b !in FreeSet(d, ds, sb) && b !in Bitmaps(ds) ==> d1[b] == d[b]
    requires ValidInodeNum(d1, ds1, sb1, num) && d2 == StoredInode(d1, ds1, sb1, num, inode)
    ensures Sized(d2, BlockSize(sb1)) && OthersOnDisk(d, ds, sb, own, num, d2, ds1, sb1)
  {
    hide SlotBlock;
    hide FreeSet;
    hide InodeAt;
    hide SizeFromLog;
    hide StoredInode;
    hide SameLayout;
    forall other | Beside(d, ds, sb, own, num, other)
      ensures ValidInodeNum(d2, ds1, sb1, other) && InodeAt(d2, ds1, sb1, other) == InodeAt(d, ds, sb, other)
    {
      TablesStayApart(ds, sb, ds1, sb1);
      InodeKept(d, ds, sb, d1, ds1, sb1, other);
      OtherInodesKept(d1, ds1, sb1, num, inode, other);
    }
  }

  /**
   Overwrites the file of inode `num` with `input` from its first byte on and stores the inode. It fails,
   with the kernel panic of the allocator, exactly when fewer blocks are free than the bytes need.
   */
  method WriteFileContent(fs: Ext2Fs, node: CachedInode, num: nat, input: seq<byte>, now: uint32) returns (ok: bool)
    requires fs.Valid() && OwnsBlocks(fs, node.inode, num) && |input| < 0x1_0000_0000
    modifies fs, node
    ensures fs.Valid() && SameLayout(old(fs.groups), old(fs.sb), fs.groups, fs.sb)
    ensures Bitmaps(fs.groups) == Bitmaps(old(fs.groups))
    ensures var m := Min(|input|, old(MaxFile(fs.sb, node.inode)));
            var missing := Missing(old(fs.disk), PerBlock(fs.sb), BlockSize(fs.sb), old(node.inode.Forest()), m);
            ok <==> missing <= old(fs.sb.freeBlocks)
    ensures ok ==>
              var m := Min(|input|, old(MaxFile(fs.sb, node.inode)));
              FileOverwritten(Bitmaps(fs.groups), PerBlock(fs.sb), BlockSize(fs.sb), old(SnapOf(fs)),
                old(node.inode.Forest()), SnapOf(fs), node.inode.Forest(), old(SlotBlock(fs.groups, fs.sb, num)),
                input[..m])
    ensures ok ==> node.inode.Size() == |input| && OwnsBlocks(fs, node.inode, num)
                   && InodeAt(fs.disk, fs.groups, fs.sb, num) == node.inode
    ensures ok ==>
              node.inode == old(node.inode).(sizeLow := |input|, sizeHigh := 0, modTime := now, accessTime := now,
                direct := node.inode.direct, single := node.inode.single, double := node.inode.double,
                triple := node.inode.triple)
    ensures ok ==> OthersOnDisk(old(fs.disk), old(fs.groups), old(fs.sb),
                     Reach(old(fs.disk), PerBlock(fs.sb), old(node.inode.Forest())), num, fs.disk, fs.groups, fs.sb)
  {
    hide Sound;
    hide SizeFromLog;
    hide Layout;
    hide Written;
    hide Ready;
    hide Missing;
    hide Caps;
    hide SlotBlock;
    hide StoredInode;
    hide InodeAt;
    hide FileOverwritten;
    ghost var s, f, m := SnapOf(fs), node.inode.Forest(), Min(|input|, MaxFile(fs.sb, node.inode));
    ghost var slot := SlotBlock(fs.groups, fs.sb, num);
    var inode;
    ok, inode := WriteThroughPointers(fs, node.inode, input);
    if !ok {
      return;
    }
    ghost var s1 := SnapOf(fs);
    WrittenAround(Bitmaps(fs.groups), PerBlock(fs.sb), BlockSize(fs.sb), s, f, s1, inode.Forest(), input[0..m]);
    SlotSameLayout(old(fs.disk), old(fs.groups), old(fs.sb), fs.disk, fs.groups, fs.sb, num);
    inode := inode.(sizeLow := |input| % 0x1_0000_0000, sizeHigh := |input| / 0x1_0000_0000, modTime := now,
        accessTime := now);
    node.inode := inode;
    ghost var d1 := fs.disk;
    WriteInode(fs, num, inode);
    ValidSizes(old(fs.disk), old(fs.groups), old(fs.sb));
    OtherInodesStay(old(fs.disk), old(fs.groups), old(fs.sb), Reach(old(fs.disk), PerBlock(fs.sb), f), num, d1,
        fs.groups, fs.sb, inode, fs.disk);
    assert input[0..m] == input[..m];
    InodeStoreHarmless(Bitmaps(fs.groups), PerBlock(fs.sb), BlockSize(fs.sb), s, f, s1, inode.Forest(), input[..m],
        slot, SnapOf(fs));
    SlotSameLayout(old(fs.disk), old(fs.groups), old(fs.sb), fs.disk, fs.groups, fs.sb, num);
    StillOwned(Bitmaps(fs.groups), PerBlock(fs.sb), BlockSize(fs.sb), s, f, SnapOf(fs), inode.Forest(), slot,
        input[..m]);
  }

  lemma StillOwned(meta: set<nat>, n: nat, bs: nat, s: Snap, f: Forest, s': Snap, f': Forest, slot: nat,
          data: seq<byte>)
    requires FileOverwritten(meta, n, bs, s, f, s', f', slot, data) && slot !in s.free && slot !in Reach(s.disk, n, f)
    ensures Ready(meta, n, bs, s', f') && slot !in s'.free && slot !in Reach(s'.disk, n, f')
  {
  }

  /** Overwriting one file leaves every other file's bytes, and its ownership of its blocks, as they were. */
  lemma OtherFileKept(meta: set<nat>, n: nat, bs: nat, s: Snap, f: Forest, s': Snap, f': Forest, slot: nat,
          data: seq<byte>, g: Forest)
    requires FileOverwritten(meta, n, bs, s, f, s', f', slot, data)
    requires Ready(meta, n, bs, s, g) && Reach(s.disk, n, g) !! Reach(s.disk, n, f) && slot !in Reach(s.disk, n, g)
    ensures Content(s'.disk, n, bs, g) == Content(s.disk, n, bs, g)
    ensures Ready(meta, n, bs, s', g) && Reach(s'.disk, n, g) !! Reach(s'.disk, n, f')
    ensures forall m: nat :: Backed(s.disk, n, bs, g, m) ==> Backed(s'.disk, n, bs, g, m)
  {
    FrameReach(s.disk, s'.disk, n, g);
    FrameSep(s.disk, s'.disk, n, g);
    FrameContent(s.disk, s'.disk, n, bs, g);
    forall m: nat
      ensures Backed(s.disk, n, bs, g, m) ==> Backed(s'.disk, n, bs, g, m)
    {
      FrameBacked(s.disk, s'.disk, n, bs, g, m);
    }
  }

  lemma WrittenAround(meta: set<nat>, n: nat, bs: nat, s: Snap, f: Forest, s': Snap, f': Forest, data: seq<byte>)
    requires Written(meta, n, bs, s, f, s', f', data)
    ensures |s'.disk| == |s.disk| && Sized(s'.disk, bs) && OthersKept(meta, s, s', Reach(s.disk, n, f))
  {
  }

  lemma ValidSizes(d: Disk, ds: seq<Descriptor>, sb: Superblock)
    requires Sound(d, ds, sb)
    ensures Sized(d, BlockSize(sb))
  {
  }
}
