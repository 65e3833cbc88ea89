/** Whole lives of files: written and read back, and written and released. */
module FileRuns {
  import opened Options
  import opened Powers
  import opened Words
  import Bitmap
  import opened BlockStore
  import opened BlockTree
  import opened FileWriteSpec
  import opened FileWrite
  import opened InodeTable
  import opened FileContent
  import opened FileRead
  import opened FileReadProofs
  import opened FileFree
  import opened FileProofs
  import Arith

  /** Thirteen blocks always fit below fifteen pointers. */
  lemma ThirteenFit(n: nat, bs: nat, inode: Inode)
    requires n > 0 && inode.WellFormed()
    ensures Caps(n, bs, inode.Forest()) >= 13 * bs
  {
    var f := inode.Forest();
    CapsConcat(n, bs, f[..12], f[12..]);
    assert f[..12] + f[12..] == f;
    DirectCaps(n, bs, f[..12]);
    assert f[12..][0] == f[12];
    assert Cap(n, bs, 1) >= bs by { Arith.MulMonotone(1, n, bs); }
  }

  lemma {:induction false} DirectCaps(n: nat, bs: nat, f: Forest)
    requires forall i :: 0 <= i < |f| ==> f[i].level == 0
    ensures Caps(n, bs, f) == |f| * bs
    decreases |f|
  {
    if f != [] {
      DirectCaps(n, bs, f[1..]);
      assert |f| * bs == bs + (|f| - 1) * bs;
    }
  }

  /** A file of at most thirteen blocks is overwritten and read back, unless the device runs out of blocks. */
  method OverwriteAndRead(fs: Ext2Fs, node: CachedInode, num: nat, input: seq<byte>, now: uint32, junk: seq<byte>)
    returns (ok: bool, text: Option<seq<byte>>)
    requires fs.Valid() && OwnsBlocks(fs, node.inode, num) && |input| <= 13 * BlockSize(fs.sb)
    requires |input| < 0x1_0000_0000 && |junk| == BlockSize(fs.sb)
    modifies fs, node
    ensures fs.Valid()
    ensures ok <==>
              Missing(old(fs.disk), PerBlock(old(fs.sb)), BlockSize(old(fs.sb)), old(node.inode.Forest()), |input|)
              <= old(fs.sb.freeBlocks)
    ensures ok ==> text == Some(DropNul(input)) && OwnsBlocks(fs, node.inode, num)
  {
    ghost var n, bs, f := PerBlock(fs.sb), BlockSize(fs.sb), node.inode.Forest();
    ThirteenFit(n, bs, node.inode);
    ghost var s := SnapOf(fs);
    ghost var slot := SlotBlock(fs.groups, fs.sb, num);
    text := None;
    ok := WriteFileContent(fs, node, num, input, now);
    if ok {
      assert input[..|input|] == input;
      WriteThenRead(Bitmaps(fs.groups), n, s, f, VolumeOf(fs), SnapOf(fs), junk, node.inode, slot, input);
      text := GetFileContents(fs, node.inode, junk);
    }
  }

  ghost function SnapOfState(x: FsState): Snap { Snap(x.disk, FreeSet(x.disk, x.groups, x.sb), x.sb.freeBlocks) }

  lemma SamePerBlock(ds: seq<Descriptor>, sb: Superblock, ds': seq<Descriptor>, sb': Superblock)
    requires SameLayout(ds, sb, ds', sb')
    ensures PerBlock(sb') == PerBlock(sb) == BlockSize(sb') / 4 && BlockSize(sb') == BlockSize(sb)
  {
    assert sb'.logBlockSize == sb'.(freeBlocks := 0).logBlockSize == sb.(freeBlocks := 0).logBlockSize;
  }

  /**
   Besides the file of inode `num`, with blocks `f`, there is the file whose inode the device holds under
   `other`: neither file has a block of the other one or of the other's inode.
   */
  ghost predicate TwoFiles(d: Disk, ds: seq<Descriptor>, sb: Superblock, f: Forest, num: nat, other: nat)
  {
    && Sound(d, ds, sb) && Beside(d, ds, sb, Reach(d, PerBlock(sb), f), num, other) && ValidInodeNum(d, ds, sb, num)
    && var g := InodeAt(d, ds, sb, other).Forest();
    && Ready(Bitmaps(ds), PerBlock(sb), BlockSize(sb), SnapOfState(FsState(d, ds, sb)), g)
    && Reach(d, PerBlock(sb), g) !! Reach(d, PerBlock(sb), f) && SlotBlock(ds, sb, num) !in Reach(d, PerBlock(sb), g)
  }

  /** The bytes of the file whose inode the device holds under `num`. */
  ghost function BytesOnDisk(d: Disk, ds: seq<Descriptor>, sb: Superblock, num: nat): seq<byte>
    requires ValidInodeNum(d, ds, sb, num) && Sized(d, BlockSize(sb))
  {
    Content(d, PerBlock(sb), BlockSize(sb), InodeAt(d, ds, sb, num).Forest())
  }

  /** All bytes of that file are there, and they are no more than thirteen blocks. */
  ghost predicate SmallOnDisk(d: Disk, ds: seq<Descriptor>, sb: Superblock, num: nat)
    requires ValidInodeNum(d, ds, sb, num) && Sized(d, BlockSize(sb))
  {
    var i := InodeAt(d, ds, sb, num);
    && i.Size() <= 13 * BlockSize(sb) && i.Size() < 0x1_0000_0000
    && Backed(d, PerBlock(sb), BlockSize(sb), i.Forest(), i.Size())
  }

  lemma TwoFilesStay(d: Disk, ds: seq<Descriptor>, sb: Superblock, f: Forest, num: nat, other: nat, d': Disk,
          ds': seq<Descriptor>, sb': Superblock, f': Forest, slot: nat, data: seq<byte>)
    requires TwoFiles(d, ds, sb, f, num, other) && Sound(d', ds', sb') && SameLayout(ds, sb, ds', sb')
    requires Bitmaps(ds') == Bitmaps(ds) && slot == SlotBlock(ds, sb, num)
    requires FileOverwritten(Bitmaps(ds), PerBlock(sb), BlockSize(sb), SnapOfState(FsState(d, ds, sb)), f,
            SnapOfState(FsState(d', ds', sb')), f', slot, data)
    requires OthersOnDisk(d, ds, sb, Reach(d, PerBlock(sb), f), num, d', ds', sb')
    ensures TwoFiles(d', ds', sb', f', num, other)
    ensures InodeAt(d', ds', sb', other) == InodeAt(d, ds, sb, other)
    ensures BytesOnDisk(d', ds', sb', other) == BytesOnDisk(d, ds, sb, other)
    ensures SmallOnDisk(d, ds, sb, other) ==> SmallOnDisk(d', ds', sb', other)
  {
    hide Sound;
    hide FreeSet;
    hide Reach;
    hide Sep;
    hide Content;
    hide Backed;
    hide InodeAt;
    hide SlotBlock;
    hide SizeFromLog;
    hide ValidInodeNum;
    hide SameLayout;
    var g := InodeAt(d, ds, sb, other).Forest();
    var s, s' := SnapOfState(FsState(d, ds, sb)), SnapOfState(FsState(d', ds', sb'));
    SamePerBlock(ds, sb, ds', sb');
    assert Beside(d, ds, sb, Reach(d, PerBlock(sb), f), num, other);
    OtherFileKept(Bitmaps(ds), PerBlock(sb), BlockSize(sb), s, f, s', f', slot, data, g);
    SlotSameLayout(d, ds, sb, d', ds', sb', num);
    SlotSameLayout(d, ds, sb, d', ds', sb', other);
    TablesStayApart(ds, sb, ds', sb');
    FrameReach(d, d', PerBlock(sb), g);
  }

  /** The kernel reads from such a file its bytes, but for NUL. */
  lemma ReadsOnDisk(v: Volume, ds: seq<Descriptor>, sb: Superblock, num: nat, junk: seq<byte>, f: Forest, first: nat)
    requires TwoFiles(v.disk, ds, sb, f, first, num) && v.bs == BlockSize(sb) && SmallOnDisk(v.disk, ds, sb, num)
    ensures var i := InodeAt(v.disk, ds, sb, num);
            && i.WellFormed() && i.Size() <= |BytesOnDisk(v.disk, ds, sb, num)|
            && ReadBack(v, v.bs / 4, junk, i) == Some(DropNul(BytesOnDisk(v.disk, ds, sb, num)[..i.Size()]))
  {
    hide Reach;
    hide Sep;
    hide Content;
    hide Backed;
    hide SlotBlock;
    hide SizeFromLog;
    hide ReadFile;
    hide DropNul;
    SmallFileReadsBack(v, PerBlock(sb), junk, InodeAt(v.disk, ds, sb, num));
  }

  /**
   Overwriting a file leaves every other file as it was: its inode on the device, the bytes below it, and what
   the kernel reads from it if it has at most thirteen blocks.
   */
  method OverwriteBeside(fs: Ext2Fs, node: CachedInode, num: nat, input: seq<byte>, now: uint32, other: nat,
          junk: seq<byte>)
    returns (ok: bool, before: Option<seq<byte>>, after: Option<seq<byte>>)
    requires fs.Valid() && OwnsBlocks(fs, node.inode, num) && |input| < 0x1_0000_0000 && |junk| == BlockSize(fs.sb)
    requires TwoFiles(fs.disk, fs.groups, fs.sb, node.inode.Forest(), num, other)
    requires SmallOnDisk(fs.disk, fs.groups, fs.sb, other)
    modifies fs, node
    ensures fs.Valid()
    ensures ok ==>
              OwnsBlocks(fs, node.inode, num) && TwoFiles(fs.disk, fs.groups, fs.sb, node.inode.Forest(), num, other)
    ensures ok ==> InodeAt(fs.disk, fs.groups, fs.sb, other) == old(InodeAt(fs.disk, fs.groups, fs.sb, other))
    ensures ok ==> BytesOnDisk(fs.disk, fs.groups, fs.sb, other) == old(BytesOnDisk(fs.disk, fs.groups, fs.sb, other))
    ensures before.Some? && (ok ==> after == before)
  {
    hide Sound;
    hide SameLayout;
    hide InodeAt;
    hide TwoFiles;
    hide Ready;
    hide Reach;
    hide FileOverwritten;
    hide OthersOnDisk;
    hide ValidInodeNum;
    hide BytesOnDisk;
    ghost var d, ds, sb, f := fs.disk, fs.groups, fs.sb, node.inode.Forest();
    OtherValid(d, ds, sb, f, num, other);
    var inode := LoadInode(fs, other);
    ReadsOnDisk(VolumeOf(fs), ds, sb, other, junk, f, num);
    before := GetFileContents(fs, inode, junk);
    after := None;
    ok := WriteFileContent(fs, node, num, input, now);
    if ok {
      SamePerBlock(ds, sb, fs.groups, fs.sb);
      TwoFilesStay(d, ds, sb, f, num, other, fs.disk, fs.groups, fs.sb, node.inode.Forest(),
          SlotBlock(ds, sb, num), input[..Min(|input|, Caps(PerBlock(sb), BlockSize(sb), f))]);
      OtherValid(fs.disk, fs.groups, fs.sb, node.inode.Forest(), num, other);
      ReadsOnDisk(VolumeOf(fs), fs.groups, fs.sb, other, junk, node.inode.Forest(), num);
      inode := LoadInode(fs, other);
      after := GetFileContents(fs, inode, junk);
    }
  }

  lemma OtherValid(d: Disk, ds: seq<Descriptor>, sb: Superblock, f: Forest, num: nat, other: nat)
    requires TwoFiles(d, ds, sb, f, num, other)
    ensures ValidInodeNum(d, ds, sb, other) && ValidInodeNum(d, ds, sb, num) && Sized(d, BlockSize(sb))
    ensures num > 0 && sb.inodesPerGroup > 0 && SlotGroup(sb, num) < |ds|
  {
  }

  /** The blocks that were taken for a file may be released. */
  lemma TakenReleasable(d: Disk, ds: seq<Descriptor>, sb: Superblock, x: FsState, n: nat, f: Forest)
    requires SameLayout(ds, sb, x.groups, x.sb) && |x.disk| == |d| && Sep(x.disk, n, f)
    requires Reach(x.disk, n, f) <= FreeSet(d, ds, sb) && Reach(x.disk, n, f) !! FreeSet(x.disk, x.groups, x.sb)
    requires Reach(x.disk, n, f) !! Bitmaps(x.groups)
    ensures AllReleasable(x, Reach(x.disk, n, f))
  {
    ReachOnDevice(x.disk, n, f);
    assert |Layout(x.groups)| == |Layout(ds)|;
    forall b | b in Reach(x.disk, n, f)
      ensures Releasable(x.disk, x.groups, x.sb, b)
    {
      assert b in FreeSet(d, ds, sb);
    }
  }

  /** All blocks of a file that was written from nothing were free before. */
  lemma TakenFromFree(meta: set<nat>, n: nat, bs: nat, s: Snap, f: Forest, s': Snap, f': Forest, slot: nat,
          data: seq<byte>)
    requires FileOverwritten(meta, n, bs, s, f, s', f', slot, data) && Reach(s.disk, n, f) == {}
    ensures |s'.disk| == |s.disk| && Sep(s'.disk, n, f') && Reach(s'.disk, n, f') <= s.free
    ensures Reach(s'.disk, n, f') !! s'.free && Reach(s'.disk, n, f') !! meta
  {
    hide Reach;
    hide Sep;
    hide BytesWritten;
  }

  lemma ClearedIsNull(inode: Inode)
    requires inode.direct == seq(12, _ => 0) && inode.single == inode.double == inode.triple == 0
    ensures AllNull(inode.Forest())
  {
  }

  lemma OwnedSlot(fs: Ext2Fs, inode: Inode, num: nat)
    requires OwnsBlocks(fs, inode, num)
    ensures num > 0 && fs.sb.inodesPerGroup > 0 && SlotGroup(fs.sb, num) < |fs.groups| && TableFormatted(fs.sb)
    ensures inode.WellFormed()
  {
  }

  lemma ReleasedSound(x: FsState, y: FsState, s: set<nat>)
    requires Released(x, y, s)
    ensures Sound(y.disk, y.groups, y.sb) && (OffsetsAgree(x.sb) ==> OffsetsAgree(y.sb))
  {
  }

  /** Releases a file that was written from nothing: what was taken for it is free again. */
  method ReleaseTaken(fs: Ext2Fs, node: CachedInode, ghost s: Snap, ghost ds: seq<Descriptor>, ghost sb: Superblock,
          ghost f: Forest, ghost slot: nat, ghost data: seq<byte>)
    requires fs.Valid() && node.inode.WellFormed() && AllNull(f) && SameLayout(ds, sb, fs.groups, fs.sb)
    requires s.free == FreeSet(s.disk, ds, sb)
    requires FileOverwritten(Bitmaps(fs.groups), PerBlock(fs.sb), BlockSize(fs.sb), s, f, SnapOf(fs),
            node.inode.Forest(), slot, data)
    modifies fs, node
    ensures fs.Valid() && fs.Free() == s.free && fs.sb.freeBlocks == |s.free| && AllNull(node.inode.Forest())
  {
    hide Reach;
    hide Sep;
    hide SizeFromLog;
    hide Sound;
    hide SameLayout;
    hide AllReleasable;
    hide FreeSet;
    hide AllNull;
    hide Released;
    hide FileOverwritten;
    ghost var n, bs, x, f' := PerBlock(fs.sb), BlockSize(fs.sb), StateOf(fs), node.inode.Forest();
    NullReach(s.disk, n, f);
    TakenFromFree(Bitmaps(fs.groups), n, bs, s, f, SnapOf(fs), f', slot, data);
    TakenReleasable(s.disk, ds, sb, x, n, f');
    FreeAll(fs, node, BlockSize(fs.sb) / 4);
    ReleasedSound(x, StateOf(fs), Reach(x.disk, n, f'));
    ClearedIsNull(node.inode);
    WriteThenFree(Bitmaps(x.groups), n, bs, s, f, SnapOfState(x), f', slot, data, x, StateOf(fs));
  }

  /** A file is written into an inode without blocks and released again: the free blocks are as before. */
  method WriteAndRelease(fs: Ext2Fs, node: CachedInode, num: nat, input: seq<byte>, now: uint32) returns (ok: bool)
    requires fs.Valid() && OwnsBlocks(fs, node.inode, num) && AllNull(node.inode.Forest()) && |input| < 0x1_0000_0000
    modifies fs, node
    ensures fs.Valid()
    ensures ok ==> fs.Free() == old(fs.Free()) && fs.sb.freeBlocks == old(fs.sb.freeBlocks)
    ensures ok ==> AllNull(node.inode.Forest())
  {
    hide FileOverwritten;
    hide OwnsBlocks;
    hide ValidInodeNum;
    hide Sound;
    hide AllNull;
    hide SameLayout;
    OwnedSlot(fs, node.inode, num);
    FreeCount(fs.disk, fs.groups, fs.sb);
    ghost var s, ds, sb, f := SnapOf(fs), fs.groups, fs.sb, node.inode.Forest();
    ghost var slot, m := SlotBlock(fs.groups, fs.sb, num), Min(|input|, MaxFile(fs.sb, node.inode));
    ok := WriteFileContent(fs, node, num, input, now);
    if ok {
      SamePerBlock(ds, sb, fs.groups, fs.sb);
      OwnedSlot(fs, node.inode, num);
      ReleaseTaken(fs, node, s, ds, sb, f, slot, input[..m]);
    }
  }

  // ---------------------------------------------------------------------------------------------
  // A file system to start from

  const SMALL_SB: Superblock := Superblock(8, 3, 7, 1, 8, 8, 128, 0, 0)
  const SMALL_GROUPS: seq<Descriptor> := [Descriptor(2, 3, 4, 3, 7)]

  predicate SmallShape(d: Disk)
  {
    |d| == 8 && (forall b :: 0 <= b < 8 ==> |d[b]| == 2048) && d[2][0] == 31
  }

  /**
   Eight blocks of 2 KiB: the superblock, the descriptors, the two bitmaps in blocks 2 and 3, the inodes in
   block 4, and three free blocks.
   */
  function SmallDisk(): (d: Disk)
    ensures SmallShape(d)
  {
    var zeros := Zeros(2048);
    [zeros, zeros, zeros[0 := 31], zeros, zeros, zeros, zeros, zeros]
  }

  lemma SmallBits(bm: seq<byte>)
    requires |bm| == 2048 && bm[0] == 31
    ensures forall o :: 0 <= o < 8 ==> (Bitmap.Bit(bm, o) <==> o < 5)
    ensures Bitmap.ClearBits(bm, 8) == 3
  {
    forall o | 0 <= o < 8
      ensures Bitmap.Bit(bm, o) <==> o < 5
    {
      assert o / 8 == 0 && o % 8 == o;
      LowBits(5, o);
    }
    Bitmap.ClearBitsZero(bm, 5);
    assert Bitmap.ClearBits(bm, 6) == 1;
    assert Bitmap.ClearBits(bm, 7) == 2;
  }

  /** `2^k - 1` has exactly its lowest `k` bits set. */
  lemma {:induction false} LowBits(k: nat, o: nat)
    ensures Bitmap.ByteBit(Pow2(k) - 1, o) <==> o < k
  {
    if k > 0 {
      assert Pow2(k) - 1 == 2 * (Pow2(k - 1) - 1) + 1;
      assert (Pow2(k) - 1) / 2 == Pow2(k - 1) - 1;
    }
    if o > 0 {
      LowBits(if k > 0 then k - 1 else 0, o - 1);
    }
  }

  lemma SmallSizes()
    ensures BlockSize(SMALL_SB) == 2048 && TotalGroups(SMALL_SB) == 1
  {
    assert Pow2(1) == 2 * Pow2(0) == 2;
  }

  lemma SmallFormatted(d: Disk)
    requires SmallShape(d)
    ensures Formatted(d, SMALL_GROUPS, SMALL_SB)
  {
    SmallSizes();
    hide BlockSize;
    hide TotalGroups;
    assert SMALL_GROUPS[0].bitmapBlock == 2;
  }

  lemma SmallBitmaps(d: Disk)
    requires SmallShape(d) && Formatted(d, SMALL_GROUPS, SMALL_SB)
    ensures BitmapsSound(d, SMALL_GROUPS, SMALL_SB)
  {
    SmallBits(d[2]);
    hide Bitmap.Bit;
    hide Formatted;
    forall g, o | 0 <= g < |SMALL_GROUPS| && 0 <= o < SMALL_SB.blocksPerGroup
        && !Bitmap.Bit(d[SMALL_GROUPS[g].bitmapBlock], o)
      ensures 0 < BlockAt(SMALL_SB, g, o) < |d| && BlockAt(SMALL_SB, g, o) !in Bitmaps(SMALL_GROUPS)
    {
      assert g == 0 && SMALL_GROUPS[0].bitmapBlock == 2 && BlockAt(SMALL_SB, 0, o) == o >= 5;
    }
  }

  lemma SmallCounters(d: Disk)
    requires SmallShape(d) && Formatted(d, SMALL_GROUPS, SMALL_SB)
    ensures CountersAgree(d, SMALL_GROUPS, SMALL_SB)
  {
    SmallBits(d[2]);
    hide Bitmap.Bit;
    hide Bitmap.ClearBits;
    hide Formatted;
    assert SMALL_GROUPS[0].bitmapBlock == 2 && SMALL_GROUPS[0].freeBlocks == 3;
    assert SMALL_GROUPS[..0] == [] && SumFree(SMALL_GROUPS) == 3;
  }

  /** The file system is sound, so that everything proved about sound ones is about something. */
  lemma SmallSound()
    ensures Sound(SmallDisk(), SMALL_GROUPS, SMALL_SB)
  {
    var d := SmallDisk();
    hide SmallDisk;
    SmallFormatted(d);
    hide Formatted;
    SmallBitmaps(d);
    SmallCounters(d);
  }

  /** An inode without blocks. */
  const EMPTY_INODE: Inode := Inode(0, 0, 0, 0, 0, 0, 0, 0, 0, 0, seq(12, _ => 0), 0, 0, 0, 0, 0, 0, 0, seq(3, _ => 0))

  lemma SmallSlot(d: Disk)
    requires SmallShape(d) && Formatted(d, SMALL_GROUPS, SMALL_SB)
    ensures ValidInodeNum(d, SMALL_GROUPS, SMALL_SB, 1) && SlotBlock(SMALL_GROUPS, SMALL_SB, 1) == 4
    ensures ValidInodeNum(d, SMALL_GROUPS, SMALL_SB, 2) && SlotBlock(SMALL_GROUPS, SMALL_SB, 2) == 4
    ensures 4 !in FreeSet(d, SMALL_GROUPS, SMALL_SB) && FreeSet(d, SMALL_GROUPS, SMALL_SB) !! Bitmaps(SMALL_GROUPS)
  {
    SmallSizes();
    SmallBits(d[2]);
    hide BlockSize;
    hide Bitmap.Bit;
    hide Formatted;
    assert SMALL_GROUPS[0].bitmapBlock == 2 && SMALL_GROUPS[0].inodeTable == 4;
  }

  lemma SmallReady(d: Disk)
    requires SmallShape(d) && Sound(d, SMALL_GROUPS, SMALL_SB) && EMPTY_INODE.WellFormed()
    requires AllNull(EMPTY_INODE.Forest())
    ensures Ready(Bitmaps(SMALL_GROUPS), PerBlock(SMALL_SB), BlockSize(SMALL_SB),
            Snap(d, FreeSet(d, SMALL_GROUPS, SMALL_SB), 3), EMPTY_INODE.Forest())
  {
    SmallSlot(d);
    SmallSizes();
    NullReach(d, PerBlock(SMALL_SB), EMPTY_INODE.Forest());
    hide SmallShape;
    hide AllNull;
    hide Reach;
    hide Sep;
    hide FreeSet;
    hide BlockSize;
    hide Bitmaps;
  }

  /** A mounted file system with an empty file that owns its blocks, as the calls above need it. */
  method SmallFileSystem(device: DeviceType) returns (fs: Ext2Fs, node: CachedInode)
    ensures fresh(fs) && fresh(node) && fs.Valid() && OwnsBlocks(fs, node.inode, 1) && AllNull(node.inode.Forest())
    ensures fs.disk == SmallDisk() && fs.groups == SMALL_GROUPS && fs.sb == SMALL_SB && node.inode == EMPTY_INODE
  {
    hide Sound;
    hide AllNull;
    hide Ready;
    hide Reach;
    hide ValidInodeNum;
    hide SmallShape;
    hide FreeSet;
    hide Formatted;
    fs := new Ext2Fs(SmallDisk(), SMALL_GROUPS, SMALL_SB, device);
    node := new CachedInode(EMPTY_INODE);
    SmallSound();
    SmallFormatted(fs.disk);
    SmallSlot(fs.disk);
    ClearedIsNull(EMPTY_INODE);
    SmallReady(fs.disk);
    NullReach(fs.disk, PerBlock(fs.sb), EMPTY_INODE.Forest());
  }

  /** One block is all that an empty file misses for that many bytes. */
  lemma OneMissing(d: Disk, n: nat, f: Forest, m: nat)
    requires m <= 2048 && AllNull(f) && f != [] && f[0].level == 0
    ensures Missing(d, n, 2048, f, m) <= 1
  {
    if m > 0 {
      MissingCons(d, n, 2048, f, m, m);
    }
  }

  /** Two files on that file system, as `OverwriteBeside` needs them: the first holds `input`, the second is empty. */
  method TwoSmallFiles(device: DeviceType, input: seq<byte>) returns (fs: Ext2Fs, node: CachedInode)
    requires |input| <= 2048
    ensures fs.Valid() && OwnsBlocks(fs, node.inode, 2)
    ensures TwoFiles(fs.disk, fs.groups, fs.sb, node.inode.Forest(), 2, 1)
    ensures SmallOnDisk(fs.disk, fs.groups, fs.sb, 1) && input <= BytesOnDisk(fs.disk, fs.groups, fs.sb, 1)
  {
    hide Sound;
    hide AllNull;
    hide Reach;
    hide FreeSet;
    hide Content;
    hide Sep;
    hide Backed;
    hide SameLayout;
    hide SlotBlock;
    hide ValidInodeNum;
    hide InodeAt;
    hide SmallDisk;
    var first;
    fs, first := SmallFileSystem(device);
    SmallFormatted(fs.disk);
    SmallSlot(fs.disk);
    SmallSizes();
    ThirteenFit(512, 2048, EMPTY_INODE);
    OneMissing(fs.disk, 512, EMPTY_INODE.Forest(), |input|);
    ghost var d, ds, sb := fs.disk, fs.groups, fs.sb;
    var ok := WriteFileContent(fs, first, 1, input, 0);
    node := new CachedInode(EMPTY_INODE);
    SamePerBlock(ds, sb, fs.groups, fs.sb);
    SlotSameLayout(d, ds, sb, fs.disk, fs.groups, fs.sb, 1);
    SlotSameLayout(d, ds, sb, fs.disk, fs.groups, fs.sb, 2);
    TablesStayApart(ds, sb, fs.groups, fs.sb);
    ClearedIsNull(EMPTY_INODE);
    NullReach(fs.disk, PerBlock(fs.sb), EMPTY_INODE.Forest());
  }
}
