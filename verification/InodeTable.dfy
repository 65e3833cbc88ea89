/** Inodes and the tables that hold them (src/kernel/fs/ext/inode.cpp). */
module InodeTable {
  import opened Words
  import opened BlockStore
  import opened BlockTree
  import Arith

  /** The 128 bytes of an inode as 32-bit words; `typeAndUid` and `gidAndLinks` pack two 16-bit fields each. */
  datatype Inode = Inode(typeAndUid: uint32, sizeLow: uint32, accessTime: uint32, createTime: uint32, modTime: uint32,
                         deleteTime: uint32, gidAndLinks: uint32, sectors: uint32, flags: uint32, osSpecific1: uint32,
                         direct: seq<uint32>, single: uint32, double: uint32, triple: uint32,
                         generation: uint32, extAttr: uint32, sizeHigh: uint32, fragment: uint32,
                         osSpecific2: seq<uint32>)
  {
    predicate WellFormed()
    {
      |direct| == 12 && |osSpecific2| == 3
    }

    /** The fifteen block pointers as roots of block trees. */
    function Forest(): Forest
    {
      Roots(direct, 0) + [Root(single, 1)] + [Root(double, 2)] + [Root(triple, 3)]
    }

    function Size(): nat
    {
      sizeHigh * 0x1_0000_0000 + sizeLow
    }

    function ToWords(): (w: seq<uint32>)
      requires WellFormed()
      ensures |w| == 32
    {
      [typeAndUid, sizeLow, accessTime, createTime, modTime, deleteTime, gidAndLinks, sectors, flags, osSpecific1]
      + direct + [single, double, triple, generation, extAttr, sizeHigh, fragment] + osSpecific2
    }
  }

  const INODE_BYTES: nat := 128

  function FromWords(w: seq<uint32>): (i: Inode)
    requires |w| == 32
    ensures i.WellFormed() && i.ToWords() == w
  {
    var i := Inode(w[0], w[1], w[2], w[3], w[4], w[5], w[6], w[7], w[8], w[9], w[10..22], w[22], w[23], w[24],
                   w[25], w[26], w[27], w[28], w[29..]);
    assert w == w[..10] + w[10..22] + w[22..29] + w[29..];
    i
  }

  /** No two inodes have the same bytes. */
  lemma ToWordsInjective(i: Inode, j: Inode)
    requires i.WellFormed() && j.WellFormed() && i.ToWords() == j.ToWords()
    ensures i == j
  {
    var w, v := i.ToWords(), j.ToWords();
    assert w[10..22] == i.direct && v[10..22] == j.direct;
    assert w[29..] == i.osSpecific2 && v[29..] == j.osSpecific2;
    assert w[0] == v[0] && w[1] == v[1] && w[2] == v[2] && w[3] == v[3] && w[4] == v[4];
    assert w[5] == v[5] && w[6] == v[6] && w[7] == v[7] && w[8] == v[8] && w[9] == v[9];
    assert w[22] == v[22] && w[23] == v[23] && w[24] == v[24] && w[25] == v[25];
    assert w[26] == v[26] && w[27] == v[27] && w[28] == v[28];
  }

  /** The block of the inode table that holds inode `num`, and the place in it. */
  function SlotGroup(sb: Superblock, num: nat): nat
    requires num > 0 && sb.inodesPerGroup > 0
  {
    (num - 1) / sb.inodesPerGroup
  }

  function SlotStart(sb: Superblock, num: nat): nat
    requires num > 0 && sb.inodesPerGroup > 0
  {
    (num - 1) % sb.inodesPerGroup * sb.inodeSize
  }

  function SlotBlock(ds: seq<Descriptor>, sb: Superblock, num: nat): nat
    requires num > 0 && sb.inodesPerGroup > 0 && SlotGroup(sb, num) < |ds|
  {
    var start, bs: nat := SlotStart(sb, num), BlockSize(sb);
    Arith.QuotientAtLeast(start, bs, 0);
    ds[SlotGroup(sb, num)].inodeTable + start / bs
  }

  function SlotOffset(sb: Superblock, num: nat): nat
    requires num > 0 && sb.inodesPerGroup > 0
  {
    SlotStart(sb, num) % BlockSize(sb)
  }

  /** Inodes of at least 128 bytes that fill a block evenly, as the format prescribes. */
  predicate TableFormatted(sb: Superblock)
  {
    sb.inodesPerGroup > 0 && sb.inodeSize >= INODE_BYTES && BlockSize(sb) % sb.inodeSize == 0
  }

  /** Inode `num` exists and its table block is on the device and not a bitmap. */
  predicate ValidInodeNum(d: Disk, ds: seq<Descriptor>, sb: Superblock, num: nat)
  {
    && TableFormatted(sb) && 0 < num < 0x1_0000_0000 && SlotGroup(sb, num) < |ds|
    && SlotBlock(ds, sb, num) < |d| <= 0x1_0000_0000
    && SlotBlock(ds, sb, num) !in Bitmaps(ds)
  }

  /** The counters of free blocks do not matter to the place of an inode. */
  lemma SlotSameLayout(d: Disk, ds: seq<Descriptor>, sb: Superblock, d': Disk, ds': seq<Descriptor>, sb': Superblock,
          num: nat)
    requires ValidInodeNum(d, ds, sb, num) && SameLayout(ds, sb, ds', sb') && |d'| == |d| && Bitmaps(ds') == Bitmaps(ds)
    ensures ValidInodeNum(d', ds', sb', num)
    ensures SlotBlock(ds', sb', num) == SlotBlock(ds, sb, num) && SlotOffset(sb', num) == SlotOffset(sb, num)
  {
    hide SizeFromLog;
    var g := SlotGroup(sb, num);
    assert |Layout(ds)| == |Layout(ds')|;
    assert ds'[g].inodeTable == Layout(ds')[g].inodeTable == Layout(ds)[g].inodeTable == ds[g].inodeTable;
    assert SlotStart(sb', num) == SlotStart(sb, num);
  }

  /** A multiple of `size` below a multiple of `size` leaves room for one more. */
  lemma AlignedRoom(index: nat, size: nat, bs: nat)
    requires size > 0 && bs > 0 && bs % size == 0
    ensures index * size % bs + size <= bs && index * size % bs % size == 0
  {
    var k := bs / size;
    var q, r := index * size / bs, index * size % bs;
    assert bs == k * size;
    assert index * size == q * bs + r;
    assert q * bs == (q * k) * size;
    assert r == (index - q * k) * size;
    Arith.LessFactor(index - q * k, k, size);
    Arith.DivUnique(r, size, index - q * k, 0);
    Arith.MulMonotone(index - q * k + 1, k, size);
  }

  /** An inode never straddles two blocks. */
  lemma SlotFits(sb: Superblock, num: nat)
    requires TableFormatted(sb) && num > 0
    ensures SlotOffset(sb, num) + sb.inodeSize <= BlockSize(sb)
  {
    hide SizeFromLog;
    AlignedRoom((num - 1) % sb.inodesPerGroup, sb.inodeSize, BlockSize(sb));
  }

  /** `memcpy(buffer + offset, bytes)`. */
  function Patched(block: seq<byte>, offset: nat, bytes: seq<byte>): (r: seq<byte>)
    requires offset + |bytes| <= |block|
    ensures |r| == |block| && r[offset..offset + |bytes|] == bytes
    ensures forall i :: 0 <= i < |block| && (i < offset || i >= offset + |bytes|) ==> r[i] == block[i]
  {
    block[..offset] + bytes + block[offset + |bytes|..]
  }

  /** Reads an inode out of its table. */
  method LoadInode(fs: Ext2Fs, num: nat) returns (inode: Inode)
    requires Sound(fs.disk, fs.groups, fs.sb) && ValidInodeNum(fs.disk, fs.groups, fs.sb, num)
    ensures inode == InodeAt(fs.disk, fs.groups, fs.sb, num)
  {
    hide SizeFromLog;
    hide SlotBlock;
    hide SlotOffset;
    SlotFits(fs.sb, num);
    var blockNum, offsetInBlock := SlotBlock(fs.groups, fs.sb, num), SlotOffset(fs.sb, num);
    var answer := fs.ReadBlock(blockNum);
    var buffer := answer.bytes;
    inode := FromWords(Table(buffer[offsetInBlock..offsetInBlock + INODE_BYTES]));
  }

  /** The inode that the table on disk holds for `num`. */
  function InodeAt(d: Disk, ds: seq<Descriptor>, sb: Superblock, num: nat): Inode
    requires ValidInodeNum(d, ds, sb, num) && Sized(d, BlockSize(sb))
  {
    SlotFits(sb, num);
    var o := SlotOffset(sb, num);
    FromWords(Table(d[SlotBlock(ds, sb, num)][o..o + INODE_BYTES]))
  }

  /** The device after inode `num` was stored. */
  function StoredInode(d: Disk, ds: seq<Descriptor>, sb: Superblock, num: nat, inode: Inode): (d': Disk)
    requires ValidInodeNum(d, ds, sb, num) && Sized(d, BlockSize(sb)) && inode.WellFormed()
    ensures |d'| == |d| && Sized(d', BlockSize(sb))
    ensures forall b :: 0 <= b < |d| && b != SlotBlock(ds, sb, num) ==> d'[b] == d[b]
  {
    SlotFits(sb, num);
    var b := SlotBlock(ds, sb, num);
    d[b := Patched(d[b], SlotOffset(sb, num), Bytes(inode.ToWords()))]
  }

  /** Loading an inode that was just stored gives it back. */
  lemma InodeStored(d: Disk, ds: seq<Descriptor>, sb: Superblock, num: nat, inode: Inode)
    requires ValidInodeNum(d, ds, sb, num) && Sized(d, BlockSize(sb)) && inode.WellFormed()
    ensures InodeAt(StoredInode(d, ds, sb, num, inode), ds, sb, num) == inode
  {
    hide SizeFromLog;
    SlotFits(sb, num);
    var w, o := inode.ToWords(), SlotOffset(sb, num);
    assert StoredInode(d, ds, sb, num, inode)[SlotBlock(ds, sb, num)][o..o + INODE_BYTES] == Bytes(w);
    TableOfBytes(w);
    ToWordsInjective(InodeAt(StoredInode(d, ds, sb, num, inode), ds, sb, num), inode);
  }

  /** Writes an inode into its place in its table block. */
  method WriteInode(fs: Ext2Fs, num: nat, inode: Inode)
    requires Sound(fs.disk, fs.groups, fs.sb) && ValidInodeNum(fs.disk, fs.groups, fs.sb, num) && inode.WellFormed()
    modifies fs`disk
    ensures Sound(fs.disk, fs.groups, fs.sb) && fs.Free() == old(fs.Free())
    ensures fs.disk == StoredInode(old(fs.disk), fs.groups, fs.sb, num, inode)
    ensures InodeAt(fs.disk, fs.groups, fs.sb, num) == inode
  {
    hide SizeFromLog;
    hide SlotBlock;
    hide SlotOffset;
    hide Bytes;
    hide InodeAt;
    SlotFits(fs.sb, num);
    InodeStored(fs.disk, fs.groups, fs.sb, num, inode);
    var blockNum, byteOffset := SlotBlock(fs.groups, fs.sb, num), SlotOffset(fs.sb, num);
    var answer := fs.ReadBlock(blockNum);
    var buffer := answer.bytes;
    var copySize := if INODE_BYTES < fs.sb.inodeSize then INODE_BYTES else fs.sb.inodeSize;
    assert Bytes(inode.ToWords())[..copySize] == Bytes(inode.ToWords());
    var patched := Patched(buffer, byteOffset, Bytes(inode.ToWords())[..copySize]);
    assert old(fs.disk)[blockNum := patched] == StoredInode(old(fs.disk), fs.groups, fs.sb, num, inode);
    hide Sound;
    hide StoredInode;
    var stored := fs.WriteBlock(blockNum, patched);
  }

  /** The number of blocks of one inode table. */
  function TableBlocks(sb: Superblock): nat
  {
    var bytes, bs: nat := sb.inodesPerGroup * sb.inodeSize, BlockSize(sb);
    Arith.QuotientAtLeast(bytes, bs, 0);
    bytes / bs + 1
  }

  /** The inode tables of different groups share no block. */
  ghost predicate TablesApart(ds: seq<Descriptor>, sb: Superblock)
  {
    forall g, h :: 0 <= g < h < |ds| ==>
      ds[g].inodeTable + TableBlocks(sb) <= ds[h].inodeTable || ds[h].inodeTable + TableBlocks(sb) <= ds[g].inodeTable
  }

  lemma SlotInTable(ds: seq<Descriptor>, sb: Superblock, num: nat)
    requires TableFormatted(sb) && num > 0 && SlotGroup(sb, num) < |ds|
    ensures ds[SlotGroup(sb, num)].inodeTable <= SlotBlock(ds, sb, num)
          < ds[SlotGroup(sb, num)].inodeTable + TableBlocks(sb)
  {
    hide SizeFromLog;
    var index, bs: nat := (num - 1) % sb.inodesPerGroup, BlockSize(sb);
    Arith.MulMonotone(index, sb.inodesPerGroup, sb.inodeSize);
    Arith.QuotientAtLeast(index * sb.inodeSize, bs, 0);
    Arith.QuotientMonotone(index * sb.inodeSize, sb.inodesPerGroup * sb.inodeSize, bs);
  }

  lemma SameBlockApart(i: nat, j: nat, size: nat, bs: nat)
    requires i < j && size > 0 && bs > 0 && i * size / bs == j * size / bs
    ensures i * size % bs + size <= j * size % bs
  {
    Arith.MulMonotone(i + 1, j, size);
    assert i * size == bs * (i * size / bs) + i * size % bs;
    assert j * size == bs * (j * size / bs) + j * size % bs;
  }

  /** The places of two inodes do not overlap. */
  lemma SlotsApart(ds: seq<Descriptor>, sb: Superblock, a: nat, b: nat)
    requires TableFormatted(sb) && TablesApart(ds, sb) && a != b && a > 0 && b > 0
    requires SlotGroup(sb, a) < |ds| && SlotGroup(sb, b) < |ds| && SlotBlock(ds, sb, a) == SlotBlock(ds, sb, b)
    ensures SlotOffset(sb, a) + sb.inodeSize <= SlotOffset(sb, b)
         || SlotOffset(sb, b) + sb.inodeSize <= SlotOffset(sb, a)
  {
    hide SizeFromLog;
    hide TableBlocks;
    var g, h := SlotGroup(sb, a), SlotGroup(sb, b);
    SlotInTable(ds, sb, a);
    SlotInTable(ds, sb, b);
    assert g == h;
    var i, j := (a - 1) % sb.inodesPerGroup, (b - 1) % sb.inodesPerGroup;
    assert i != j by {
      Arith.DivUnique(a - 1, sb.inodesPerGroup, g, i);
      Arith.DivUnique(b - 1, sb.inodesPerGroup, h, j);
    }
    if i < j {
      SameBlockApart(i, j, sb.inodeSize, BlockSize(sb));
    } else {
      SameBlockApart(j, i, sb.inodeSize, BlockSize(sb));
    }
  }

  /** Storing one inode leaves every other inode as it was. */
  lemma OtherInodesKept(d: Disk, ds: seq<Descriptor>, sb: Superblock, num: nat, inode: Inode, other: nat)
    requires ValidInodeNum(d, ds, sb, num) && ValidInodeNum(d, ds, sb, other) && num != other
    requires Sized(d, BlockSize(sb)) && TablesApart(ds, sb) && inode.WellFormed()
    ensures InodeAt(StoredInode(d, ds, sb, num, inode), ds, sb, other) == InodeAt(d, ds, sb, other)
  {
    hide SizeFromLog;
    hide SlotBlock;
    hide SlotOffset;
    hide Bytes;
    hide Table;
    hide FromWords;
    SlotFits(sb, num);
    SlotFits(sb, other);
    var b := SlotBlock(ds, sb, other);
    if b == SlotBlock(ds, sb, num) {
      SlotsApart(ds, sb, num, other);
      PatchedElsewhere(d[b], SlotOffset(sb, num), Bytes(inode.ToWords()), SlotOffset(sb, other), INODE_BYTES);
    }
  }

  lemma PatchedElsewhere(block: seq<byte>, offset: nat, bytes: seq<byte>, o: nat, n: nat)
    requires offset + |bytes| <= |block| && o + n <= |block|
    requires offset + |bytes| <= o || o + n <= offset
    ensures Patched(block, offset, bytes)[o..o + n] == block[o..o + n]
  {
  }

  lemma TablesStayApart(ds: seq<Descriptor>, sb: Superblock, ds': seq<Descriptor>, sb': Superblock)
    requires SameLayout(ds, sb, ds', sb') && TablesApart(ds, sb)
    ensures TablesApart(ds', sb')
  {
    hide SizeFromLog;
    assert |Layout(ds)| == |Layout(ds')|;
    forall g | 0 <= g < |ds|
      ensures ds'[g].inodeTable == ds[g].inodeTable
    {
      assert Layout(ds')[g].inodeTable == Layout(ds)[g].inodeTable;
    }
    assert TableBlocks(sb') == TableBlocks(sb);
  }

  /** An inode depends on its table block and on the layout only. */
  lemma InodeKept(d: Disk, ds: seq<Descriptor>, sb: Superblock, d': Disk, ds': seq<Descriptor>, sb': Superblock,
          num: nat)
    requires ValidInodeNum(d, ds, sb, num) && Sized(d, BlockSize(sb)) && Sized(d', BlockSize(sb'))
    requires SameLayout(ds, sb, ds', sb') && |d'| == |d| && Bitmaps(ds') == Bitmaps(ds)
    requires d'[SlotBlock(ds, sb, num)] == d[SlotBlock(ds, sb, num)]
    ensures ValidInodeNum(d', ds', sb', num) && InodeAt(d', ds', sb', num) == InodeAt(d, ds, sb, num)
  {
    SlotSameLayout(d, ds, sb, d', ds', sb', num);
    hide SlotBlock;
    hide SlotOffset;
    hide ValidInodeNum;
    hide FromWords;
    hide Table;
  }
}
