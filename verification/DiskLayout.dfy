/** Where the bits of the bitmaps, the inodes and their fields lie on the disk, in numbers. */
module DiskLayout {
  import opened Powers
  import opened Words
  import opened Bitmap
  import opened BlockStore
  import opened InodeTable
  import Arith

  /** The little-endian number in the four bytes from `o` on. */
  function Number(b: seq<byte>, o: nat): nat
    requires o + 4 <= |b|
  {
    (b[o] as int) + 256 * (b[o + 1] as int) + 256 * 256 * (b[o + 2] as int) + 256 * 256 * 256 * (b[o + 3] as int)
  }

  // ---------------------------------------------------------------------------------------------
  // Blocks

  /** Block sizes double from 1 KiB on. */
  lemma BlockSizes(log: nat)
    ensures SizeFromLog(0) == 1024 && SizeFromLog(1) == 2048 && SizeFromLog(2) == 4096
    ensures SizeFromLog(log + 1) == 2 * SizeFromLog(log)
  {
  }

  /** The groups are as few as hold all blocks; only the last may be cut short. */
  lemma GroupsCover(sb: Superblock)
    requires sb.blocksPerGroup > 0
    ensures sb.blocks <= TotalGroups(sb) * sb.blocksPerGroup < sb.blocks + sb.blocksPerGroup
  {
    var x, n := sb.blocks + sb.blocksPerGroup - 1, sb.blocksPerGroup;
    assert x == n * (x / n) + x % n;
  }

  /** Bit `k` of a byte has the weight 2^k. */
  lemma BitOfByte(b: byte, k: nat)
    requires k < 8
    ensures ByteBit(b, k) <==> b / [1, 2, 4, 8, 16, 32, 64, 128][k] % 2 == 1
  {
    BitWeight(b, k);
    assert Pow2(0) == 1 && Pow2(1) == 2 && Pow2(2) == 4 && Pow2(3) == 8;
    assert Pow2(4) == 16 && Pow2(5) == 32 && Pow2(6) == 64 && Pow2(7) == 128;
    assert Pow2(k) == [1, 2, 4, 8, 16, 32, 64, 128][k];
  }

  lemma HalvedFirst(b: nat, p: nat)
    requires p > 0
    ensures b / (2 * p) == b / 2 / p
  {
    var h := b / 2;
    var q, r := h / p, h % p;
    assert h == p * q + r;
    Arith.DivUnique(b, 2 * p, q, 2 * r + b % 2) by {
      assert 2 * p * q == 2 * (p * q);
    }
  }

  lemma {:induction false} BitWeight(b: nat, k: nat)
    ensures ByteBit(b, k) <==> b / Pow2(k) % 2 == 1
  {
    if k > 0 {
      BitWeight(b / 2, k - 1);
      HalvedFirst(b, Pow2(k - 1));
    }
  }

  /**
   Block `first + g * perGroup + 8 * i + k` is free exactly if the bit of weight 2^k in byte `i` of the bitmap of
   group `g` is clear.
   */
  lemma FreeBit(d: Disk, ds: seq<Descriptor>, sb: Superblock, g: nat, i: nat, k: nat)
    requires Formatted(d, ds, sb) && g < |ds| && k < 8 && 8 * i + k < sb.blocksPerGroup
    ensures ds[g].bitmapBlock < |d| && i < |d[ds[g].bitmapBlock]|
    ensures var b := sb.firstDataBlock + g * sb.blocksPerGroup + 8 * i + k;
            IsFree(d, ds, sb, b) <==> d[ds[g].bitmapBlock][i] / [1, 2, 4, 8, 16, 32, 64, 128][k] % 2 == 0
  {
    BlockAtInverse(sb, g, 8 * i + k);
    assert (8 * i + k) / 8 == i && (8 * i + k) % 8 == k;
    BitOfByte(d[ds[g].bitmapBlock][i], k);
  }

  // ---------------------------------------------------------------------------------------------
  // Inodes

  /** Inode `g * perGroup + k + 1` is the `k`-th record of the table of group `g`. */
  lemma SlotAt(ds: seq<Descriptor>, sb: Superblock, g: nat, k: nat)
    requires g < |ds| && k < sb.inodesPerGroup
    ensures var num := g * sb.inodesPerGroup + k + 1;
            && SlotGroup(sb, num) == g && SlotOffset(sb, num) < BlockSize(sb)
            && SlotBlock(ds, sb, num) * BlockSize(sb) + SlotOffset(sb, num)
               == ds[g].inodeTable * BlockSize(sb) + k * sb.inodeSize
  {
    hide SizeFromLog;
    Arith.Locate(sb.inodesPerGroup, g, k);
    var start, bs: nat := k * sb.inodeSize, BlockSize(sb);
    Arith.QuotientAtLeast(start, bs, 0);
    assert start == bs * (start / bs) + start % bs;
    assert (ds[g].inodeTable + start / bs) * bs == ds[g].inodeTable * bs + start / bs * bs;
  }

  /** The places of the fields in the record of an inode. */
  lemma InodeFields(d: Disk, ds: seq<Descriptor>, sb: Superblock, num: nat)
    requires ValidInodeNum(d, ds, sb, num) && Sized(d, BlockSize(sb))
    ensures SlotOffset(sb, num) + 128 <= |d[SlotBlock(ds, sb, num)]|
    ensures var b, o, inode := d[SlotBlock(ds, sb, num)], SlotOffset(sb, num), InodeAt(d, ds, sb, num);
            && inode.typeAndUid == Number(b, o) && inode.sizeLow == Number(b, o + 4)
            && inode.accessTime == Number(b, o + 8) && inode.createTime == Number(b, o + 12)
            && inode.modTime == Number(b, o + 16) && inode.deleteTime == Number(b, o + 20)
            && inode.gidAndLinks == Number(b, o + 24) && inode.sectors == Number(b, o + 28)
            && inode.flags == Number(b, o + 32) && inode.osSpecific1 == Number(b, o + 36)
            && (forall k :: 0 <= k < 12 ==> inode.direct[k] == Number(b, o + 40 + 4 * k))
            && inode.single == Number(b, o + 88) && inode.double == Number(b, o + 92)
            && inode.triple == Number(b, o + 96) && inode.generation == Number(b, o + 100)
            && inode.extAttr == Number(b, o + 104) && inode.sizeHigh == Number(b, o + 108)
            && inode.fragment == Number(b, o + 112)
            && (forall k :: 0 <= k < 3 ==> inode.osSpecific2[k] == Number(b, o + 116 + 4 * k))
            && inode.Size() == Number(b, o + 4) + 0x1_0000_0000 * Number(b, o + 108)
  {
    hide SlotBlock;
    hide SlotOffset;
    hide SizeFromLog;
    SlotFits(sb, num);
    var b, o, inode := d[SlotBlock(ds, sb, num)], SlotOffset(sb, num), InodeAt(d, ds, sb, num);
    var w := Table(b[o..o + 128]);
    forall i | 0 <= i < 32
      ensures w[i] == Number(b, o + 4 * i)
    {
      WordNumber(b, o, i);
    }
    hide Number;
    hide Table;
    FieldsOfWords(inode, w);
    hide FromWords;
    hide InodeAt;
  }

  lemma WordNumber(b: seq<byte>, o: nat, i: nat)
    requires o + 128 <= |b| && i < 32
    ensures Table(b[o..o + 128])[i] == Number(b, o + 4 * i)
  {
  }

  lemma FieldsOfWords(inode: Inode, w: seq<uint32>)
    requires inode.WellFormed() && inode.ToWords() == w
    ensures |w| == 32 && inode.typeAndUid == w[0] && inode.sizeLow == w[1] && inode.accessTime == w[2]
    ensures inode.createTime == w[3] && inode.modTime == w[4] && inode.deleteTime == w[5] && inode.gidAndLinks == w[6]
    ensures inode.sectors == w[7] && inode.flags == w[8] && inode.osSpecific1 == w[9] && inode.direct == w[10..22]
    ensures inode.single == w[22] && inode.double == w[23] && inode.triple == w[24] && inode.generation == w[25]
    ensures inode.extAttr == w[26] && inode.sizeHigh == w[27] && inode.fragment == w[28]
    ensures inode.osSpecific2 == w[29..]
  {
  }

  /** Storing an inode changes no byte but the first 128 of its record. */
  lemma StoredBytes(d: Disk, ds: seq<Descriptor>, sb: Superblock, num: nat, inode: Inode, b: nat, x: nat)
    requires ValidInodeNum(d, ds, sb, num) && Sized(d, BlockSize(sb)) && inode.WellFormed()
    requires b < |d| && x < BlockSize(sb)
    requires b != SlotBlock(ds, sb, num) || !(SlotOffset(sb, num) <= x < SlotOffset(sb, num) + 128)
    ensures StoredInode(d, ds, sb, num, inode)[b][x] == d[b][x]
  {
    hide SlotBlock;
    hide SlotOffset;
    hide SizeFromLog;
    hide Bytes;
    SlotFits(sb, num);
  }
}
