/**
 The block device of an ext2 file system, its group descriptors and superblock counters, and the
 allocator over the block bitmaps (src/kernel/fs/ext/block.cpp).
 */
module BlockStore {
  import opened Options
  import opened Powers
  import opened Words
  import opened Bitmap
  import Arith

  /** The blocks of the device, from the start of the partition on. */
  type Disk = seq<seq<byte>>

  /** The two drivers. */
  datatype DeviceType = ATA | AHCI

  /** What becomes of a read: the block's bytes, a refusal that the driver reports, or a call that never returns. */
  datatype Answer = Data(bytes: seq<byte>) | Refused | Stuck

  /** A block group descriptor. */
  datatype Descriptor = Descriptor(bitmapBlock: uint32, inodeBitmapBlock: uint32, inodeTable: uint32,
                                   freeBlocks: nat, freeInodes: nat)

  /**
   The superblock fields in use. `logBlockSize` is the on-disk field `blk_size`. `firstDataBlock` is
   `superblock_blk_num`, the block of the first bit of the first bitmap; `groupOfSuperblock` is `blkgrp_superblk`.
   */
  datatype Superblock = Superblock(blocks: uint32, freeBlocks: nat, freeInodes: nat, logBlockSize: nat,
                                   blocksPerGroup: nat, inodesPerGroup: nat, inodeSize: nat, groupOfSuperblock: nat,
                                   firstDataBlock: nat)

  /** `1024 << log`, the block size that the superblock encodes. */
  function SizeFromLog(log: nat): (bs: nat)
    ensures bs % 4 == 0 && bs > 0
  {
    var quarter := 256 * Pow2(log);
    assert 4 * quarter % 4 == 0;
    4 * quarter
  }

  function BlockSize(sb: Superblock): nat
  {
    SizeFromLog(sb.logBlockSize)
  }

  function TotalGroups(sb: Superblock): nat
    requires sb.blocksPerGroup > 0
  {
    (sb.blocks + sb.blocksPerGroup - 1) / sb.blocksPerGroup
  }

  /** The block that bit `offset` of the bitmap of group `g` stands for. */
  function BlockAt(sb: Superblock, g: nat, offset: nat): nat
  {
    g * sb.blocksPerGroup + offset + sb.firstDataBlock
  }

  /** The number that the allocator computes for it. */
  function NumberOf(sb: Superblock, g: nat, offset: nat): nat
  {
    g * sb.blocksPerGroup + offset + sb.groupOfSuperblock
  }

  function GroupOf(sb: Superblock, b: nat): nat
    requires sb.blocksPerGroup > 0 && b >= sb.firstDataBlock
  {
    (b - sb.firstDataBlock) / sb.blocksPerGroup
  }

  function OffsetOf(sb: Superblock, b: nat): nat
    requires sb.blocksPerGroup > 0 && b >= sb.firstDataBlock
  {
    (b - sb.firstDataBlock) % sb.blocksPerGroup
  }

  /**
   The block whose bit the code takes for that of block `b`: it counts the bits from `groupOfSuperblock` on, in
   32 bits.
   */
  function MarkedFor(sb: Superblock, b: uint32): nat
  {
    (b - sb.groupOfSuperblock) % 0x1_0000_0000 + sb.firstDataBlock
  }

  /** The code counts the bits of the bitmaps from the block from which the format counts them. */
  predicate OffsetsAgree(sb: Superblock)
  {
    sb.groupOfSuperblock == sb.firstDataBlock
  }

  /** The group and offset that the allocator and the releaser compute are each other's inverse. */
  lemma BlockAtInverse(sb: Superblock, g: nat, offset: nat)
    requires offset < sb.blocksPerGroup
    ensures GroupOf(sb, BlockAt(sb, g, offset)) == g && OffsetOf(sb, BlockAt(sb, g, offset)) == offset
  {
    Arith.Locate(sb.blocksPerGroup, g, offset);
  }

  lemma BlockAtOfGroup(sb: Superblock, b: nat)
    requires sb.blocksPerGroup > 0 && b >= sb.firstDataBlock
    ensures BlockAt(sb, GroupOf(sb, b), OffsetOf(sb, b)) == b && OffsetOf(sb, b) < sb.blocksPerGroup
  {
  }

  /** Earlier groups hold the lower block numbers. */
  lemma BlockAtOrder(sb: Superblock, g: nat, offset: nat, h: nat, offset': nat)
    requires offset < sb.blocksPerGroup && offset' < sb.blocksPerGroup
    requires g < h || (g == h && offset <= offset')
    ensures BlockAt(sb, g, offset) <= BlockAt(sb, h, offset')
  {
    if g < h {
      Arith.MulMonotone(g + 1, h, sb.blocksPerGroup);
    }
  }

  // ---------------------------------------------------------------------------------------------
  // Where a block lies on the device

  /** The place of block `b` on the device: the product that gives its first sector is taken in 32 bits. */
  function Place(bs: nat, b: uint32): (p: nat)
    requires bs > 0
  {
    Arith.QuotientAtLeast(b * bs % 0x1_0000_0000, bs, 0);
    b * bs % 0x1_0000_0000 / bs
  }

  /** A device of this many blocks is no larger than 4 GiB. */
  predicate Addressable(blocks: nat, bs: nat)
  {
    blocks * bs <= 0x1_0000_0000
  }

  lemma InFourGiB(blocks: nat, bs: nat, b: nat)
    requires bs > 0 && Addressable(blocks, bs) && b < blocks
    ensures b * bs < 0x1_0000_0000
  {
    Arith.MulMonotone(b + 1, blocks, bs);
    assert (b + 1) * bs == b * bs + bs;
  }

  lemma FirstByte(bs: nat, b: uint32)
    requires bs > 0 && b * bs < 0x1_0000_0000
    ensures Place(bs, b) == b
  {
    Arith.DivUnique(b * bs, bs, b, 0);
  }

  /** On a device of at most 4 GiB every block is at its place. */
  lemma PlaceSame(blocks: nat, bs: nat, b: uint32)
    requires bs > 0 && Addressable(blocks, bs) && b < blocks
    ensures Place(bs, b) == b
  {
    hide Place;
    InFourGiB(blocks, bs, b);
    FirstByte(bs, b);
  }

  /** On a larger one, of blocks whose size divides 4 GiB, the block behind 4 GiB is at the place of block 0. */
  lemma EveryBlockAtItsPlaceIff(blocks: nat, bs: nat)
    requires 1 < bs < 0x1_0000_0000 && 0x1_0000_0000 % bs == 0 && blocks <= 0x1_0000_0000
    ensures (forall b: uint32 :: b < blocks ==> Place(bs, b) == b) <==> Addressable(blocks, bs)
  {
    if Addressable(blocks, bs) {
      forall b: uint32 | b < blocks
        ensures Place(bs, b) == b
      {
        PlaceSame(blocks, bs, b);
      }
    } else {
      var k := 0x1_0000_0000 / bs;
      assert k * bs == 0x1_0000_0000;
      Arith.LessFactor(k, blocks, bs);
      Arith.LessFactor(0, k, bs);
      Arith.LessFactor(k, 0x1_0000_0000, bs);
      Arith.DivUnique(0, bs, 0, 0);
      assert Place(bs, k) == 0;
    }
  }

  /** Blocks that lie 4 GiB apart are at the same place, if the block size divides 4 GiB. */
  lemma PlaceWraps(bs: nat, b: uint32)
    requires 0 < bs <= 0x1_0000_0000 && 0x1_0000_0000 % bs == 0
    ensures Place(bs, b) == b % (0x1_0000_0000 / bs)
  {
    var c := 0x1_0000_0000 / bs;
    assert c * bs == 0x1_0000_0000;
    var q, r := b / c, b % c;
    assert b == c * q + r;
    Arith.MulMonotone(r + 1, c, bs);
    assert b * bs == 0x1_0000_0000 * q + r * bs by {
      assert (c * q + r) * bs == c * bs * q + r * bs;
    }
    Arith.DivUnique(b * bs, 0x1_0000_0000, q, r * bs);
    Arith.DivUnique(r * bs, bs, r, 0);
  }

  /** Past the end of the device a read is refused or does not return; a write is refused or seems to be done. */
  lemma PastTheEnd(d: Disk, bs: nat, b: uint32)
    requires bs > 0 && Place(bs, b) >= |d|
    ensures Loaded(d, bs, AHCI, b) == Refused && Loaded(d, bs, ATA, b) == Stuck
    ensures !Acknowledged(d, bs, AHCI, b) && Acknowledged(d, bs, ATA, b)
  {
  }

  /**
   A read of block `b`. Past the end of the device the AHCI driver sees the error and leaves the buffer alone; the ATA
   driver waits for data without looking at the error (src/kernel/drivers/ata.cpp:197).
   */
  function Loaded(d: Disk, bs: nat, dev: DeviceType, b: uint32): Answer
    requires bs > 0
  {
    if Place(bs, b) < |d| then Data(d[Place(bs, b)]) else if dev.AHCI? then Refused else Stuck
  }

  /** Whether a write of block `b` is reported as done, which the ATA driver always does. */
  predicate Acknowledged(d: Disk, bs: nat, dev: DeviceType, b: uint32)
    requires bs > 0
  {
    dev.ATA? || Place(bs, b) < |d|
  }

  // ---------------------------------------------------------------------------------------------
  // Well-formed file systems

  function Bitmaps(ds: seq<Descriptor>): set<nat>
  {
    set g | 0 <= g < |ds| :: ds[g].bitmapBlock
  }

  /** All blocks of the device have `bs` bytes. */
  predicate Sized(d: Disk, bs: nat)
  {
    forall b :: 0 <= b < |d| ==> |d[b]| == bs
  }

  /** The sizes, group count and bitmap locations that `init_ext2_device` reads from a sound file system. */
  ghost predicate Formatted(d: Disk, ds: seq<Descriptor>, sb: Superblock)
  {
    && 0 < sb.blocksPerGroup <= 8 * BlockSize(sb)
    && sb.blocksPerGroup < 0x1_0000
    && |ds| == TotalGroups(sb)
    && Addressable(|d|, BlockSize(sb)) && |d| <= 0x1_0000_0000
    && |ds| * sb.blocksPerGroup + sb.groupOfSuperblock < 0x1_0000_0000
    && |ds| * sb.blocksPerGroup + sb.firstDataBlock < 0x1_0000_0000
    && Sized(d, BlockSize(sb))
    && (forall g :: 0 <= g < |ds| ==> ds[g].bitmapBlock < |d|)
    && (forall g, h :: 0 <= g < h < |ds| ==> ds[g].bitmapBlock != ds[h].bitmapBlock)
  }

  /** Whether `b` belongs to one of the block groups. */
  predicate InGroups(ds: seq<Descriptor>, sb: Superblock, b: nat)
  {
    sb.blocksPerGroup > 0 && b >= sb.firstDataBlock && GroupOf(sb, b) < |ds|
  }

  /** Whether the bitmap of its group marks block `b` as free. */
  predicate IsFree(d: Disk, ds: seq<Descriptor>, sb: Superblock, b: nat)
  {
    && InGroups(ds, sb, b)
    && ds[GroupOf(sb, b)].bitmapBlock < |d|
    && OffsetOf(sb, b) < 8 * |d[ds[GroupOf(sb, b)].bitmapBlock]|
    && !Bit(d[ds[GroupOf(sb, b)].bitmapBlock], OffsetOf(sb, b))
  }

  function FreeSet(d: Disk, ds: seq<Descriptor>, sb: Superblock): set<nat>
  {
    set b | 0 <= b < |d| && IsFree(d, ds, sb, b)
  }

  function SumFree(ds: seq<Descriptor>): nat
  {
    if ds == [] then 0 else SumFree(ds[..|ds| - 1]) + ds[|ds| - 1].freeBlocks
  }

  /** Every clear bit stands for a real block other than block 0, and no bitmap block is itself free. */
  ghost predicate BitmapsSound(d: Disk, ds: seq<Descriptor>, sb: Superblock)
    requires Formatted(d, ds, sb)
  {
    && (forall g, o :: 0 <= g < |ds| && 0 <= o < sb.blocksPerGroup && !Bit(d[ds[g].bitmapBlock], o)
          ==> 0 < BlockAt(sb, g, o) < |d| && BlockAt(sb, g, o) !in Bitmaps(ds))
  }

  /** Each group counter is its number of clear bits and the superblock counter is their sum. */
  ghost predicate CountersAgree(d: Disk, ds: seq<Descriptor>, sb: Superblock)
    requires Formatted(d, ds, sb)
  {
    && (forall g :: 0 <= g < |ds| ==> ds[g].freeBlocks == ClearBits(d[ds[g].bitmapBlock], sb.blocksPerGroup))
    && sb.freeBlocks == SumFree(ds)
  }

  ghost predicate Sound(d: Disk, ds: seq<Descriptor>, sb: Superblock)
  {
    Formatted(d, ds, sb) && BitmapsSound(d, ds, sb) && CountersAgree(d, ds, sb)
  }

  /** The descriptors without their counters of free blocks. */
  function Layout(ds: seq<Descriptor>): (l: seq<Descriptor>)
    ensures |l| == |ds|
  {
    seq(|ds|, g requires 0 <= g < |ds| => ds[g].(freeBlocks := 0))
  }

  /** Two metadata states that differ in their free-block counters only. */
  predicate SameLayout(ds: seq<Descriptor>, sb: Superblock, ds': seq<Descriptor>, sb': Superblock)
  {
    Layout(ds') == Layout(ds) && sb'.(freeBlocks := 0) == sb.(freeBlocks := 0)
  }

  lemma {:induction false} SumFreeUpdate(ds: seq<Descriptor>, g: nat, c: nat)
    requires g < |ds|
    ensures SumFree(ds[g := ds[g].(freeBlocks := c)]) == SumFree(ds) - ds[g].freeBlocks + c
  {
    var ds' := ds[g := ds[g].(freeBlocks := c)];
    var n := |ds| - 1;
    if g == n {
      assert ds'[..n] == ds[..n];
    } else {
      SumFreeUpdate(ds[..n], g, c);
      assert ds'[..n] == ds[..n][g := ds[g].(freeBlocks := c)];
    }
  }

  lemma {:induction false} SumFreeAtLeast(ds: seq<Descriptor>, g: nat)
    requires g < |ds|
    ensures ds[g].freeBlocks <= SumFree(ds)
  {
    var n := |ds| - 1;
    if g < n {
      SumFreeAtLeast(ds[..n], g);
    }
  }

  lemma {:induction false} SumFreeZero(ds: seq<Descriptor>)
    requires forall g :: 0 <= g < |ds| ==> ds[g].freeBlocks == 0
    ensures SumFree(ds) == 0
  {
    if ds != [] {
      SumFreeZero(ds[..|ds| - 1]);
    }
  }

  // ---------------------------------------------------------------------------------------------
  // Flipping one bit

  function MarkDisk(d: Disk, ds: seq<Descriptor>, g: nat, o: nat, used: bool): Disk
    requires g < |ds| && ds[g].bitmapBlock < |d| && o < 8 * |d[ds[g].bitmapBlock]|
  {
    d[ds[g].bitmapBlock := PutBit(d[ds[g].bitmapBlock], o, used)]
  }

  function MarkGroups(ds: seq<Descriptor>, g: nat, c: nat): seq<Descriptor>
    requires g < |ds|
  {
    ds[g := ds[g].(freeBlocks := c)]
  }

  /** Only the bit that is flipped changes; the layout stays. */
  lemma MarkBits(d: Disk, ds: seq<Descriptor>, sb: Superblock, g: nat, o: nat, used: bool, c: nat, s: nat)
    requires Formatted(d, ds, sb) && g < |ds| && o < sb.blocksPerGroup
    ensures var d', ds', sb' := MarkDisk(d, ds, g, o, used), MarkGroups(ds, g, c), sb.(freeBlocks := s);
            && Formatted(d', ds', sb') && SameLayout(ds, sb, ds', sb') && Bitmaps(ds') == Bitmaps(ds)
            && forall h, p :: 0 <= h < |ds| && 0 <= p < sb.blocksPerGroup
                 ==> Bit(d'[ds'[h].bitmapBlock], p) == if h == g && p == o then used else Bit(d[ds[h].bitmapBlock], p)
  {
    var d', ds', sb' := MarkDisk(d, ds, g, o, used), MarkGroups(ds, g, c), sb.(freeBlocks := s);
    assert forall h :: 0 <= h < |ds| ==> ds'[h].bitmapBlock == ds[h].bitmapBlock;
    assert Layout(ds') == Layout(ds);
    assert BlockSize(sb') == BlockSize(sb) && TotalGroups(sb') == TotalGroups(sb);
  }

  /** The free set gains or loses exactly the block whose bit is flipped. */
  lemma MarkFreeSet(d: Disk, ds: seq<Descriptor>, sb: Superblock, g: nat, o: nat, used: bool, d': Disk,
          ds': seq<Descriptor>, sb': Superblock)
    requires Formatted(d, ds, sb) && g < |ds| && o < sb.blocksPerGroup && BlockAt(sb, g, o) < |d|
    requires d' == MarkDisk(d, ds, g, o, used) && |ds'| == |ds| && ds' == MarkGroups(ds, g, ds'[g].freeBlocks)
    requires sb' == sb.(freeBlocks := sb'.freeBlocks)
    ensures used ==> FreeSet(d', ds', sb') == FreeSet(d, ds, sb) - {BlockAt(sb, g, o)}
    ensures !used ==> FreeSet(d', ds', sb') == FreeSet(d, ds, sb) + {BlockAt(sb, g, o)}
  {
    MarkBits(d, ds, sb, g, o, used, ds'[g].freeBlocks, sb'.freeBlocks);
    BlockAtInverse(sb, g, o);
    forall b | 0 <= b < |d| && b >= sb.firstDataBlock
      ensures IsFree(d', ds', sb', b) <==> if b == BlockAt(sb, g, o) then !used else IsFree(d, ds, sb, b)
    {
      BlockAtOfGroup(sb, b);
      assert GroupOf(sb', b) == GroupOf(sb, b) && OffsetOf(sb', b) == OffsetOf(sb, b);
    }
  }

  /** Both counters follow the bit that is flipped. */
  lemma MarkCounters(d: Disk, ds: seq<Descriptor>, sb: Superblock, g: nat, o: nat, used: bool, c: nat, s: nat)
    requires Formatted(d, ds, sb) && CountersAgree(d, ds, sb) && g < |ds| && o < sb.blocksPerGroup
    requires Bit(d[ds[g].bitmapBlock], o) != used
    requires c == ds[g].freeBlocks + (if used then -1 else 1) && s == sb.freeBlocks + (if used then -1 else 1)
    ensures var d', ds', sb' := MarkDisk(d, ds, g, o, used), MarkGroups(ds, g, c), sb.(freeBlocks := s);
            Formatted(d', ds', sb') && CountersAgree(d', ds', sb')
  {
    MarkBits(d, ds, sb, g, o, used, c, s);
    ClearBitsPut(d[ds[g].bitmapBlock], sb.blocksPerGroup, o, used);
    SumFreeUpdate(ds, g, c);
  }

  lemma MarkBitmapsSound(d: Disk, ds: seq<Descriptor>, sb: Superblock, g: nat, o: nat, used: bool, c: nat, s: nat)
    requires Formatted(d, ds, sb) && BitmapsSound(d, ds, sb) && g < |ds| && o < sb.blocksPerGroup
    ensures var d', ds', sb' := MarkDisk(d, ds, g, o, used), MarkGroups(ds, g, c), sb.(freeBlocks := s);
            Formatted(d', ds', sb')
            && (BitmapsSound(d', ds', sb') <==>
                used || (0 < BlockAt(sb, g, o) < |d| && BlockAt(sb, g, o) !in Bitmaps(ds)))
  {
    var d', ds', sb' := MarkDisk(d, ds, g, o, used), MarkGroups(ds, g, c), sb.(freeBlocks := s);
    MarkBits(d, ds, sb, g, o, used, c, s);
    assert forall h, p :: BlockAt(sb', h, p) == BlockAt(sb, h, p);
    assert !Bit(d'[ds'[g].bitmapBlock], o) <==> !used;
  }

  /** Both counters stay within the 16 and 32 bits of their fields. */
  lemma CountersFit(d: Disk, ds: seq<Descriptor>, sb: Superblock, g: nat, o: nat)
    requires Formatted(d, ds, sb) && CountersAgree(d, ds, sb) && g < |ds| && o < sb.blocksPerGroup
    ensures ds[g].freeBlocks <= sb.blocksPerGroup && ds[g].freeBlocks <= sb.freeBlocks < 0x1_0000_0000
    ensures Bit(d[ds[g].bitmapBlock], o) ==> ds[g].freeBlocks + 1 < 0x1_0000 && sb.freeBlocks + 1 < 0x1_0000_0000
  {
    SumFreeAtLeast(ds, g);
    SumFreeBound(ds, sb.blocksPerGroup);
    if Bit(d[ds[g].bitmapBlock], o) {
      ClearBitsPut(d[ds[g].bitmapBlock], sb.blocksPerGroup, o, false);
      assert ds[g].freeBlocks < sb.blocksPerGroup;
      SumFreeUpdate(ds, g, ds[g].freeBlocks + 1);
      SumFreeBound(ds[g := ds[g].(freeBlocks := ds[g].freeBlocks + 1)], sb.blocksPerGroup);
    }
  }

  /** Taking a free block keeps the file system sound. */
  lemma TakeSound(d: Disk, ds: seq<Descriptor>, sb: Superblock, g: nat, o: nat)
    requires Sound(d, ds, sb) && g < |ds| && o < sb.blocksPerGroup && !Bit(d[ds[g].bitmapBlock], o)
    ensures ds[g].freeBlocks > 0 && sb.freeBlocks > 0
    ensures Sound(MarkDisk(d, ds, g, o, true), MarkGroups(ds, g, ds[g].freeBlocks - 1),
            sb.(freeBlocks := sb.freeBlocks - 1))
  {
    hide Bit;
    hide ClearBits;
    ClearBitsZero(d[ds[g].bitmapBlock], sb.blocksPerGroup);
    CountersFit(d, ds, sb, g, o);
    MarkCounters(d, ds, sb, g, o, true, ds[g].freeBlocks - 1, sb.freeBlocks - 1);
    MarkBitmapsSound(d, ds, sb, g, o, true, ds[g].freeBlocks - 1, sb.freeBlocks - 1);
  }

  /** Clearing a bit that is already clear makes the group counter wrong. */
  lemma ReleaseFreeUnsound(d: Disk, ds: seq<Descriptor>, sb: Superblock, g: nat, o: nat, c: nat, s: nat)
    requires Sound(d, ds, sb) && g < |ds| && o < sb.blocksPerGroup && !Bit(d[ds[g].bitmapBlock], o)
    requires c == (ds[g].freeBlocks + 1) % 0x1_0000
    ensures !Sound(MarkDisk(d, ds, g, o, false), MarkGroups(ds, g, c), sb.(freeBlocks := s))
  {
    CountersFit(d, ds, sb, g, o);
    ClearBitsPut(d[ds[g].bitmapBlock], sb.blocksPerGroup, o, false);
    assert MarkDisk(d, ds, g, o, false)[ds[g].bitmapBlock] == PutBit(d[ds[g].bitmapBlock], o, false);
    assert MarkGroups(ds, g, c)[g] == ds[g].(freeBlocks := c);
  }

  /** Clearing a bit keeps the file system sound exactly when the block was in use and may be handed out. */
  lemma ReleaseSound(d: Disk, ds: seq<Descriptor>, sb: Superblock, g: nat, o: nat, c: nat, s: nat)
    requires Sound(d, ds, sb) && g < |ds| && o < sb.blocksPerGroup
    requires c == (ds[g].freeBlocks + 1) % 0x1_0000 && s == (sb.freeBlocks + 1) % 0x1_0000_0000
    ensures Sound(MarkDisk(d, ds, g, o, false), MarkGroups(ds, g, c), sb.(freeBlocks := s))
       <==> Bit(d[ds[g].bitmapBlock], o) && 0 < BlockAt(sb, g, o) < |d| && BlockAt(sb, g, o) !in Bitmaps(ds)
  {
    if Bit(d[ds[g].bitmapBlock], o) {
      CountersFit(d, ds, sb, g, o);
      MarkBitmapsSound(d, ds, sb, g, o, false, c, s);
      MarkCounters(d, ds, sb, g, o, false, c, s);
    } else {
      ReleaseFreeUnsound(d, ds, sb, g, o, c, s);
    }
  }

  lemma {:induction false} SumFreeBound(ds: seq<Descriptor>, n: nat)
    requires forall g :: 0 <= g < |ds| ==> ds[g].freeBlocks <= n
    ensures SumFree(ds) <= |ds| * n
  {
    if ds != [] {
      SumFreeBound(ds[..|ds| - 1], n);
      assert |ds| * n == (|ds| - 1) * n + n;
    }
  }

  // ---------------------------------------------------------------------------------------------
  // The mounted file system

  class Ext2Fs {
    var disk: Disk
    var groups: seq<Descriptor>
    var sb: Superblock

    const device: DeviceType

    constructor (disk: Disk, groups: seq<Descriptor>, sb: Superblock, device: DeviceType)
      ensures this.disk == disk && this.groups == groups && this.sb == sb && this.device == device
    {
      this.disk, this.groups, this.sb, this.device := disk, groups, sb, device;
    }

    /** A sound file system on which the code and the format agree about the bitmaps. */
    ghost predicate Valid()
      reads this
    {
      Sound(disk, groups, sb) && OffsetsAgree(sb)
    }

    /** The blocks that the bitmaps mark as free. */
    ghost function Free(): set<nat>
      reads this
    {
      FreeSet(disk, groups, sb)
    }

    /** Reads one block; `Stuck` stands for a call that does not return. */
    method ReadBlock(blockNum: uint32) returns (answer: Answer)
      ensures answer == Loaded(disk, BlockSize(sb), device, blockNum)
      ensures Addressable(|disk|, BlockSize(sb)) && blockNum < |disk| ==> answer == Data(disk[blockNum])
    {
      if Addressable(|disk|, BlockSize(sb)) && blockNum < |disk| {
        PlaceSame(|disk|, BlockSize(sb), blockNum);
      }
      var place := Place(BlockSize(sb), blockNum);
      answer := if place < |disk| then Data(disk[place]) else if device.AHCI? then Refused else Stuck;
    }

    /** Writes one block; past the end of the device nothing is written. */
    method WriteBlock(blockNum: uint32, data: seq<byte>) returns (ok: bool)
      modifies this`disk
      ensures ok <==> Acknowledged(old(disk), BlockSize(sb), device, blockNum)
      ensures var place := Place(BlockSize(sb), blockNum);
              disk == if place < |old(disk)| then old(disk)[place := data] else old(disk)
      ensures Addressable(|old(disk)|, BlockSize(sb)) && blockNum < |old(disk)| ==>
                ok && disk == old(disk)[blockNum := data]
      ensures (&& old(Sound(disk, groups, sb)) && |data| == BlockSize(sb)
               && Place(BlockSize(sb), blockNum) !in Bitmaps(groups)) ==>
                Sound(disk, groups, sb) && Free() == old(Free())
    {
      if Addressable(|disk|, BlockSize(sb)) && blockNum < |disk| {
        PlaceSame(|disk|, BlockSize(sb), blockNum);
      }
      var place := Place(BlockSize(sb), blockNum);
      ok := device.ATA? || place < |disk|;
      if place < |disk| {
        if Sound(disk, groups, sb) && place !in Bitmaps(groups) && |data| == BlockSize(sb) {
          DataBlockStored(disk, groups, sb, place, data);
        }
        disk := disk[place := data];
      }
    }

    method GetBlockBitmap(group: nat) returns (bitmap: Option<seq<byte>>)
      requires Formatted(disk, groups, sb)
      ensures bitmap == if group < |groups| then Some(disk[groups[group].bitmapBlock]) else None
    {
      if group >= TotalGroups(sb) {
        return None;
      }
      var answer := ReadBlock(groups[group].bitmapBlock);
      bitmap := Some(answer.bytes);
    }

    method WriteBlockBitmap(group: nat, bitmap: seq<byte>)
      requires Formatted(disk, groups, sb)
      modifies this`disk
      ensures disk == if group < |groups| then old(disk)[groups[group].bitmapBlock := bitmap] else old(disk)
    {
      if group >= TotalGroups(sb) {
        return;
      }
      var ok := WriteBlock(groups[group].bitmapBlock, bitmap);
    }

    /** The first clear bit of a bitmap, or `n` when the first `n` bits are all set. */
    method ScanBitmap(bitmap: seq<byte>, n: nat) returns (offset: nat)
      requires n <= 8 * |bitmap|
      ensures offset <= n && (offset < n ==> !Bit(bitmap, offset))
      ensures forall o :: 0 <= o < offset ==> Bit(bitmap, o)
    {
      offset := 0;
      while offset < n && Bit(bitmap, offset)
        invariant offset <= n
        invariant forall o :: 0 <= o < offset ==> Bit(bitmap, o)
      {
        offset := offset + 1;
      }
    }

    /**
     Marks a clear bit as used, persists the bitmap, lowers both counters, and computes the number of the
     block: that of the same offset from `groupOfSuperblock` on.
     */
    method TakeBlock(group: nat, offset: nat, bitmap: seq<byte>) returns (block: uint32)
      requires Sound(disk, groups, sb) && FirstClear(disk, groups, sb, group, offset)
      requires bitmap == disk[groups[group].bitmapBlock]
      modifies `disk, `groups, `sb
      ensures Sound(disk, groups, sb) && SameLayout(old(groups), old(sb), groups, sb)
      ensures Bitmaps(groups) == Bitmaps(old(groups))
      ensures MarkedFor(sb, block) == BlockAt(sb, group, offset) && 0 < MarkedFor(sb, block) < |disk|
      ensures Lowest(old(Free()), MarkedFor(sb, block))
      ensures Free() == old(Free()) - {MarkedFor(sb, block)}
      ensures OffsetsAgree(sb) ==> block == MarkedFor(sb, block)
      ensures sb.groupOfSuperblock <= sb.firstDataBlock ==> (block as nat in old(Free()) <==> OffsetsAgree(sb))
      ensures sb.freeBlocks == old(sb.freeBlocks) - 1 && |disk| == |old(disk)|
      ensures forall b :: 0 <= b < |disk| && b !in Bitmaps(groups) ==> disk[b] == old(disk)[b]
    {
      hide FreeSet;
      hide Addressable;
      hide BlockAt;
      HandedOut(groups, sb, group, offset, Free());
      block := NumberOf(sb, group, offset);
      hide NumberOf;
      hide MarkedFor;
      ClearBitCounted(disk, groups, sb, group, offset);
      WriteBlockBitmap(group, PutBit(bitmap, offset, true));
      groups := groups[group := groups[group].(freeBlocks := groups[group].freeBlocks - 1)];
      sb := sb.(freeBlocks := sb.freeBlocks - 1);
      TakeLowest(old(disk), old(groups), old(sb), group, offset, disk, groups, sb);
      SameNumbers(old(sb), sb.freeBlocks, group, offset, block);
    }

    /**
     Takes the bit of the lowest free block and hands out the block that the code takes for it, which is free
     exactly if the offsets agree. `None` stands for the kernel panic, which happens exactly when no block is
     free.
     */
    method AllocBlock() returns (block: Option<uint32>)
      requires Sound(disk, groups, sb)
      modifies `disk, `groups, `sb
      ensures Sound(disk, groups, sb) && SameLayout(old(groups), old(sb), groups, sb)
      ensures Bitmaps(groups) == Bitmaps(old(groups))
      ensures block.None? <==> old(sb.freeBlocks) == 0
      ensures block.None? <==> old(Free()) == {}
      ensures block.None? ==> disk == old(disk) && groups == old(groups) && sb == old(sb)
      ensures block.Some? ==> var b := MarkedFor(sb, block.value); Lowest(old(Free()), b) && 0 < b < |disk|
      ensures block.Some? ==>
                Free() == old(Free()) - {MarkedFor(sb, block.value)} && sb.freeBlocks == old(sb.freeBlocks) - 1
      ensures block.Some? && OffsetsAgree(sb) ==> block.value == MarkedFor(sb, block.value)
      ensures block.Some? && sb.groupOfSuperblock <= sb.firstDataBlock ==>
                (block.value as nat in old(Free()) <==> OffsetsAgree(sb))
      ensures |disk| == |old(disk)|
      ensures forall b :: 0 <= b < |disk| && b !in Bitmaps(groups) ==> disk[b] == old(disk)[b]
    {
      hide FreeSet;
      hide MarkedFor;
      hide Addressable;
      hide BlockAt;
      var totalGroups := TotalGroups(sb);
      var group := 0;
      while group < totalGroups
        invariant group <= totalGroups && disk == old(disk) && groups == old(groups) && sb == old(sb)
        invariant GroupsFull(disk, groups, sb, group)
      {
        FullGroup(disk, groups, sb, group);
        if groups[group].freeBlocks != 0 {
          var bitmap := GetBlockBitmap(group);
          var offset := ScanBitmap(bitmap.value, sb.blocksPerGroup);
          if offset < sb.blocksPerGroup {
            var taken := TakeBlock(group, offset, bitmap.value);
            return Some(taken);
          }
        }
        group := group + 1;
      }
      NothingFree(disk, groups, sb);
      block := None;
    }

    /**
     Clears the bit that the code takes for that of the block, and raises both counters. Block 0 and blocks
     outside all groups are ignored; otherwise the file system stays sound exactly when the block of that
     bit was allocated and is not a bitmap.
     */
    method FreeBlock(blockNum: uint32)
      requires Sound(disk, groups, sb)
      modifies `disk, `groups, `sb
      ensures SameLayout(old(groups), old(sb), groups, sb) && Formatted(disk, groups, sb)
      ensures Bitmaps(groups) == Bitmaps(old(groups))
      ensures (blockNum == 0 || !InGroups(old(groups), old(sb), MarkedFor(sb, blockNum))) ==>
                disk == old(disk) && groups == old(groups) && sb == old(sb)
      ensures |disk| == |old(disk)|
      ensures forall b :: 0 <= b < |disk| && b !in Bitmaps(groups) ==> disk[b] == old(disk)[b]
      ensures Sound(disk, groups, sb) <==>
                || blockNum == 0 || !InGroups(old(groups), old(sb), MarkedFor(sb, blockNum))
                || Releasable(old(disk), old(groups), old(sb), MarkedFor(sb, blockNum))
      ensures blockNum != 0 && Releasable(old(disk), old(groups), old(sb), MarkedFor(sb, blockNum)) ==>
                Free() == old(Free()) + {MarkedFor(sb, blockNum)} && sb.freeBlocks == old(sb.freeBlocks) + 1
    {
      hide Sound;
      hide FreeSet;
      hide SizeFromLog;
      SoundParts(disk, groups, sb);
      if blockNum == 0 {
        return;
      }
      var relative := (blockNum - sb.groupOfSuperblock) % 0x1_0000_0000;
      ghost var b := MarkedFor(sb, blockNum);
      assert b - sb.firstDataBlock == relative;
      Arith.QuotientAtLeast(relative, sb.blocksPerGroup, 0);
      var group := relative / sb.blocksPerGroup;
      var offset := relative % sb.blocksPerGroup;
      hide Formatted;
      var maybe := GetBlockBitmap(group);
      if maybe.None? {
        return;
      }
      GiveBack(group, offset, maybe.value, b);
    }

    /** Clears the bit of block `b`, persists the bitmap and raises both counters. */
    method GiveBack(group: nat, offset: nat, bitmap: seq<byte>, ghost b: nat)
      requires Sound(disk, groups, sb) && InGroups(groups, sb, b)
      requires group == GroupOf(sb, b) && offset == OffsetOf(sb, b)
      requires bitmap == disk[groups[group].bitmapBlock]
      modifies `disk, `groups, `sb
      ensures SameLayout(old(groups), old(sb), groups, sb) && Formatted(disk, groups, sb)
      ensures Bitmaps(groups) == Bitmaps(old(groups)) && |disk| == |old(disk)|
      ensures forall b :: 0 <= b < |disk| && b !in Bitmaps(groups) ==> disk[b] == old(disk)[b]
      ensures Sound(disk, groups, sb) <==> Releasable(old(disk), old(groups), old(sb), b)
      ensures Releasable(old(disk), old(groups), old(sb), b) ==>
                Free() == old(Free()) + {b} && sb.freeBlocks == old(sb.freeBlocks) + 1
    {
      hide BitmapsSound;
      hide CountersAgree;
      hide FreeSet;
      hide SizeFromLog;
      hide Addressable;
      BlockAtOfGroup(sb, b);
      var c := (groups[group].freeBlocks + 1) % 0x1_0000;
      var s := (sb.freeBlocks + 1) % 0x1_0000_0000;
      groups := groups[group := groups[group].(freeBlocks := c)];
      sb := sb.(freeBlocks := s);
      WriteBlockBitmap(group, PutBit(bitmap, offset, false));
      Release(old(disk), old(groups), old(sb), b, disk, groups, sb);
    }
  }

  lemma SoundParts(d: Disk, ds: seq<Descriptor>, sb: Superblock)
    requires Sound(d, ds, sb)
    ensures Formatted(d, ds, sb) && sb.blocksPerGroup > 0
  {
  }

  /** `b` is the lowest of these blocks. */
  ghost predicate Lowest(s: set<nat>, b: nat)
  {
    b in s && forall c :: c in s ==> b <= c
  }

  lemma SameNumbers(sb: Superblock, s: nat, g: nat, o: nat, b: uint32)
    ensures BlockAt(sb.(freeBlocks := s), g, o) == BlockAt(sb, g, o)
    ensures MarkedFor(sb.(freeBlocks := s), b) == MarkedFor(sb, b)
  {
  }

  /** The number that the allocator computes is that of the lowest free block exactly if the offsets agree. */
  lemma HandedOut(ds: seq<Descriptor>, sb: Superblock, g: nat, o: nat, free: set<nat>)
    requires o < sb.blocksPerGroup && g < |ds|
    requires |ds| * sb.blocksPerGroup + sb.groupOfSuperblock < 0x1_0000_0000
    ensures var b := NumberOf(sb, g, o);
            && b < 0x1_0000_0000 && MarkedFor(sb, b) == BlockAt(sb, g, o)
            && (b == BlockAt(sb, g, o) <==> OffsetsAgree(sb))
            && (sb.groupOfSuperblock <= sb.firstDataBlock && Lowest(free, BlockAt(sb, g, o)) ==>
                  (b in free <==> OffsetsAgree(sb)))
  {
    Arith.MulMonotone(g + 1, |ds|, sb.blocksPerGroup);
    assert (g + 1) * sb.blocksPerGroup == g * sb.blocksPerGroup + sb.blocksPerGroup;
  }

  /** The first `n` groups have no clear bit. */
  ghost predicate GroupsFull(d: Disk, ds: seq<Descriptor>, sb: Superblock, n: nat)
    requires Formatted(d, ds, sb) && n <= |ds|
  {
    forall h, p :: 0 <= h < n && 0 <= p < sb.blocksPerGroup ==> Bit(d[ds[h].bitmapBlock], p)
  }

  /** Bit `o` of group `g` is the first clear bit of the file system. */
  ghost predicate FirstClear(d: Disk, ds: seq<Descriptor>, sb: Superblock, g: nat, o: nat)
    requires Formatted(d, ds, sb)
  {
    && g < |ds| && o < sb.blocksPerGroup && !Bit(d[ds[g].bitmapBlock], o)
    && GroupsFull(d, ds, sb, g)
    && (forall p :: 0 <= p < o ==> Bit(d[ds[g].bitmapBlock], p))
  }

  /** The contents of blocks other than the bitmaps do not matter to the allocator. */
  lemma DataBlockStored(d: Disk, ds: seq<Descriptor>, sb: Superblock, b: uint32, data: seq<byte>)
    requires Sound(d, ds, sb) && b < |d| && b !in Bitmaps(ds) && |data| == BlockSize(sb)
    ensures Sound(d[b := data], ds, sb) && FreeSet(d[b := data], ds, sb) == FreeSet(d, ds, sb)
  {
    var d' := d[b := data];
    assert forall g :: 0 <= g < |ds| ==>
        ds[g].bitmapBlock in Bitmaps(ds) && d'[ds[g].bitmapBlock] == d[ds[g].bitmapBlock];
    assert forall c :: 0 <= c < |d| ==> (IsFree(d', ds, sb, c) <==> IsFree(d, ds, sb, c));
  }

  /** An allocated block that a file may own: on the device, marked used and not itself a bitmap. */
  predicate Releasable(d: Disk, ds: seq<Descriptor>, sb: Superblock, b: nat)
  {
    0 < b < |d| && InGroups(ds, sb, b) && !IsFree(d, ds, sb, b) && b !in Bitmaps(ds)
  }

  /** Everything that taking the first clear bit does. */
  lemma TakeLowest(d: Disk, ds: seq<Descriptor>, sb: Superblock, g: nat, o: nat, d': Disk, ds': seq<Descriptor>,
          sb': Superblock)
    requires Sound(d, ds, sb) && FirstClear(d, ds, sb, g, o)
    requires ds[g].freeBlocks > 0 && sb.freeBlocks > 0
    requires d' == MarkDisk(d, ds, g, o, true)
    requires ds' == MarkGroups(ds, g, ds[g].freeBlocks - 1) && sb' == sb.(freeBlocks := sb.freeBlocks - 1)
    ensures Lowest(FreeSet(d, ds, sb), BlockAt(sb, g, o)) && 0 < BlockAt(sb, g, o) < |d|
    ensures Sound(d', ds', sb') && SameLayout(ds, sb, ds', sb') && Bitmaps(ds') == Bitmaps(ds)
    ensures FreeSet(d', ds', sb') == FreeSet(d, ds, sb) - {BlockAt(sb, g, o)}
  {
    LowestFree(d, ds, sb, g, o);
    assert Sound(d', ds', sb') by {
      TakeSound(d, ds, sb, g, o);
    }
    assert SameLayout(ds, sb, ds', sb') && Bitmaps(ds') == Bitmaps(ds) by {
      MarkBits(d, ds, sb, g, o, true, ds[g].freeBlocks - 1, sb.freeBlocks - 1);
    }
    assert FreeSet(d', ds', sb') == FreeSet(d, ds, sb) - {BlockAt(sb, g, o)} by {
      MarkFreeSet(d, ds, sb, g, o, true, d', ds', sb');
    }
  }

  /** Everything that clearing the bit of a block in a group does. */
  lemma Release(d: Disk, ds: seq<Descriptor>, sb: Superblock, b: nat, d': Disk, ds': seq<Descriptor>, sb': Superblock)
    requires Sound(d, ds, sb) && InGroups(ds, sb, b)
    requires OffsetOf(sb, b) < sb.blocksPerGroup
    requires d' == MarkDisk(d, ds, GroupOf(sb, b), OffsetOf(sb, b), false)
    requires ds' == MarkGroups(ds, GroupOf(sb, b), (ds[GroupOf(sb, b)].freeBlocks + 1) % 0x1_0000)
    requires sb' == sb.(freeBlocks := (sb.freeBlocks + 1) % 0x1_0000_0000)
    ensures Formatted(d', ds', sb') && SameLayout(ds, sb, ds', sb') && Bitmaps(ds') == Bitmaps(ds)
    ensures Sound(d', ds', sb') <==> Releasable(d, ds, sb, b)
    ensures Releasable(d, ds, sb, b) ==>
              sb'.freeBlocks == sb.freeBlocks + 1 && FreeSet(d', ds', sb') == FreeSet(d, ds, sb) + {b}
  {
    hide BitmapsSound;
    hide CountersAgree;
    hide FreeSet;
    hide SizeFromLog;
    hide Addressable;
    BlockAtOfGroup(sb, b);
    var g, o := GroupOf(sb, b), OffsetOf(sb, b);
    assert Formatted(d', ds', sb') && SameLayout(ds, sb, ds', sb') && Bitmaps(ds') == Bitmaps(ds) by {
      MarkBits(d, ds, sb, g, o, false, ds'[g].freeBlocks, sb'.freeBlocks);
    }
    assert Sound(d', ds', sb') <==> Releasable(d, ds, sb, b) by {
      ReleaseSound(d, ds, sb, g, o, ds'[g].freeBlocks, sb'.freeBlocks);
    }
    if Releasable(d, ds, sb, b) {
      CountersFit(d, ds, sb, g, o);
      MarkFreeSet(d, ds, sb, g, o, false, d', ds', sb');
    }
  }

  /** A group with a clear bit has a positive counter, and so has the superblock. */
  lemma ClearBitCounted(d: Disk, ds: seq<Descriptor>, sb: Superblock, g: nat, o: nat)
    requires Sound(d, ds, sb) && g < |ds| && o < sb.blocksPerGroup && !Bit(d[ds[g].bitmapBlock], o)
    ensures 0 < ds[g].freeBlocks <= sb.freeBlocks
  {
    ClearBitsZero(d[ds[g].bitmapBlock], sb.blocksPerGroup);
    SumFreeAtLeast(ds, g);
  }

  /** A group whose counter is zero has no clear bit. */
  lemma FullGroup(d: Disk, ds: seq<Descriptor>, sb: Superblock, g: nat)
    requires Sound(d, ds, sb) && g < |ds|
    ensures ds[g].freeBlocks == 0 <==> forall o :: 0 <= o < sb.blocksPerGroup ==> Bit(d[ds[g].bitmapBlock], o)
  {
    ClearBitsZero(d[ds[g].bitmapBlock], sb.blocksPerGroup);
  }

  /** With every earlier bit set, the first clear bit is the lowest free block of the file system. */
  lemma LowestFree(d: Disk, ds: seq<Descriptor>, sb: Superblock, g: nat, o: nat)
    requires Sound(d, ds, sb) && FirstClear(d, ds, sb, g, o)
    ensures Lowest(FreeSet(d, ds, sb), BlockAt(sb, g, o)) && 0 < BlockAt(sb, g, o) < |d|
  {
    BlockAtInverse(sb, g, o);
    forall b | b in FreeSet(d, ds, sb)
      ensures BlockAt(sb, g, o) <= b
    {
      BlockAtOfGroup(sb, b);
      var h, p := GroupOf(sb, b), OffsetOf(sb, b);
      BlockAtOrder(sb, g, o, h, p);
    }
  }

  lemma NothingFree(d: Disk, ds: seq<Descriptor>, sb: Superblock)
    requires Sound(d, ds, sb) && GroupsFull(d, ds, sb, |ds|)
    ensures FreeSet(d, ds, sb) == {} && sb.freeBlocks == 0
  {
    forall g | 0 <= g < |ds|
      ensures ds[g].freeBlocks == 0
    {
      FullGroup(d, ds, sb, g);
    }
    SumFreeZero(ds);
    forall b | b in FreeSet(d, ds, sb)
      ensures false
    {
      BlockAtOfGroup(sb, b);
    }
  }

  /** A block number below that from which the code counts wraps around to an offset past the last group. */
  lemma WrapsPastLastGroup(d: Disk, ds: seq<Descriptor>, sb: Superblock, b: uint32)
    requires Formatted(d, ds, sb) && b < sb.groupOfSuperblock
    ensures !InGroups(ds, sb, MarkedFor(sb, b))
  {
    var relative := (b - sb.groupOfSuperblock) % 0x1_0000_0000;
    assert relative == b - sb.groupOfSuperblock + 0x1_0000_0000;
    Arith.QuotientAtLeast(relative, sb.blocksPerGroup, |ds|);
  }

  /** Where the offsets agree, the code takes the bit of a block of the groups for what it is. */
  lemma MarkedSame(ds: seq<Descriptor>, sb: Superblock, b: uint32)
    requires OffsetsAgree(sb) && InGroups(ds, sb, b)
    ensures MarkedFor(sb, b) == b
  {
  }
}
