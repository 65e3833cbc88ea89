/** Concrete files on which the code does not do what it is for. */
module FileFault {
  import opened Options
  import opened Powers
  import opened Words
  import Bitmap
  import opened BlockStore
  import opened BlockTree
  import opened FileWriteSpec
  import opened FileWrite
  import opened InodeTable
  import opened FileRead
  import opened FileReadProofs
  import opened FileText
  import opened FileFree
  import opened FileRuns
  import Arith

  /** Pointers to consecutive blocks from `first` on. */
  ghost predicate Consecutive(d: Disk, t: seq<uint32>, first: nat)
  {
    0 < first && first + |t| <= |d| && forall i :: 0 <= i < |t| ==> t[i] == first + i
  }

  lemma {:induction false} LeavesReach(d: Disk, n: nat, t: seq<uint32>, first: nat)
    requires Consecutive(d, t, first)
    ensures Sep(d, n, Roots(t, 0)) && forall b :: b in Reach(d, n, Roots(t, 0)) <==> first <= b < first + |t|
  {
    if t != [] {
      LeavesReach(d, n, t[1..], first + 1);
      assert Roots(t, 0)[1..] == Roots(t[1..], 0);
      assert Reach(d, n, [Roots(t, 0)[0]]) == {first};
    }
  }

  /** A block of one character. */
  function Letters(c: byte): (b: seq<byte>)
    ensures |b| == 1024
  {
    seq(1024, _ => c)
  }

  lemma {:induction false} LeavesBytes(d: Disk, n: nat, t: seq<uint32>, first: nat, c: byte)
    requires Consecutive(d, t, first) && forall b :: first <= b < first + |t| ==> d[b] == Letters(c)
    ensures Content(d, n, 1024, Roots(t, 0)) == seq(1024 * |t|, _ => c)
  {
    if t != [] {
      assert Roots(t, 0)[1..] == Roots(t[1..], 0);
      LeavesBytes(d, n, t[1..], first + 1, c);
    }
  }

  lemma {:induction false} LeavesBacked(d: Disk, n: nat, bs: nat, t: seq<uint32>, first: nat, m: nat)
    requires Consecutive(d, t, first) && m <= |t| * bs
    ensures Backed(d, n, bs, Roots(t, 0), m)
  {
    if m > 0 {
      var f := Roots(t, 0);
      assert f[1..] == Roots(t[1..], 0);
      assert |t| * bs == (|t| - 1) * bs + bs;
      LeavesBacked(d, n, bs, t[1..], first + 1, m - Min(m, bs));
      BackedCons(d, n, bs, f, m, Min(m, bs));
    }
  }

  /** An inode with direct blocks and one table behind the single indirect pointer. */
  function WithTable(direct: seq<uint32>, single: uint32, size: uint32): Inode
  {
    Inode(0, size, 0, 0, 0, 0, 0, 0, 0, 0, direct, single, 0, 0, 0, 0, 0, 0, seq(3, _ => 0))
  }

  /** A table of a few entries, and null pointers behind them. */
  function Padded(t: seq<uint32>, n: nat): (p: seq<uint32>)
    requires |t| <= n
    ensures |p| == n
  {
    t + seq(n - |t|, _ => 0)
  }

  lemma PaddedRoots(t: seq<uint32>, n: nat)
    requires |t| <= n
    ensures Roots(Padded(t, n), 0) == Roots(t, 0) + Roots(seq(n - |t|, _ => 0), 0)
    ensures AllNull(Roots(seq(n - |t|, _ => 0), 0))
  {
  }

  /** The table of these entries in block `p`. */
  lemma TableKids(d: Disk, n: nat, p: uint32, t: seq<uint32>)
    requires 0 < p < |d| && |t| <= n && d[p] == Bytes(Padded(t, n))
    ensures Kids(d, n, Root(p, 1)) == Roots(t, 0) + Roots(seq(n - |t|, _ => 0), 0)
  {
    TableOfBytes(Padded(t, n));
    KidsLoaded(d, n, Root(p, 1));
    PaddedRoots(t, n);
  }

  /** The blocks below such a table. */
  lemma TableReach(d: Disk, n: nat, p: uint32, t: seq<uint32>, first: nat)
    requires 0 < p < |d| && |t| <= n && d[p] == Bytes(Padded(t, n)) && Consecutive(d, t, first)
    requires p < first || first + |t| <= p
    ensures Sep(d, n, [Root(p, 1)])
    ensures forall b :: b in Reach(d, n, [Root(p, 1)]) <==> b == p || first <= b < first + |t|
  {
    TableKids(d, n, p, t);
    LeavesReach(d, n, t, first);
    var f, g := Roots(t, 0), Roots(seq(n - |t|, _ => 0), 0);
    PaddedRoots(t, n);
    NullReach(d, n, g);
    ReachConcat(d, n, f, g);
    SepConcat(d, n, f, g);
    NodeContent(d, n, 4 * n, Root(p, 1));
  }

  /** Such an inode as a whole. */
  lemma FileReach(d: Disk, n: nat, direct: seq<uint32>, p: uint32, size: uint32)
    requires |direct| == 12
    ensures var f := WithTable(direct, p, size).Forest();
            && Reach(d, n, f) == Reach(d, n, Roots(direct, 0)) + Reach(d, n, [Root(p, 1)])
            && (Sep(d, n, f) <==> Sep(d, n, Roots(direct, 0)) && Sep(d, n, [Root(p, 1)])
                                  && Reach(d, n, Roots(direct, 0)) !! Reach(d, n, [Root(p, 1)]))
  {
    hide Reach;
    hide Sep;
    var f, g := Roots(direct, 0) + [Root(p, 1)], [Root(0, 2)] + [Root(0, 3)];
    assert WithTable(direct, p, size).Forest() == f + g;
    NullReach(d, n, g);
    ReachConcat(d, n, f, g);
    SepConcat(d, n, f, g);
    ReachConcat(d, n, Roots(direct, 0), [Root(p, 1)]);
    SepConcat(d, n, Roots(direct, 0), [Root(p, 1)]);
  }

  // ---------------------------------------------------------------------------------------------
  // A table that leaks

  const LEAK: Inode := WithTable(seq(12, _ => 0), 2, 13 * 1024)

  /** Block 2 is a table whose first entry leads to block 3. */
  function LeakDisk(): (d: Disk)
    ensures |d| == 4 && Sized(d, 1024) && d[2] == Bytes(Padded([3], 256))
  {
    [Zeros(1024), Zeros(1024), Bytes(Padded([3], 256)), Zeros(1024)]
  }

  /** The code never releases block 3 of this file, on whatever file system of 1 KiB blocks. */
  lemma TableLeaks(sb: Superblock)
    requires sb.logBlockSize == 0
    ensures PerBlock(sb) == 256 && LEAK.WellFormed() && Sep(LeakDisk(), 256, LEAK.Forest())
    ensures 3 in Reach(LeakDisk(), 256, LEAK.Forest())
    ensures CodedEntries(sb) == 0 && Reach(LeakDisk(), CodedEntries(sb), LEAK.Forest()) == {2}
  {
    hide Letters;
    hide Kids;
    hide Sep;
    var d := LeakDisk();
    assert Pow2(0) == 1;
    TableReach(d, 256, 2, [3], 3);
    hide LeakDisk;
    hide Padded;
    hide Bytes;
    NullReach(d, 256, Roots(LEAK.direct, 0));
    FileReach(d, 256, LEAK.direct, 2, 13 * 1024);
    CodedEntriesFew(sb);
    NullReach(d, 0, Roots(LEAK.direct, 0));
    FileReach(d, 0, LEAK.direct, 2, 13 * 1024);
    NodeContent(d, 0, 1024, Root(2, 1));
    NoKids(d, Root(2, 1));
  }

  lemma NoKids(d: Disk, r: Root)
    ensures Kids(d, 0, r) == []
  {
  }

  // ---------------------------------------------------------------------------------------------
  // Text that is lost

  const TWELVE: seq<uint32> := [1, 2, 3, 4, 5, 6, 7, 8, 9, 10, 11, 12]
  const LOST: Inode := WithTable(TWELVE, 13, 14 * 1024)

  ghost predicate LostShape(d: Disk)
  {
    && |d| == 16 && Sized(d, 1024) && d[13] == Bytes(Padded([14, 15], 256)) && d[15] == Letters(98)
    && forall b :: 1 <= b < 13 || b == 14 ==> d[b] == Letters(97)
  }

  function LostBlock(table: seq<byte>, b: int): (block: seq<byte>)
    ensures |table| == 1024 ==> |block| == 1024
  {
    if b == 13 then table else if b == 15 then Letters(98) else Letters(97)
  }

  /** A file of thirteen blocks of the letter `a` and one of the letter `b`, with its table in block 13. */
  function LostDisk(): (d: Disk)
    ensures LostShape(d)
  {
    var table := Bytes(Padded([14, 15], 256));
    seq(16, b => LostBlock(table, b))
  }

  lemma LostReach(d: Disk)
    requires LostShape(d)
    ensures LOST.WellFormed() && Sep(d, 256, LOST.Forest())
  {
    LeavesReach(d, 256, TWELVE, 1);
    TableReach(d, 256, 13, [14, 15], 14);
    FileReach(d, 256, TWELVE, 13, 14 * 1024);
  }

  lemma TwoLeaves(d: Disk)
    requires LostShape(d)
    ensures Content(d, 256, 1024, Roots([14, 15], 0)) == Letters(97) + Letters(98)
  {
    assert Roots([14, 15], 0) == Roots([14], 0) + Roots([15], 0);
    ContentConcat(d, 256, 1024, Roots([14], 0), Roots([15], 0));
    LeavesBytes(d, 256, [14], 14, 97);
    LeavesBytes(d, 256, [15], 15, 98);
  }

  lemma LostTable(d: Disk)
    requires LostShape(d)
    ensures Letters(97) + Letters(98) <= Content(d, 256, 1024, [Root(13, 1)])
  {
    hide Letters;
    var nulls := Roots(seq(256 - 2, _ => 0), 0);
    TableKids(d, 256, 13, [14, 15]);
    TwoLeaves(d);
    hide LostShape;
    hide Content;
    NodeContent(d, 256, 1024, Root(13, 1));
    ContentConcat(d, 256, 1024, Roots([14, 15], 0), nulls);
  }

  lemma ThirteenBlocks(a: seq<byte>, t: seq<byte>, rest: seq<byte>)
    requires a == seq(12 * 1024, _ => 97) && Letters(97) + Letters(98) <= t
    ensures seq(13 * 1024, _ => 97 as byte) + Letters(98) <= a + t + rest
  {
    var tail := t[2 * 1024..];
    assert t == Letters(97) + Letters(98) + tail;
    assert a + Letters(97) == seq(13 * 1024, _ => 97 as byte);
    assert a + t + rest == (a + Letters(97)) + Letters(98) + (tail + rest);
  }

  lemma LostContent(d: Disk)
    requires LostShape(d)
    ensures seq(13 * 1024, _ => 97 as byte) + Letters(98) <= Content(d, 256, 1024, LOST.Forest())
  {
    var f0, r, g := Roots(TWELVE, 0), Root(13, 1), [Root(0, 2)] + [Root(0, 3)];
    assert LOST.Forest() == f0 + [r] + g;
    LeavesBytes(d, 256, TWELVE, 1, 97);
    LostTable(d);
    hide Content;
    hide LostShape;
    hide Letters;
    ContentConcat(d, 256, 1024, f0 + [r], g);
    ContentConcat(d, 256, 1024, f0, [r]);
    ThirteenBlocks(Content(d, 256, 1024, f0), Content(d, 256, 1024, [r]), Content(d, 256, 1024, g));
  }

  lemma LostTableBacked(d: Disk)
    requires LostShape(d)
    ensures Backed(d, 256, 1024, [Root(13, 1)], 2 * 1024) && Caps(256, 1024, [Root(13, 1)]) == 256 * 1024
  {
    hide Kids;
    hide Content;
    hide Bytes;
    hide Padded;
    hide Letters;
    hide Backed;
    TableKids(d, 256, 13, [14, 15]);
    assert Consecutive(d, [14, 15], 14);
    hide LostShape;
    hide Consecutive;
    NodeCaps(256, 1024, Root(13, 1), d);
    assert Cap(256, 1024, 1) == 256 * Cap(256, 1024, 0);
    NodeMissing(d, 256, 1024, Root(13, 1), 2 * 1024);
    var nulls := Roots(seq(256 - 2, _ => 0), 0);
    CapsOfLevel(256, 1024, Roots([14, 15], 0), 0);
    BackedConcat(d, 256, 1024, Roots([14, 15], 0), nulls, 2 * 1024, 0, 2 * 1024);
    NoBytes(d, 256, 1024, nulls);
    LeavesBacked(d, 256, 1024, [14, 15], 14, 2 * 1024);
  }

  lemma LostBacked(d: Disk)
    requires LostShape(d)
    ensures Backed(d, 256, 1024, LOST.Forest(), 14 * 1024)
  {
    var f0, r, g := Roots(TWELVE, 0), Root(13, 1), [Root(0, 2)] + [Root(0, 3)];
    assert LOST.Forest() == f0 + ([r] + g);
    assert Consecutive(d, TWELVE, 1);
    LostTableBacked(d);
    hide LostShape;
    hide Backed;
    hide Caps;
    CapsOfLevel(256, 1024, f0, 0);
    assert Cap(256, 1024, 0) == 1024;
    BackedConcat(d, 256, 1024, f0, [r] + g, 12 * 1024, 2 * 1024, 14 * 1024);
    LeavesBacked(d, 256, 1024, TWELVE, 1, 12 * 1024);
    BackedConcat(d, 256, 1024, [r], g, 2 * 1024, 0, 2 * 1024);
    NoBytes(d, 256, 1024, g);
  }

  lemma NoBytes(d: Disk, n: nat, bs: nat, f: Forest)
    ensures Backed(d, n, bs, f, 0)
  {
  }

  /** Four letters `a`, taken for a pointer, lead past the end of this device. */
  lemma LettersLeadNowhere(v: Volume)
    requires v.bs == 1024 && |v.disk| == 16
    ensures forall k {:trigger Word(Letters(97), k)} :: 0 <= k < 256 ==>
              var w := Word(Letters(97), k); w != 0 && Place(1024, w) >= |v.disk|
  {
    forall k | 0 <= k < 256
      ensures var w := Word(Letters(97), k); w == 0x61616161
    {
    }
    assert Place(1024, 0x61616161) == 0x216161;
  }

  /** The kernel does not return this file whatever its fresh buffer holds, and with the ATA driver nothing at all. */
  lemma FourteenBlocksLost(v: Volume, junk: seq<byte>)
    requires v.disk == LostDisk() && v.bs == 1024
    ensures LOST.Size() == 14 * 1024 <= |Content(v.disk, 256, 1024, LOST.Forest())|
    ensures ReadBack(v, 256, junk, LOST) != Some(Content(v.disk, 256, 1024, LOST.Forest())[..14 * 1024])
    ensures ReadBack(v, 256, junk, LOST).Some? <==> v.device.AHCI?
  {
    hide Content;
    hide Sep;
    hide Backed;
    hide ReadFile;
    hide Place;
    hide Word;
    var content := Content(v.disk, 256, 1024, LOST.Forest());
    LostReach(v.disk);
    LostBacked(v.disk);
    LostContent(v.disk);
    var text := seq(13 * 1024, _ => 97 as byte) + Letters(98);
    assert content[..14 * 1024] == text;
    assert NulFree(content[..14 * 1024]);
    assert content[12 * 1024..13 * 1024] == text[12 * 1024..13 * 1024] == Letters(97);
    LettersLeadNowhere(v);
    BelowSingleIff(v, 256, junk, LOST);
    BelowSingleReturnsIff(v, 256, junk, LOST);
    var k := WayOut(v, 256, Letters(97), 1);
    assert v.PassesOver(Word(Letters(97), 1)) <==> v.device.AHCI?;
    assert v.device.AHCI? ==> k == 256;
  }

  // ---------------------------------------------------------------------------------------------
  // A block that is handed out although a file has it

  const LIVE_SB: Superblock := Superblock(8, 1, 7, 0, 8, 8, 128, 0, 1)
  const LIVE_GROUPS: seq<Descriptor> := [Descriptor(3, 4, 5, 1, 7)]

  ghost predicate LiveShape(d: Disk)
  {
    && |d| == 8 && Sized(d, 1024)
    && forall o :: 0 <= o < 8 ==> (Bitmap.Bit(d[3], o) <==> o != 6)
  }

  lemma SixLowBits(o: nat)
    ensures Bitmap.ByteBit(63, o) <==> o < 6
  {
    assert Pow2(6) == 64;
    LowBits(6, o);
  }

  /**
   Eight blocks of 1 KiB, whose first bit therefore stands for block 1: the superblock in block 1, the descriptors,
   the two bitmaps, the inodes, the block of a file, and block 7, which is free.
   */
  function LiveDisk(): (d: Disk)
    ensures LiveShape(d)
  {
    var bitmap := Zeros(1024)[0 := 63];
    var full := Bitmap.PutBit(bitmap, 7, true);
    assert forall o :: 0 <= o < 7 ==> (Bitmap.Bit(full, o) <==> o != 6) by {
      forall o | 0 <= o < 7
        ensures Bitmap.Bit(full, o) <==> o != 6
      {
        assert Bitmap.Bit(full, o) == Bitmap.Bit(bitmap, o) == Bitmap.ByteBit(63, o);
        SixLowBits(o);
      }
    }
    seq(8, b => if b == 3 then full else Zeros(1024))
  }

  /** A file with one direct block, block 6. */
  const LIVE: Inode := WithTable([6] + seq(11, _ => 0), 0, 1024)

  lemma LiveBitmaps()
    ensures Bitmaps(LIVE_GROUPS) == {3}
  {
    assert LIVE_GROUPS[0].bitmapBlock == 3;
    assert forall b :: b in Bitmaps(LIVE_GROUPS) ==> b == 3;
    assert LIVE_GROUPS[0].bitmapBlock in Bitmaps(LIVE_GROUPS);
  }

  lemma LiveFormatted(d: Disk)
    requires LiveShape(d)
    ensures Formatted(d, LIVE_GROUPS, LIVE_SB)
  {
    assert Pow2(0) == 1;
    assert BlockSize(LIVE_SB) == 1024 && TotalGroups(LIVE_SB) == 1;
    hide BlockSize;
    hide TotalGroups;
    hide Bitmap.Bit;
  }

  lemma LiveBits(d: Disk)
    requires LiveShape(d) && Formatted(d, LIVE_GROUPS, LIVE_SB)
    ensures BitmapsSound(d, LIVE_GROUPS, LIVE_SB) && CountersAgree(d, LIVE_GROUPS, LIVE_SB)
  {
    LiveBitmaps();
    Bitmap.ClearBitsZero(d[3], 6);
    assert Bitmap.ClearBits(d[3], 7) == 1 && Bitmap.ClearBits(d[3], 8) == 1;
    hide Bitmap.Bit;
    hide Bitmap.ClearBits;
    hide Formatted;
    hide Bitmaps;
    assert SumFree(LIVE_GROUPS) == 1 by {
      assert LIVE_GROUPS[..0] == [];
    }
    assert LIVE_GROUPS[0].bitmapBlock == 3 && BlockAt(LIVE_SB, 0, 6) == 7;
  }

  lemma LiveFree(d: Disk)
    requires LiveShape(d)
    ensures FreeSet(d, LIVE_GROUPS, LIVE_SB) == {7}
  {
    hide Bitmap.Bit;
    assert LIVE_GROUPS[0].bitmapBlock == 3;
    forall b | 0 <= b < 8
      ensures IsFree(d, LIVE_GROUPS, LIVE_SB, b) <==> b == 7
    {
      assert b >= 1 ==> GroupOf(LIVE_SB, b) == 0 && OffsetOf(LIVE_SB, b) == b - 1;
    }
  }

  lemma LiveSound(d: Disk)
    requires LiveShape(d)
    ensures Sound(d, LIVE_GROUPS, LIVE_SB) && FreeSet(d, LIVE_GROUPS, LIVE_SB) == {7}
  {
    LiveFormatted(d);
    hide Formatted;
    LiveBits(d);
    LiveFree(d);
  }

  lemma LiveReady(d: Disk)
    requires LiveShape(d) && FreeSet(d, LIVE_GROUPS, LIVE_SB) == {7}
    ensures Ready({3}, 256, 1024, Snap(d, {7}, 1), LIVE.Forest()) && Reach(d, 256, LIVE.Forest()) == {6}
  {
    var f, g := Roots([6], 0), Roots(seq(11, _ => 0), 0) + [Root(0, 1)] + [Root(0, 2)] + [Root(0, 3)];
    assert LIVE.Forest() == f + g;
    LeavesReach(d, 256, [6], 6);
    NullReach(d, 256, g);
    ReachConcat(d, 256, f, g);
    SepConcat(d, 256, f, g);
  }

  lemma CountedFromZero(ds: seq<Descriptor>, sb: Superblock, b: uint32)
    requires SameLayout(LIVE_GROUPS, LIVE_SB, ds, sb) && MarkedFor(sb, b) == 7
    ensures b == 6
  {
    assert sb.(freeBlocks := 0) == LIVE_SB.(freeBlocks := 0);
  }

  /** On this volume of 1 KiB blocks the allocator hands out block 6, which is the block of a file. */
  method HandsOutLiveBlock(device: DeviceType) returns (block: Option<uint32>)
    ensures Sound(LiveDisk(), LIVE_GROUPS, LIVE_SB) && !OffsetsAgree(LIVE_SB)
    ensures Ready(Bitmaps(LIVE_GROUPS), 256, 1024, Snap(LiveDisk(), FreeSet(LiveDisk(), LIVE_GROUPS, LIVE_SB), 1),
                  LIVE.Forest())
    ensures block == Some(6) && 6 in Reach(LiveDisk(), 256, LIVE.Forest())
  {
    hide LiveDisk;
    hide Sound;
    hide Ready;
    hide LiveShape;
    hide Reach;
    hide FreeSet;
    hide Layout;
    hide Bitmaps;
    hide Place;
    hide IsFree;
    hide MarkedFor;
    hide Roots;
    LiveSound(LiveDisk());
    LiveReady(LiveDisk());
    LiveBitmaps();
    var fs := new Ext2Fs(LiveDisk(), LIVE_GROUPS, LIVE_SB, device);
    block := fs.AllocBlock();
    CountedFromZero(fs.groups, fs.sb, block.value);
  }
}
