/**
 Reading text back that is longer than thirteen blocks. Below an indirect pointer the first block of text
 replaces the table in the shared buffer, so that its characters are taken for pointers.
 */
module FileText {
  import opened Options
  import opened Words
  import opened BlockStore
  import opened BlockTree
  import opened InodeTable
  import opened FileRead
  import opened FileReadProofs
  import Arith

  /** No four characters of the text, taken for a pointer, lead to a block of the device. */
  ghost predicate LeadsNowhere(v: Volume, text: seq<byte>)
    requires v.bs > 0
  {
    forall i {:trigger Word(text, i)} :: 0 <= i < |text| / 4 ==> Place(v.bs, Word(text, i)) >= |v.disk|
  }

  // ---------------------------------------------------------------------------------------------
  // Below an indirect pointer

  ghost predicate TextBuffer(v: Volume, n: nat, block: seq<byte>)
  {
    n > 1 && v.bs == 4 * n && |block| == v.bs && NulFree(block) && LeadsNowhere(v, block)
  }

  lemma TextEntry(v: Volume, n: nat, st: ReadState, i: nat)
    requires TextBuffer(v, n, st.buffer) && i < n
    ensures Entry(st, i) != 0 && v.Load(Entry(st, i)) == if v.device.AHCI? then Refused else Stuck
  {
    NonZeroBytesMakeLargeWords(st.buffer, i);
    assert Entry(st, i) == Word(st.buffer, i);
  }

  lemma LostEntry(v: Volume, n: nat, level: nat, i: nat, st: ReadState, size: nat)
    requires level > 0 && i < n && TextBuffer(v, n, st.buffer) && st.read < size
    ensures v.bs > 0 && ReadEntry(v, n, level, Entry(st, i), st, size) == if v.device.AHCI? then Some(st) else None
  {
    hide ReadEntries;
    TextEntry(v, n, st, i);
  }

  /** Once the buffer holds text, the AHCI driver finds no further block, and the ATA driver does not return. */
  lemma {:induction false} LostInText(v: Volume, n: nat, level: nat, i: nat, st: ReadState, size: nat)
    requires level > 0 && i <= n && TextBuffer(v, n, st.buffer) && st.read < size
    ensures ReadEntries(v, n, level, i, st, size) == if v.device.AHCI? || i == n then Some(st) else None
    decreases n - i
  {
    hide NulFree;
    hide LeadsNowhere;
    hide Place;
    hide Entry;
    hide ReadEntry;
    hide TextBuffer;
    if i < n {
      LostEntry(v, n, level, i, st, size);
      if v.device.AHCI? {
        LostInText(v, n, level, i + 1, st, size);
      }
    }
  }

  /** The first data block below a root. */
  function FirstBlock(v: Volume, n: nat, r: Root): (b: seq<byte>)
    requires n > 0
    ensures |b| == v.bs
  {
    Cons(v.disk, n, v.bs, [r]);
    CapAtLeastBlock(n, v.bs, r.level);
    TreeBytes(v.disk, n, v.bs, r)[..v.bs]
  }

  /** One more block of text was read; if bytes are left, the ATA driver gets stuck behind it. */
  function OneBlock(v: Volume, st: ReadState, block: seq<byte>, size: nat): Option<ReadState>
    requires |block| == v.bs && st.read <= size
  {
    if v.device.ATA? && st.read + v.bs < size then None
    else
      var m := Min(size - st.read, v.bs);
      Some(ReadState(block, st.out + block[..m], st.read + m))
  }

  lemma TextLeaf(v: Volume, n: nat, k: Root, st: ReadState, size: nat)
    requires Sane(v, n) && k.level == 0 && 0 < k.ptr < |v.disk| && st.read < size
    requires NulFree(FirstBlock(v, n, k))
    ensures var block, m := FirstBlock(v, n, k), Min(size - st.read, v.bs);
            ReadBlockStep(v, k.ptr, st, size) == Some(ReadState(block, st.out + block[..m], st.read + m))
  {
    hide Place;
    hide Addressable;
    hide DropNul;
    var block := v.disk[k.ptr];
    assert FirstBlock(v, n, k) == block;
    BlockThere(v, n, k.ptr);
    DropNulFree(block[..Min(size - st.read, v.bs)]);
  }

  /** Below an indirect pointer to text the reader gets the first block, and then nothing or no return. */
  lemma {:induction false} TextBelow(v: Volume, n: nat, r: Root, st: ReadState, size: nat, c: nat)
    requires Sane(v, n) && r.level > 0 && 0 < r.ptr < |v.disk| && Sep(v.disk, n, Kids(v.disk, n, r))
    requires BackedBelow(v.disk, n, v.bs, r, c) && c > 0 && st.read < size
    requires TextBuffer(v, n, FirstBlock(v, n, r))
    ensures ReadIndirectStep(v, n, r.ptr, r.level, st, size) == OneBlock(v, st, FirstBlock(v, n, r), size)
    decreases r.level
  {
    hide Sep;
    hide Backed;
    hide Content;
    hide Kids;
    hide Word;
    hide Place;
    hide NulFree;
    hide LeadsNowhere;
    hide Addressable;
    hide TreeBytes;
    hide BackedBelow;
    hide Cap;
    hide Loaded;
    hide ReadBlockStep;
    var d, bs, block := v.disk, v.bs, FirstBlock(v, n, r);
    FirstKid(d, n, bs, r);
    var k := Kids(d, n, r)[0];
    FirstKidBacked(d, n, bs, r, c);
    assert block == FirstBlock(v, n, k);
    BlockThere(v, n, r.ptr);
    var st0 := st.(buffer := d[r.ptr]);
    assert Entry(st0, 0) == k.ptr;
    if r.level == 1 {
      TextLeaf(v, n, k, st0, size);
    } else {
      TextBelow(v, n, k, st0, size, Min(c, Cap(n, bs, k.level)));
    }
    TextRest(v, n, r.level, r.ptr, d[r.ptr], st, size, block);
  }

  lemma TextRest(v: Volume, n: nat, level: nat, p: uint32, table: seq<byte>, st: ReadState, size: nat, block: seq<byte>)
    requires level > 0 && TextBuffer(v, n, block) && st.read < size && v.LeadsTo(p, table)
    requires var st0, m := st.(buffer := table), Min(size - st.read, v.bs);
             ReadEntry(v, n, level, Entry(st0, 0), st0, size)
             == if level == 1 then Some(ReadState(block, st.out + block[..m], st.read + m))
                else OneBlock(v, st, block, size)
    ensures ReadIndirectStep(v, n, p, level, st, size) == OneBlock(v, st, block, size)
  {
    hide NulFree;
    hide LeadsNowhere;
    hide Loaded;
    hide Entry;
    hide ReadEntry;
    if st.read + v.bs < size {
      LostInText(v, n, level, 1, ReadState(block, st.out + block[..v.bs], st.read + v.bs), size);
    }
  }

  // ---------------------------------------------------------------------------------------------
  // Whole files

  /** The number of bytes in the blocks that hold the first `size` bytes. */
  function WholeBlocks(size: nat, bs: nat): nat
    requires bs > 0
  {
    Arith.QuotientAtLeast(size + bs - 1, bs, 0);
    (size + bs - 1) / bs * bs
  }

  /** The position of the first byte below the indirect pointer of this level. */
  function Start(n: nat, bs: nat, level: nat): nat
  {
    if level <= 1 then 12 * bs else Start(n, bs, level - 1) + Cap(n, bs, level - 1)
  }

  /** The file has a block below this indirect pointer, and its characters lead nowhere. */
  ghost predicate LeadsAstray(v: Volume, n: nat, r: Root)
    requires n > 0 && v.bs > 0
  {
    r.ptr != 0 ==> LeadsNowhere(v, FirstBlock(v, n, r))
  }

  /**
   Text without NUL up to the end of its last block, with no indirect pointers beyond the need. If it has more
   than thirteen blocks, no four characters of the first block below an indirect pointer lead to a block.
   */
  ghost predicate PlainText(v: Volume, n: nat, inode: Inode)
  {
    && Sane(v, n) && n > 3 && inode.WellFormed()
    && var content, size := Content(v.disk, n, v.bs, inode.Forest()), inode.Size();
    && Sep(v.disk, n, inode.Forest()) && Backed(v.disk, n, v.bs, inode.Forest(), size)
    && WholeBlocks(size, v.bs) <= |content| && NulFree(content[..WholeBlocks(size, v.bs)])
    && (size <= Start(n, v.bs, 2) ==> inode.double == 0) && (size <= Start(n, v.bs, 3) ==> inode.triple == 0)
    && (size > 13 * v.bs ==> LeadsAstray(v, n, Root(inode.single, 1)) && LeadsAstray(v, n, Root(inode.double, 2))
                             && LeadsAstray(v, n, Root(inode.triple, 3)))
  }

  lemma WholeBlocksReach(size: nat, bs: nat, k: nat)
    requires bs > 0 && size > k * bs
    ensures WholeBlocks(size, bs) >= (k + 1) * bs && WholeBlocks(size, bs) >= size
  {
    var q := (size + bs - 1) / bs;
    Arith.QuotientAtLeast(size + bs - 1, bs, k + 1);
    Arith.MulMonotone(k + 1, q, bs);
    assert size + bs - 1 == bs * q + (size + bs - 1) % bs;
  }

  lemma SliceNulFree(content: seq<byte>, a: seq<byte>, t: seq<byte>, rest: seq<byte>, m: nat, bs: nat)
    requires content == a + t + rest && m <= |content| && NulFree(content[..m])
    requires |a| + bs <= m && bs <= |t|
    ensures NulFree(t[..bs])
  {
    forall i | 0 <= i < bs
      ensures t[i] != 0
    {
      assert content[..m][|a| + i] == t[i];
    }
  }

  lemma Starts(n: nat, bs: nat)
    ensures Start(n, bs, 1) == 12 * bs
    ensures Start(n, bs, 2) == 12 * bs + Cap(n, bs, 1) == (12 + n) * bs
    ensures Start(n, bs, 3) == 12 * bs + Cap(n, bs, 1) + Cap(n, bs, 2) == (12 + n + n * n) * bs
  {
    assert Cap(n, bs, 1) == n * Cap(n, bs, 0);
    assert Cap(n, bs, 2) == n * Cap(n, bs, 1) == n * (n * bs) == n * n * bs;
    assert (12 + n) * bs == 12 * bs + n * bs;
    assert (12 + n + n * n) * bs == (12 + n) * bs + n * n * bs;
  }

  /** A part of the file that has bytes, as `TextBelow` needs it. */
  ghost predicate TextPart(v: Volume, n: nat, r: Root, size: nat)
    requires n > 0 && v.bs > 0
  {
    && PartBacked(v.disk, n, v.bs, r, Start(n, v.bs, r.level), size)
    && (size > Start(n, v.bs, r.level) ==> 0 < r.ptr < |v.disk| && TextBuffer(v, n, FirstBlock(v, n, r)))
    && (size <= Start(n, v.bs, r.level) ==> r.ptr == 0)
  }

  lemma TextPartOf(v: Volume, n: nat, r: Root, size: nat, content: seq<byte>, a: seq<byte>, rest: seq<byte>, k: nat)
    requires n > 1 && Sane(v, n) && PartBacked(v.disk, n, v.bs, r, Start(n, v.bs, r.level), size)
    requires content == a + TreeBytes(v.disk, n, v.bs, r) + rest && |a| == Start(n, v.bs, r.level) == k * v.bs
    requires WholeBlocks(size, v.bs) <= |content| && NulFree(content[..WholeBlocks(size, v.bs)])
    requires LeadsAstray(v, n, r) && (size <= Start(n, v.bs, r.level) ==> r.ptr == 0)
    ensures TextPart(v, n, r, size)
  {
    hide Sep;
    hide Backed;
    hide Content;
    hide Kids;
    hide TreeBytes;
    hide WholeBlocks;
    hide NulFree;
    hide LeadsNowhere;
    hide Start;
    hide Cap;
    hide Addressable;
    if size > Start(n, v.bs, r.level) {
      WholeBlocksReach(size, v.bs, k);
      CapAtLeastBlock(n, v.bs, r.level);
      assert (k + 1) * v.bs == k * v.bs + v.bs;
      SliceNulFree(content, a, TreeBytes(v.disk, n, v.bs, r), rest, WholeBlocks(size, v.bs), v.bs);
      FirstBlockIs(v, n, r);
    }
  }

  lemma FirstBlockIs(v: Volume, n: nat, r: Root)
    requires n > 0
    ensures |TreeBytes(v.disk, n, v.bs, r)| >= v.bs && FirstBlock(v, n, r) == TreeBytes(v.disk, n, v.bs, r)[..v.bs]
  {
    Cons(v.disk, n, v.bs, [r]);
    CapAtLeastBlock(n, v.bs, r.level);
  }

  /** The bytes before the indirect pointers, and below them. */
  function Direct(v: Volume, n: nat, inode: Inode): seq<byte>
  {
    Content(v.disk, n, v.bs, Roots(inode.direct, 0))
  }

  /** A file of more than thirteen blocks, part by part. */
  lemma PartsAreText(v: Volume, n: nat, inode: Inode)
    requires PlainText(v, n, inode) && inode.Size() > 13 * v.bs
    ensures Sane(v, n) && |Direct(v, n, inode)| == 12 * v.bs && Sep(v.disk, n, Roots(inode.direct, 0))
    ensures Caps(n, v.bs, Roots(inode.direct, 0)) == 12 * v.bs
    ensures Backed(v.disk, n, v.bs, Roots(inode.direct, 0), 12 * v.bs)
    ensures TextPart(v, n, Root(inode.single, 1), inode.Size())
    ensures TextPart(v, n, Root(inode.double, 2), inode.Size())
    ensures TextPart(v, n, Root(inode.triple, 3), inode.Size())
    ensures Content(v.disk, n, v.bs, inode.Forest())
         == Direct(v, n, inode) + TreeBytes(v.disk, n, v.bs, Root(inode.single, 1))
            + TreeBytes(v.disk, n, v.bs, Root(inode.double, 2)) + TreeBytes(v.disk, n, v.bs, Root(inode.triple, 3))
    ensures inode.Size() <= |Content(v.disk, n, v.bs, inode.Forest())|
  {
    hide Sep;
    hide Backed;
    hide Content;
    hide BackedBelow;
    hide TreeBytes;
    hide Kids;
    hide Caps;
    hide Cap;
    hide WholeBlocks;
    hide NulFree;
    hide LeadsAstray;
    hide TextPart;
    hide Start;
    hide Addressable;
    var d, bs, size := v.disk, v.bs, inode.Size();
    InodeParts(d, n, bs, inode);
    Starts(n, bs);
    var r1, r2, r3 := Root(inode.single, 1), Root(inode.double, 2), Root(inode.triple, 3);
    var content, first := Content(d, n, bs, inode.Forest()), Direct(v, n, inode);
    var t1, t2, t3 := TreeBytes(d, n, bs, r1), TreeBytes(d, n, bs, r2), TreeBytes(d, n, bs, r3);
    assert content == first + t1 + (t2 + t3) && content == (first + t1) + t2 + t3
        && content == (first + t1 + t2) + t3 + [];
    TextPartOf(v, n, r1, size, content, first, t2 + t3, 12);
    TextPartOf(v, n, r2, size, content, first + t1, t3, 12 + n);
    TextPartOf(v, n, r3, size, content, first + t1 + t2, [], 12 + n + n * n);
  }

  /** What the reader gets for one part of the file. */
  lemma PartRead(v: Volume, n: nat, r: Root, st: ReadState, size: nat)
    requires Sane(v, n) && r.level > 0 && TextPart(v, n, r, size) && st.read < size
    requires size > Start(n, v.bs, r.level)
    ensures ReadNext(v, n, r.ptr, r.level, Some(st), size) == OneBlock(v, st, FirstBlock(v, n, r), size)
  {
    hide Sep;
    hide Backed;
    hide Content;
    hide BackedBelow;
    hide TreeBytes;
    hide Kids;
    hide NulFree;
    hide LeadsNowhere;
    hide Start;
    hide Addressable;
    CapAtLeastBlock(n, v.bs, r.level);
    TextBelow(v, n, r, st, size, Min(size - Start(n, v.bs, r.level), Cap(n, v.bs, r.level)));
  }

  /** With the AHCI driver one more indirect pointer gives at most one block. */
  lemma OneMoreBlock(v: Volume, n: nat, r: Root, st: ReadState, size: nat)
    requires v.device.AHCI? && Sane(v, n) && r.level > 0 && TextPart(v, n, r, size) && st.read + v.bs < size
    ensures var st' := ReadNext(v, n, r.ptr, r.level, Some(st), size);
            && st'.Some? && st'.value.read <= st.read + v.bs && |st'.value.out| <= |st.out| + v.bs
            && (r.ptr == 0 ==> st'.value == st)
  {
    hide TextBuffer;
    hide PartBacked;
    hide ReadIndirectStep;
    if r.ptr != 0 {
      PartRead(v, n, r, st, size);
    }
  }

  /** The direct blocks of such a file are read. */
  lemma DirectRead(v: Volume, n: nat, junk: seq<byte>, inode: Inode)
    requires PlainText(v, n, inode) && inode.Size() > 13 * v.bs
    ensures var st := ReadDirect(v, inode.direct, ReadState(junk, [], 0), inode.Size());
            st.Some? && st.value.read == 12 * v.bs && |st.value.out| <= 12 * v.bs
  {
    hide Sep;
    hide Backed;
    hide Content;
    hide TreeBytes;
    hide TextPart;
    hide ReadDirect;
    hide Addressable;
    hide LeadsAstray;
    hide NulFree;
    hide WholeBlocks;
    hide Start;
    hide Cap;
    hide Caps;
    PartsAreText(v, n, inode);
    DirectReadsBack(v, n, inode.direct, ReadState(junk, [], 0), inode.Size(), 12 * v.bs);
  }

  /** Of a file of more than thirteen blocks the AHCI driver yields at most fifteen, which are not all of it. */
  lemma LargeFileCutShort(v: Volume, n: nat, junk: seq<byte>, inode: Inode)
    requires v.device.AHCI? && PlainText(v, n, inode) && inode.Size() > 13 * v.bs
    ensures ReadBack(v, n, junk, inode).Some?
    ensures var out := ReadBack(v, n, junk, inode).value; |out| < inode.Size() && |out| <= 15 * v.bs
  {
    hide Sep;
    hide Backed;
    hide Content;
    hide TreeBytes;
    hide TextPart;
    hide ReadDirect;
    hide ReadNext;
    hide Addressable;
    hide LeadsAstray;
    hide NulFree;
    hide WholeBlocks;
    hide Start;
    hide Cap;
    hide Caps;
    var bs, size := v.bs, inode.Size();
    DirectRead(v, n, junk, inode);
    PartsAreText(v, n, inode);
    Starts(n, bs);
    Arith.MulMonotone(16, 12 + n, bs);
    var st0 := ReadDirect(v, inode.direct, ReadState(junk, [], 0), size);
    OneMoreBlock(v, n, Root(inode.single, 1), st0.value, size);
    var st1 := ReadNext(v, n, inode.single, 1, st0, size);
    if inode.double != 0 || inode.triple != 0 {
      SizeBeyond(n, bs, size, inode);
      OneMoreBlock(v, n, Root(inode.double, 2), st1.value, size);
      var st2 := ReadNext(v, n, inode.double, 2, st1, size);
      OneMoreBlock(v, n, Root(inode.triple, 3), st2.value, size);
    } else {
      NoPart(v, n, 2, st1, size);
      NoPart(v, n, 3, st1, size);
    }
  }

  lemma NoPart(v: Volume, n: nat, level: nat, st: Option<ReadState>, size: nat)
    requires v.bs > 0
    ensures ReadNext(v, n, 0, level, st, size) == st
  {
  }

  lemma SizeBeyond(n: nat, bs: nat, size: nat, inode: Inode)
    requires n > 3 && (size <= Start(n, bs, 2) ==> inode.double == 0) && (size <= Start(n, bs, 3) ==> inode.triple == 0)
    requires inode.double != 0 || inode.triple != 0
    ensures size > 16 * bs
  {
    Starts(n, bs);
    Arith.MulMonotone(16, 12 + n, bs);
    Arith.MulMonotone(12 + n, 12 + n + n * n, bs);
  }

  /** A file of more than thirteen blocks is never returned with the ATA driver. */
  lemma LargeFileNeverReturned(v: Volume, n: nat, junk: seq<byte>, inode: Inode)
    requires v.device.ATA? && PlainText(v, n, inode) && inode.Size() > 13 * v.bs
    ensures ReadBack(v, n, junk, inode) == None
  {
    hide Sep;
    hide Backed;
    hide Content;
    hide TreeBytes;
    hide ReadDirect;
    hide ReadIndirectStep;
    hide Addressable;
    hide LeadsAstray;
    hide NulFree;
    hide WholeBlocks;
    hide TextPart;
    var st0 := ReadDirect(v, inode.direct, ReadState(junk, [], 0), inode.Size());
    DirectRead(v, n, junk, inode);
    PartsAreText(v, n, inode);
    PartRead(v, n, Root(inode.single, 1), st0.value, inode.Size());
  }

  /** With either driver plain text is read back exactly up to thirteen blocks. */
  lemma ReadsBackIff(v: Volume, n: nat, junk: seq<byte>, inode: Inode)
    requires PlainText(v, n, inode)
    ensures var content, size := Content(v.disk, n, v.bs, inode.Forest()), inode.Size();
            size <= |content| && (ReadBack(v, n, junk, inode) == Some(content[..size]) <==> size <= 13 * v.bs)
  {
    hide Content;
    hide TreeBytes;
    hide Sep;
    hide Backed;
    hide ReadFile;
    hide LeadsAstray;
    hide WholeBlocks;
    hide Cap;
    var content, size := Content(v.disk, n, v.bs, inode.Forest()), inode.Size();
    if size > 13 * v.bs {
      PartsAreText(v, n, inode);
      if v.device.ATA? {
        LargeFileNeverReturned(v, n, junk, inode);
      } else {
        LargeFileCutShort(v, n, junk, inode);
      }
    } else {
      SmallFileReadsBack(v, n, junk, inode);
      if size > 0 {
        WholeBlocksReach(size, v.bs, 0);
        assert forall i :: 0 <= i < size ==> content[..size][i] == content[..WholeBlocks(size, v.bs)][i];
      }
      DropNulFree(content[..size]);
    }
  }

  /** With the AHCI driver, reading returns whatever the pointers and blocks hold. */
  lemma AhciReturns(v: Volume, n: nat, junk: seq<byte>, inode: Inode)
    requires v.device.AHCI? && v.bs > 0
    ensures ReadBack(v, n, junk, inode).Some?
  {
    hide ReadDirect;
    hide ReadIndirectStep;
    var size := inode.Size();
    DirectReturns(v, inode.direct, ReadState(junk, [], 0), size);
    var st0 := ReadDirect(v, inode.direct, ReadState(junk, [], 0), size);
    NextReturns(v, n, inode.single, 1, st0.value, size);
    var st1 := ReadNext(v, n, inode.single, 1, st0, size);
    NextReturns(v, n, inode.double, 2, st1.value, size);
    var st2 := ReadNext(v, n, inode.double, 2, st1, size);
    NextReturns(v, n, inode.triple, 3, st2.value, size);
  }

  lemma {:induction false} DirectReturns(v: Volume, t: seq<uint32>, st: ReadState, size: nat)
    requires v.device.AHCI? && v.bs > 0
    ensures ReadDirect(v, t, st, size).Some?
  {
    if t != [] && t[0] != 0 && ReadBlockStep(v, t[0], st, size).value.read < size {
      DirectReturns(v, t[1..], ReadBlockStep(v, t[0], st, size).value, size);
    }
  }

  lemma NextReturns(v: Volume, n: nat, p: uint32, level: nat, st: ReadState, size: nat)
    requires v.device.AHCI? && v.bs > 0 && level > 0
    ensures ReadNext(v, n, p, level, Some(st), size).Some?
  {
    hide ReadIndirectStep;
    EntryReturns(v, n, level + 1, p, st, size);
  }

  lemma {:induction false} EntryReturns(v: Volume, n: nat, level: nat, p: uint32, st: ReadState, size: nat)
    requires v.device.AHCI? && v.bs > 0
    ensures ReadEntry(v, n, level, p, st, size).Some?
    decreases level, 0, 0
  {
    hide ReadEntries;
    if level > 1 && p != 0 && st.read < size && v.Load(p).Data? {
      EntriesReturn(v, n, level - 1, 0, st.(buffer := v.Load(p).bytes), size);
    }
  }

  lemma {:induction false} EntriesReturn(v: Volume, n: nat, level: nat, i: nat, st: ReadState, size: nat)
    requires v.device.AHCI? && v.bs > 0
    ensures ReadEntries(v, n, level, i, st, size).Some?
    decreases level, 1, if i < n then n - i else 0
  {
    hide ReadEntry;
    if i < n {
      EntryReturns(v, n, level, Entry(st, i), st, size);
      EntriesReturn(v, n, level, i + 1, ReadEntry(v, n, level, Entry(st, i), st, size).value, size);
    }
  }

  // ---------------------------------------------------------------------------------------------
  // Any text below the single indirect pointer

  /** The first entry from the `i`-th on that the reader does not pass over. */
  function WayOut(v: Volume, n: nat, text: seq<byte>, i: nat): (k: nat)
    requires v.bs > 0 && |text| == 4 * n && i <= n
    ensures i <= k <= n && (k < n ==> !v.PassesOver(Word(text, k)))
    ensures forall j {:trigger Word(text, j)} :: i <= j < k ==> v.PassesOver(Word(text, j))
    decreases n - i
  {
    if i == n || !v.PassesOver(Word(text, i)) then i else WayOut(v, n, text, i + 1)
  }

  /** The next entry that is not passed over leads to this block of the device. */
  predicate Onward(v: Volume, n: nat, text: seq<byte>, i: nat)
    requires v.bs > 0 && |text| == 4 * n && i <= n
  {
    var k := WayOut(v, n, text, i);
    k < n && v.Load(Word(text, k)).Data?
  }

  /**
   From entry `i` on, the characters of the text lead the reader to the bytes `rest`: the next entry that is not
   passed over leads to a block with the next bytes, and from the entry behind on that block does the same.
   */
  predicate Leads(v: Volume, n: nat, i: nat, text: seq<byte>, rest: seq<byte>)
    requires v.bs == 4 * n == |text| && n > 0 && Sized(v.disk, v.bs) && i <= n
    decreases |rest|
  {
    rest == [] ||
    (Onward(v, n, text, i) &&
     var k, c := WayOut(v, n, text, i), Min(|rest|, v.bs);
     var block := v.Load(Word(text, k)).bytes;
     block[..c] == rest[..c] && Leads(v, n, k + 1, block, rest[c..]))
  }

  /** From entry `i` on, no entry that the reader follows before it has `left` bytes gets the driver stuck. */
  predicate GetsOut(v: Volume, n: nat, i: nat, text: seq<byte>, left: nat)
    requires v.bs == 4 * n == |text| && n > 0 && Sized(v.disk, v.bs) && i <= n
    decreases left
  {
    var k := WayOut(v, n, text, i);
    left == 0 || k == n ||
    (Onward(v, n, text, i) && GetsOut(v, n, k + 1, v.Load(Word(text, k)).bytes, left - Min(left, v.bs)))
  }

  /** The reader goes to the next entry that it does not pass over. */
  lemma {:induction false} TakesWayOut(v: Volume, n: nat, i: nat, st: ReadState, size: nat)
    requires v.bs == 4 * n == |st.buffer| && n > 0 && i <= n && st.read < size
    ensures var k := WayOut(v, n, st.buffer, i);
            ReadEntries(v, n, 1, i, st, size) ==
            if k == n then Some(st)
            else
              var st' := ReadBlockStep(v, Word(st.buffer, k), st, size);
              if st'.None? || st'.value.read >= size then st' else ReadEntries(v, n, 1, k + 1, st'.value, size)
    decreases n - i
  {
    hide Word;
    hide Place;
    hide DropNul;
    if i < n {
      assert Entry(st, i) == Word(st.buffer, i);
      if v.PassesOver(Word(st.buffer, i)) {
        TakesWayOut(v, n, i + 1, st, size);
      }
    }
  }

  lemma NothingLeft(v: Volume, n: nat, i: nat, st: ReadState, size: nat)
    requires v.bs > 0 && st.read >= size
    ensures ReadEntries(v, n, 1, i, st, size) == Some(st)
  {
  }

  lemma {:induction false} DropNulWhole(s: seq<byte>)
    requires |DropNul(s)| == |s|
    ensures DropNul(s) == s
  {
    if s != [] {
      DropNulWhole(s[1..]);
    }
  }

  /** The reader appends no more characters than it counts bytes. */
  lemma {:induction false} Grows(v: Volume, n: nat, i: nat, st: ReadState, size: nat)
    requires v.bs > 0 && st.read <= size
    ensures var st' := ReadEntries(v, n, 1, i, st, size);
            st'.Some? ==> st.out <= st'.value.out && |st'.value.out| - |st.out| <= st'.value.read - st.read
                          && st'.value.read <= size
    decreases if i < n then n - i else 0
  {
    hide Entry;
    hide DropNul;
    if i < n {
      var st1 := ReadBlockStep(v, Entry(st, i), st, size);
      if st1.Some? && st1.value.read < size {
        Grows(v, n, i + 1, st1.value, size);
      }
    }
  }

  /** Characters that were appended are the wanted ones exactly if no NUL was dropped and the blocks agree. */
  lemma AppendedIff(out: seq<byte>, chunk: seq<byte>, more: seq<byte>, rest: seq<byte>)
    requires |chunk| <= |rest| && |more| <= |rest| - |chunk| && NulFree(rest)
    ensures out + DropNul(chunk) + more == out + rest <==> chunk == rest[..|chunk|] && more == rest[|chunk|..]
  {
    hide DropNul;
    var c := |chunk|;
    if out + DropNul(chunk) + more == out + rest {
      var all := out + DropNul(chunk) + more;
      assert |all| == |out| + |rest|;
      DropNulWhole(chunk);
      assert chunk == all[|out|..|out| + c] == (out + rest)[|out|..|out| + c] == rest[..c];
      assert more == all[|out| + c..] == (out + rest)[|out| + c..] == rest[c..];
    }
    if chunk == rest[..c] && more == rest[c..] {
      assert forall i :: 0 <= i < c ==> chunk[i] == rest[i];
      DropNulFree(chunk);
      assert rest == chunk + more;
    }
  }

  /** The reader gets exactly the wanted bytes exactly if the text leads to them. */
  lemma {:induction false} LeadsIff(v: Volume, n: nat, i: nat, st: ReadState, size: nat, rest: seq<byte>)
    requires v.bs == 4 * n == |st.buffer| && n > 0 && Sized(v.disk, v.bs) && i <= n
    requires size == st.read + |rest| && NulFree(rest)
    ensures var st' := ReadEntries(v, n, 1, i, st, size);
            st'.Some? && st'.value.out == st.out + rest <==> Leads(v, n, i, st.buffer, rest)
    decreases |rest|
  {
    hide Word;
    hide Place;
    hide DropNul;
    hide ReadEntries;
    hide WayOut;
    if rest == [] {
      NothingLeft(v, n, i, st, size);
    } else {
      TakesWayOut(v, n, i, st, size);
      var k := WayOut(v, n, st.buffer, i);
      if Onward(v, n, st.buffer, i) {
        var block, c := v.Load(Word(st.buffer, k)).bytes, Min(|rest|, v.bs);
        var st1 := ReadState(block, st.out + DropNul(block[..c]), st.read + c);
        if st1.read >= size {
          NothingLeft(v, n, k + 1, st1, size);
        }
        assert ReadEntries(v, n, 1, i, st, size) == ReadEntries(v, n, 1, k + 1, st1, size);
        assert NulFree(rest[c..]) by {
          assert forall j :: 0 <= j < |rest| - c ==> rest[c..][j] == rest[c + j];
        }
        LeadsIff(v, n, k + 1, st1, size, rest[c..]);
        AppendedOnward(v, n, k + 1, st, st1, size, block[..c], rest);
      }
    }
  }

  lemma AppendedOnward(v: Volume, n: nat, i: nat, st: ReadState, st1: ReadState, size: nat, chunk: seq<byte>,
          rest: seq<byte>)
    requires v.bs > 0 && |chunk| <= |rest| && NulFree(rest) && size == st.read + |rest|
    requires st1.out == st.out + DropNul(chunk) && st1.read == st.read + |chunk|
    ensures var st' := ReadEntries(v, n, 1, i, st1, size);
            st'.Some? && st'.value.out == st.out + rest <==>
            chunk == rest[..|chunk|] && st'.Some? && st'.value.out == st1.out + rest[|chunk|..]
  {
    hide DropNul;
    hide ReadEntries;
    hide NulFree;
    Grows(v, n, i, st1, size);
    var st' := ReadEntries(v, n, 1, i, st1, size);
    if st'.Some? {
      var more := st'.value.out[|st1.out|..];
      assert st'.value.out == st1.out + more;
      AppendedIff(st.out, chunk, more, rest);
    }
  }

  /** The reader returns exactly if no entry that it follows gets the driver stuck. */
  lemma {:induction false} GetsOutIff(v: Volume, n: nat, i: nat, st: ReadState, size: nat)
    requires v.bs == 4 * n == |st.buffer| && n > 0 && Sized(v.disk, v.bs) && i <= n && st.read <= size
    ensures ReadEntries(v, n, 1, i, st, size).Some? <==> GetsOut(v, n, i, st.buffer, size - st.read)
    decreases size - st.read
  {
    hide Word;
    hide Place;
    hide DropNul;
    hide ReadEntries;
    hide WayOut;
    if st.read == size {
      NothingLeft(v, n, i, st, size);
    } else {
      TakesWayOut(v, n, i, st, size);
      var k := WayOut(v, n, st.buffer, i);
      if Onward(v, n, st.buffer, i) {
        var st1 := ReadBlockStep(v, Word(st.buffer, k), st, size).value;
        if st1.read >= size {
          NothingLeft(v, n, k + 1, st1, size);
        }
        GetsOutIff(v, n, k + 1, st1, size);
      }
    }
  }

  /** A file with more than thirteen blocks, none of them behind the double and triple indirect pointers. */
  ghost predicate SingleOnly(v: Volume, n: nat, inode: Inode)
  {
    && Sane(v, n) && inode.WellFormed() && Sep(v.disk, n, inode.Forest())
    && Backed(v.disk, n, v.bs, inode.Forest(), inode.Size())
    && inode.Size() > 13 * v.bs && inode.double == inode.triple == 0
  }

  /** The reader comes to the second entry of the table with the thirteenth block in its buffer. */
  lemma ReachesSecondEntry(v: Volume, n: nat, junk: seq<byte>, inode: Inode)
    requires SingleOnly(v, n, inode)
    ensures 13 * v.bs < inode.Size() <= |Content(v.disk, n, v.bs, inode.Forest())|
    ensures var content := Content(v.disk, n, v.bs, inode.Forest());
            var st := ReadState(content[12 * v.bs..13 * v.bs], DropNul(content[..13 * v.bs]), 13 * v.bs);
            ReadFile(v, n, junk, inode) == ReadEntries(v, n, 1, 1, st, inode.Size())
  {
    hide Content;
    hide Sep;
    hide Backed;
    hide BackedBelow;
    hide TreeBytes;
    hide Kids;
    hide Cap;
    hide Caps;
    hide ReadDirect;
    hide ReadIndirectStep;
    hide ReadEntries;
    hide DropNul;
    hide Addressable;
    hide PartBacked;
    hide ReadNext;
    hide FirstBlock;
    hide Sized;
    var d, bs, size, start := v.disk, v.bs, inode.Size(), ReadState(junk, [], 0);
    var content, first, r := Content(d, n, bs, inode.Forest()), Direct(v, n, inode), Root(inode.single, 1);
    InodeParts(d, n, bs, inode);
    FirstBlockIs(v, n, r);
    var text := content[12 * bs..13 * bs];
    assert text == FirstBlock(v, n, r);
    DirectReadsBack(v, n, inode.direct, start, size, 12 * bs);
    var st0 := ReadDirect(v, inode.direct, start, size);
    assert first[..12 * bs] == first == content[..12 * bs];
    assert [] + DropNul(first) == DropNul(first);
    ThroughText(v, n, r, st0.value, size);
    var st1 := ReadNext(v, n, inode.single, 1, st0, size);
    NoPart(v, n, 2, st1, size);
    NoPart(v, n, 3, st1, size);
    DropNulConcat(first, text);
    assert content[..13 * bs] == first + text;
  }

  /** Text that ends below the single indirect pointer is read back exactly if its words lead from block to block. */
  lemma BelowSingleIff(v: Volume, n: nat, junk: seq<byte>, inode: Inode)
    requires SingleOnly(v, n, inode)
    requires inode.Size() <= |Content(v.disk, n, v.bs, inode.Forest())|
    requires NulFree(Content(v.disk, n, v.bs, inode.Forest())[..inode.Size()])
    ensures var content, size := Content(v.disk, n, v.bs, inode.Forest()), inode.Size();
            ReadBack(v, n, junk, inode) == Some(content[..size]) <==>
            Leads(v, n, 1, content[12 * v.bs..13 * v.bs], content[13 * v.bs..size])
  {
    hide Content;
    hide Sep;
    hide Backed;
    hide ReadFile;
    hide ReadEntries;
    hide DropNul;
    hide Leads;
    hide NulFree;
    var bs, size := v.bs, inode.Size();
    var content := Content(v.disk, n, bs, inode.Forest());
    ReachesSecondEntry(v, n, junk, inode);
    var text, rest := content[12 * bs..13 * bs], content[13 * bs..size];
    SliceFree(content, 0, 13 * bs, size);
    SliceFree(content, 13 * bs, size, size);
    assert content[0..13 * bs] == content[..13 * bs];
    DropNulFreeText(content[..13 * bs]);
    LeadsIff(v, n, 1, ReadState(text, content[..13 * bs], 13 * bs), size, rest);
    assert content[..size] == content[..13 * bs] + rest;
  }

  lemma DropNulFreeText(s: seq<byte>)
    requires NulFree(s)
    ensures DropNul(s) == s
  {
    DropNulFree(s);
  }

  lemma SliceFree(content: seq<byte>, a: nat, b: nat, m: nat)
    requires a <= b <= m <= |content| && NulFree(content[..m])
    ensures NulFree(content[a..b])
  {
    assert forall i :: 0 <= i < b - a ==> content[a..b][i] == content[..m][a + i];
  }

  /** Reading such a file, whatever it holds, returns exactly if no word that is followed gets the driver stuck. */
  lemma BelowSingleReturnsIff(v: Volume, n: nat, junk: seq<byte>, inode: Inode)
    requires SingleOnly(v, n, inode)
    ensures var content, size := Content(v.disk, n, v.bs, inode.Forest()), inode.Size();
            && 13 * v.bs < size <= |content|
            && (ReadBack(v, n, junk, inode).Some? <==>
                GetsOut(v, n, 1, content[12 * v.bs..13 * v.bs], size - 13 * v.bs))
  {
    hide Content;
    hide Sep;
    hide Backed;
    hide ReadFile;
    hide ReadEntries;
    hide DropNul;
    hide GetsOut;
    var bs := v.bs;
    var content := Content(v.disk, n, bs, inode.Forest());
    ReachesSecondEntry(v, n, junk, inode);
    GetsOutIff(v, n, 1, ReadState(content[12 * bs..13 * bs], DropNul(content[..13 * bs]), 13 * bs), inode.Size());
  }

  /** The reader comes to the entries behind the first with the text of the first block in its buffer. */
  lemma ThroughText(v: Volume, n: nat, r: Root, st: ReadState, size: nat)
    requires Sane(v, n) && r.level == 1 && PartBacked(v.disk, n, v.bs, r, st.read, size) && st.read + v.bs < size
    ensures r.ptr != 0
    ensures var text := FirstBlock(v, n, r);
            ReadNext(v, n, r.ptr, 1, Some(st), size) ==
            ReadEntries(v, n, 1, 1, ReadState(text, st.out + DropNul(text), st.read + v.bs), size)
  {
    hide Content;
    hide Sep;
    hide Backed;
    hide Word;
    hide Place;
    hide Addressable;
    hide DropNul;
    hide Kids;
    hide Cap;
    hide Loaded;
    var d, bs, text := v.disk, v.bs, FirstBlock(v, n, r);
    CapAtLeastBlock(n, bs, 1);
    var c := Min(size - st.read, Cap(n, bs, 1));
    FirstKid(d, n, bs, r);
    var k := Kids(d, n, r)[0];
    FirstKidBacked(d, n, bs, r, c);
    BlockThere(v, n, r.ptr);
    var st0 := st.(buffer := d[r.ptr]);
    assert Entry(st0, 0) == k.ptr;
    BlockThere(v, n, k.ptr);
    assert text == d[k.ptr] && d[k.ptr][..bs] == d[k.ptr];
    var st1 := ReadState(text, st.out + DropNul(text), st.read + bs);
    assert ReadEntry(v, n, 1, k.ptr, st0, size) == Some(st1);
    assert ReadEntries(v, n, 1, 0, st0, size) == ReadEntries(v, n, 1, 1, st1, size);
  }
}
