/** Writing a file's blocks (src/kernel/fs/ext/ext2.cpp, `write_file_block` to `write_file_content`). */
module FileWrite {
  import opened Options
  import opened Words
  import opened BlockStore
  import opened BlockTree
  import opened FileWriteSpec
  import Arith

  ghost function SnapOf(fs: Ext2Fs): Snap
    reads fs
  {
    Snap(fs.disk, fs.Free(), fs.sb.freeBlocks)
  }

  /** How many pointers a block holds. */
  function PerBlock(sb: Superblock): nat { BlockSize(sb) / 4 }

  /** The forest can be written through `fs`. */
  ghost predicate FsReady(fs: Ext2Fs, f: Forest)
    reads fs
  {
    fs.Valid() && Ready(Bitmaps(fs.groups), PerBlock(fs.sb), BlockSize(fs.sb), SnapOf(fs), f)
  }

  /**
   What a write of the bytes `[written..]` of `input` into forest `f` did: either it ran out of free
   blocks, which happens exactly when fewer are free than the bytes need, or the bytes that fit are there.
   */
  ghost predicate WriteOutcome(meta: set<nat>, n: nat, bs: nat, s: Snap, f: Forest, s': Snap, f': Forest,
          input: seq<byte>, written: nat, ok: bool, written': nat)
    requires written <= |input|
  {
    && (ok <==> Missing(s.disk, n, bs, f, Min(|input| - written, Caps(n, bs, f))) <= s.count)
    && (ok ==> written <= written' <= |input|
               && written' - written == Min(|input| - written, Caps(n, bs, f))
               && Written(meta, n, bs, s, f, s', f', input[written..written']))
  }

  /** Before the first root nothing was written. */
  lemma OutcomeEmpty(meta: set<nat>, n: nat, bs: nat, s: Snap, f: Forest, input: seq<byte>, written: nat)
    requires written <= |input| && Ready(meta, n, bs, s, f)
    ensures WriteOutcome(meta, n, bs, s, [], s, [], input, written, true, written)
  {
    WrittenNothing(meta, n, bs, s, []);
    assert input[written..written] == [];
  }

  /** The bytes that go into `f + g`: first those for `f`, then those for `g`. */
  lemma SplitBytes(n: nat, bs: nat, f: Forest, g: Forest, rest: nat)
    ensures var m := Min(rest, Caps(n, bs, f)); var m' := Min(rest - m, Caps(n, bs, g));
            Min(rest, Caps(n, bs, f + g)) == m + m' && (m' == 0 || m == Caps(n, bs, f))
  {
    CapsConcat(n, bs, f, g);
  }

  lemma NextMissing(meta: set<nat>, n: nat, bs: nat, s: Snap, f: Forest, g: Forest, s1: Snap, f': Forest, a: seq<byte>,
          b: nat, c: nat)
    requires Ready(meta, n, bs, s, f + g) && Written(meta, n, bs, s, f, s1, f', a)
    requires |a| <= Caps(n, bs, f) && (b == 0 || |a| == Caps(n, bs, f)) && c == |a| + b
    ensures Missing(s.disk, n, bs, f + g, c) <= s.count <==> Missing(s1.disk, n, bs, g, b) <= s1.count
  {
    MissingConcat(s.disk, n, bs, f, g, |a|, b, c);
    ReadyNext(meta, n, bs, s, f, g, s1, f', a);
    FrameMissing(s.disk, s1.disk, n, bs, g, b);
  }

  /** A write goes on in the neighbour forest `g`. */
  lemma OutcomeNext(meta: set<nat>, n: nat, bs: nat, s: Snap, f: Forest, g: Forest, s1: Snap, f': Forest, s2: Snap,
          g': Forest, input: seq<byte>, w0: nat, w1: nat, ok: bool, w2: nat)
    requires w0 <= w1 <= |input| && Ready(meta, n, bs, s, f + g)
    requires WriteOutcome(meta, n, bs, s, f, s1, f', input, w0, true, w1)
    requires WriteOutcome(meta, n, bs, s1, g, s2, g', input, w1, ok, w2)
    ensures WriteOutcome(meta, n, bs, s, f + g, s2, f' + g', input, w0, ok, w2)
  {
    hide Written;
    hide Ready;
    hide Missing;
    hide Caps;
    var b := Min(|input| - w1, Caps(n, bs, g));
    var c := Min(|input| - w0, Caps(n, bs, f + g));
    assert c == w1 - w0 + b && (b == 0 || w1 - w0 == Caps(n, bs, f)) by {
      SplitBytes(n, bs, f, g, |input| - w0);
    }
    NextMissing(meta, n, bs, s, f, g, s1, f', input[w0..w1], b, c);
    if ok {
      NextWritten(meta, n, bs, s, f, g, s1, f', s2, g', input, w0, w1, w2);
    }
  }

  lemma NextWritten(meta: set<nat>, n: nat, bs: nat, s: Snap, f: Forest, g: Forest, s1: Snap, f': Forest, s2: Snap,
          g': Forest, input: seq<byte>, w0: nat, w1: nat, w2: nat)
    requires w0 <= w1 <= w2 <= |input| && Ready(meta, n, bs, s, f + g) && (w2 == w1 || w1 - w0 == Caps(n, bs, f))
    requires Written(meta, n, bs, s, f, s1, f', input[w0..w1])
    requires Written(meta, n, bs, s1, g, s2, g', input[w1..w2])
    ensures Written(meta, n, bs, s, f + g, s2, f' + g', input[w0..w2])
  {
    hide Written;
    hide Ready;
    assert input[w0..w1] + input[w1..w2] == input[w0..w2];
    Compose(meta, n, bs, s, f, g, s1, f', s2, g', input[w0..w1], input[w1..w2]);
  }

  lemma NoBytesLeft(meta: set<nat>, n: nat, bs: nat, s: Snap, f: Forest, input: seq<byte>)
    requires Ready(meta, n, bs, s, f)
    ensures WriteOutcome(meta, n, bs, s, f, s, f, input, |input|, true, |input|)
  {
    hide Written;
    WrittenNothing(meta, n, bs, s, f);
    assert input[|input|..|input|] == [];
  }

  /** A write that ended inside `f` leaves its neighbour alone. */
  lemma OutcomeDone(meta: set<nat>, n: nat, bs: nat, s: Snap, f: Forest, g: Forest, s1: Snap, f': Forest,
          input: seq<byte>, w0: nat)
    requires w0 <= |input| && Ready(meta, n, bs, s, f + g)
    requires WriteOutcome(meta, n, bs, s, f, s1, f', input, w0, true, |input|)
    ensures WriteOutcome(meta, n, bs, s, f + g, s1, f' + g, input, w0, true, |input|)
  {
    hide Written;
    hide Ready;
    hide Missing;
    hide Caps;
    assert input[w0..|input|] == input[w0..];
    ReadyNext(meta, n, bs, s, f, g, s1, f', input[w0..]);
    NoBytesLeft(meta, n, bs, s1, g, input);
    OutcomeNext(meta, n, bs, s, f, g, s1, f', s1, g, input, w0, |input|, true, |input|);
  }

  /** A write that ran out of blocks in `f` runs out of blocks in `f + g`. */
  lemma OutcomePanic(meta: set<nat>, n: nat, bs: nat, s: Snap, f: Forest, g: Forest, s1: Snap, f': Forest, f'': Forest,
          input: seq<byte>, w0: nat, w: nat)
    requires w0 <= |input| && Ready(meta, n, bs, s, f + g)
    requires WriteOutcome(meta, n, bs, s, f, s1, f', input, w0, false, w)
    ensures WriteOutcome(meta, n, bs, s, f + g, s1, f'', input, w0, false, w)
  {
    var rest := |input| - w0;
    var m := Min(rest, Caps(n, bs, f));
    SplitBytes(n, bs, f, g, rest);
    MissingConcat(s.disk, n, bs, f, g, m, Min(rest - m, Caps(n, bs, g)), Min(rest, Caps(n, bs, f + g)));
  }

  /** Writing one data block as far as it or the input goes. */
  lemma LeafOutcome(meta: set<nat>, n: nat, bs: nat, s: Snap, p0: uint32, s1: Snap, p: uint32, s2: Snap,
          input: seq<byte>, written: nat, written': nat)
    requires Ready(meta, n, bs, s, [Root(p0, 0)]) && written < |input|
    requires written' == written + Min(|input| - written, bs)
    requires if p0 == 0 then Took(meta, s, s1, p) else p == p0 && s1 == s
    requires Sized(s1.disk, bs)
    requires p < |s1.disk|
    requires s2 == s1.(disk := s1.disk[p := Overwritten(BlockBytes(s.disk, bs, p0), input[written..written'])])
    ensures WriteOutcome(meta, n, bs, s, [Root(p0, 0)], s2, [Root(p, 0)], input, written, true, written')
  {
    var data := input[written..written'];
    assert Caps(n, bs, [Root(p0, 0)]) == bs;
    LeafBacked(s.disk, n, bs, p0, |data|);
    WrittenLeaf(meta, n, bs, s, p0, s1, p, s2, data);
  }

  lemma LeafPanic(meta: set<nat>, n: nat, bs: nat, s: Snap, input: seq<byte>, written: nat, s': Snap, f': Forest,
          written': nat)
    requires n > 0 && bs > 0 && s.count == 0 && written < |input|
    ensures WriteOutcome(meta, n, bs, s, [Root(0, 0)], s', f', input, written, false, written')
  {
    assert Caps(n, bs, [Root(0, 0)]) == bs;
    LeafBacked(s.disk, n, bs, 0, Min(|input| - written, bs));
  }

  /** Copies `count` bytes of `input` from position `from` into a buffer at `offset`. */
  method CopyInto(buffer: seq<byte>, offset: nat, input: seq<byte>, from: nat, count: nat) returns (buffer': seq<byte>)
    requires offset + count <= |buffer| && from + count <= |input|
    ensures buffer' == buffer[..offset] + input[from..from + count] + buffer[offset + count..]
  {
    buffer' := buffer;
    var i := 0;
    while i < count
      invariant i <= count && |buffer'| == |buffer|
      invariant buffer' == buffer[..offset] + input[from..from + i] + buffer[offset + i..]
    {
      buffer' := buffer'[offset + i := input[from + i]];
      i := i + 1;
    }
  }

  /** Reads a block of the device. */
  method LoadBlock(fs: Ext2Fs, blockNum: uint32) returns (data: seq<byte>)
    requires fs.Valid() && blockNum < |fs.disk|
    ensures data == fs.disk[blockNum]
  {
    var answer := fs.ReadBlock(blockNum);
    data := answer.bytes;
  }

  /** Stores a block that is no bitmap: the allocator does not notice. */
  method StoreBlock(fs: Ext2Fs, blockNum: uint32, data: seq<byte>)
    requires fs.Valid() && blockNum < |fs.disk| && blockNum !in Bitmaps(fs.groups) && |data| == BlockSize(fs.sb)
    modifies fs`disk
    ensures fs.Valid() && SnapOf(fs) == old(SnapOf(fs)).(disk := old(fs.disk)[blockNum := data])
  {
    PlaceSame(|fs.disk|, BlockSize(fs.sb), blockNum);
    var stored := fs.WriteBlock(blockNum, data);
  }

  /** Allocates a missing data block and starts from zeros, or loads the block that is there. */
  method TakeDataBlock(fs: Ext2Fs, blockNum: uint32) returns (ok: bool, blockNum': uint32, buffer: seq<byte>)
    requires FsReady(fs, [Root(blockNum, 0)])
    modifies fs
    ensures fs.Valid() && SameLayout(old(fs.groups), old(fs.sb), fs.groups, fs.sb)
    ensures Bitmaps(fs.groups) == Bitmaps(old(fs.groups))
    ensures !ok <==> blockNum == 0 && old(fs.sb.freeBlocks) == 0
    ensures Sized(fs.disk, BlockSize(fs.sb))
    ensures ok ==> blockNum' < |fs.disk| && blockNum' !in Bitmaps(fs.groups)
                   && buffer == BlockBytes(old(fs.disk), BlockSize(fs.sb), blockNum)
                   && if blockNum == 0 then Took(Bitmaps(fs.groups), old(SnapOf(fs)), SnapOf(fs), blockNum')
                      else blockNum' == blockNum && SnapOf(fs) == old(SnapOf(fs))
  {
    var blockSize := BlockSize(fs.sb);
    LeafContent(fs.disk, PerBlock(fs.sb), blockSize, blockNum);
    if blockNum == 0 {
      var block := fs.AllocBlock();
      if block.None? {
        return false, 0, [];
      }
      return true, block.value, Zeros(blockSize);
    }
    buffer := LoadBlock(fs, blockNum);
    ok, blockNum' := true, blockNum;
  }

  /** Writes the next bytes of `input` into one data block, allocating it if it is missing. */
  method WriteFileBlock(fs: Ext2Fs, blockNum: uint32, input: seq<byte>, written: nat)
    returns (ok: bool, blockNum': uint32, written': nat)
    requires written < |input| && FsReady(fs, [Root(blockNum, 0)]) && written % BlockSize(fs.sb) == 0
    modifies fs
    ensures fs.Valid() && SameLayout(old(fs.groups), old(fs.sb), fs.groups, fs.sb)
    ensures Bitmaps(fs.groups) == Bitmaps(old(fs.groups))
    ensures WriteOutcome(Bitmaps(fs.groups), PerBlock(fs.sb), BlockSize(fs.sb), old(SnapOf(fs)), [Root(blockNum, 0)],
                         SnapOf(fs), [Root(blockNum', 0)], input, written, ok, written')
    ensures ok ==> written' == |input| || written' % BlockSize(fs.sb) == 0
  {
    hide Sound;
    hide Layout;
    hide SizeFromLog;
    hide Written;
    hide Missing;
    ghost var meta, n, s := Bitmaps(fs.groups), PerBlock(fs.sb), SnapOf(fs);
    var blockSize := BlockSize(fs.sb);
    var buffer;
    ok, blockNum', buffer := TakeDataBlock(fs, blockNum);
    written' := written;
    if !ok {
      LeafPanic(meta, n, blockSize, s, input, written, SnapOf(fs), [Root(blockNum', 0)], written);
      return;
    }
    ghost var s1 := SnapOf(fs);
    var blockOffset := written % blockSize;
    var toWrite := |input| - written;
    if toWrite > blockSize - blockOffset {
      toWrite := blockSize - blockOffset;
    }
    ghost var before := buffer;
    buffer := CopyInto(buffer, blockOffset, input, written, toWrite);
    assert buffer == Overwritten(before, input[written..written + toWrite]);
    StoreBlock(fs, blockNum', buffer);
    written' := written + toWrite;
    Arith.NextMultiple(written, blockSize);
    LeafOutcome(meta, n, blockSize, s, blockNum, s1, blockNum', SnapOf(fs), input, written, written');
  }

  /** The entries after the first `i` are still ready to be written. */
  lemma EntryReady(meta: set<nat>, n: nat, bs: nat, s: Snap, t: seq<uint32>, h: nat, i: nat, s1: Snap, t1: seq<uint32>,
          input: seq<byte>, w0: nat, w1: nat)
    requires i < |t| && |t1| == |t| && w0 <= w1 <= |input| && Ready(meta, n, bs, s, Roots(t, h))
    requires WriteOutcome(meta, n, bs, s, Roots(t, h)[..i], s1, Roots(t1[..i], h), input, w0, true, w1)
    ensures Ready(meta, n, bs, s1, [Root(t[i], h)])
  {
    hide Written;
    hide Ready;
    hide Missing;
    hide Caps;
    var k := Roots(t, h);
    assert k == k[..i] + k[i..] && k[i..] == [Root(t[i], h)] + k[i + 1..];
    ReadyNext(meta, n, bs, s, k[..i], k[i..], s1, Roots(t1[..i], h), input[w0..w1]);
    ReadySplit(meta, n, bs, s1, [Root(t[i], h)], k[i + 1..]);
  }

  /** One more entry was written, or the file system ran out of blocks in it. */
  lemma EntryOutcome(meta: set<nat>, n: nat, bs: nat, s: Snap, t: seq<uint32>, h: nat, i: nat, s1: Snap,
          t1: seq<uint32>, s2: Snap, entry: uint32, t2: seq<uint32>, input: seq<byte>, w0: nat, w1: nat, ok: bool,
          w2: nat)
    requires i < |t| && |t1| == |t| && w0 <= w1 <= |input| && Ready(meta, n, bs, s, Roots(t, h))
    requires WriteOutcome(meta, n, bs, s, Roots(t, h)[..i], s1, Roots(t1[..i], h), input, w0, true, w1)
    requires WriteOutcome(meta, n, bs, s1, [Root(t[i], h)], s2, [Root(entry, h)], input, w1, ok, w2)
    requires t2 == t1[i := entry]
    ensures !ok ==> WriteOutcome(meta, n, bs, s, Roots(t, h), s2, Roots(t1, h), input, w0, false, w2)
    ensures ok ==> WriteOutcome(meta, n, bs, s, Roots(t, h)[..i + 1], s2, Roots(t2[..i + 1], h), input, w0, true, w2)
  {
    hide Written;
    hide Ready;
    hide Missing;
    hide Caps;
    var k := Roots(t, h);
    assert k == k[..i + 1] + k[i + 1..] && k[..i + 1] == k[..i] + [Root(t[i], h)];
    ReadySplit(meta, n, bs, s, k[..i + 1], k[i + 1..]);
    var f' := Roots(t1[..i], h) + [Root(entry, h)];
    OutcomeNext(meta, n, bs, s, k[..i], [Root(t[i], h)], s1, Roots(t1[..i], h), s2, [Root(entry, h)], input, w0, w1,
        ok, w2);
    if ok {
      assert Roots(t2[..i + 1], h) == f';
    } else {
      OutcomePanic(meta, n, bs, s, k[..i + 1], k[i + 1..], s2, f', Roots(t1, h), input, w0, w2);
    }
  }

  lemma RootsSplit(t: seq<uint32>, t1: seq<uint32>, h: nat, i: nat)
    requires i <= |t| && |t1| == |t| && t1[i..] == t[i..]
    ensures Roots(t, h) == Roots(t, h)[..i] + Roots(t, h)[i..]
    ensures Roots(t1, h) == Roots(t1[..i], h) + Roots(t, h)[i..]
  {
    assert forall j :: i <= j < |t| ==> t1[j] == t1[i..][j - i] && t[j] == t[i..][j - i];
  }

  /** The input ended after the first `i` entries; the others stay. */
  lemma EntriesDone(meta: set<nat>, n: nat, bs: nat, s: Snap, t: seq<uint32>, h: nat, i: nat, s1: Snap, t1: seq<uint32>,
          input: seq<byte>, w0: nat, w1: nat)
    requires i <= |t| && |t1| == |t| && t1[i..] == t[i..] && w0 <= w1 <= |input| && Ready(meta, n, bs, s, Roots(t, h))
    requires WriteOutcome(meta, n, bs, s, Roots(t, h)[..i], s1, Roots(t1[..i], h), input, w0, true, w1)
    requires i == |t| || w1 == |input|
    ensures WriteOutcome(meta, n, bs, s, Roots(t, h), s1, Roots(t1, h), input, w0, true, w1)
  {
    hide Written;
    hide Ready;
    hide Missing;
    hide Caps;
    RootsSplit(t, t1, h, i);
    if w1 == |input| {
      OutcomeDone(meta, n, bs, s, Roots(t, h)[..i], Roots(t, h)[i..], s1, Roots(t1[..i], h), input, w0);
    } else {
      assert t1[..i] == t1 && Roots(t, h)[..i] == Roots(t, h);
    }
  }

  /**
   Writes the next bytes of `input` below the pointer table `t` of a block at `level`, one entry after
   the other until the input ends.
   */
  method WriteEntries(fs: Ext2Fs, t: seq<uint32>, level: nat, input: seq<byte>, written: nat)
    returns (ok: bool, t': seq<uint32>, written': nat)
    requires level > 0 && written < |input| && FsReady(fs, Roots(t, level - 1)) && written % BlockSize(fs.sb) == 0
    modifies fs
    ensures fs.Valid() && SameLayout(old(fs.groups), old(fs.sb), fs.groups, fs.sb)
    ensures Bitmaps(fs.groups) == Bitmaps(old(fs.groups))
    ensures |t'| == |t|
    ensures WriteOutcome(Bitmaps(fs.groups), PerBlock(fs.sb), BlockSize(fs.sb), old(SnapOf(fs)), Roots(t, level - 1),
                         SnapOf(fs), Roots(t', level - 1), input, written, ok, written')
    ensures ok ==> written' == |input| || written' % BlockSize(fs.sb) == 0
    decreases level, 0
  {
    hide Written;
    hide Ready;
    hide Missing;
    hide Caps;
    hide Sound;
    hide Layout;
    ghost var meta, n, bs, s := Bitmaps(fs.groups), PerBlock(fs.sb), BlockSize(fs.sb), SnapOf(fs);
    ok, t', written' := true, t, written;
    OutcomeEmpty(meta, n, bs, s, Roots(t, level - 1), input, written);
    assert Roots(t'[..0], level - 1) == [] && Roots(t, level - 1)[..0] == [];
    var i := 0;
    while i < |t| && written' < |input|
      invariant i <= |t| && |t'| == |t| && t'[i..] == t[i..] && ok
      invariant fs.Valid() && SameLayout(old(fs.groups), old(fs.sb), fs.groups, fs.sb) && Bitmaps(fs.groups) == meta
      invariant written <= written' <= |input| && (written' == |input| || written' % bs == 0)
      invariant WriteOutcome(meta, n, bs, s, Roots(t, level - 1)[..i], SnapOf(fs), Roots(t'[..i], level - 1), input,
              written, true, written')
    {
      ghost var s1, w1, t1 := SnapOf(fs), written', t';
      assert t'[i] == t'[i..][0] == t[i];
      EntryReady(meta, n, bs, s, t, level - 1, i, s1, t1, input, written, w1);
      var entry;
      if level == 1 {
        ok, entry, written' := WriteFileBlock(fs, t'[i], input, written');
      } else {
        ok, entry, written' := WriteIndirectBlock(fs, t'[i], level - 1, input, written');
      }
      EntryOutcome(meta, n, bs, s, t, level - 1, i, s1, t1, SnapOf(fs), entry, t1[i := entry], input, written, w1,
          ok, written');
      if !ok {
        return;
      }
      t' := t'[i := entry];
      i := i + 1;
      assert t'[i..] == t1[i - 1..][1..] == t[i..];
    }
    EntriesDone(meta, n, bs, s, t, level - 1, i, SnapOf(fs), t', input, written, written');
  }

  lemma NodeCaps(n: nat, bs: nat, r: Root, d: Disk)
    requires r.level > 0 && n > 0 && bs > 0
    ensures Caps(n, bs, [r]) == Cap(n, bs, r.level) > 0
    ensures Caps(n, bs, Kids(d, n, r)) == Cap(n, bs, r.level)
  {
    CapPositive(n, bs, r.level);
    CapsOfKids(d, n, bs, r);
  }

  /** With nothing free a missing pointer block cannot be allocated. */
  lemma NodePanic(meta: set<nat>, n: nat, bs: nat, s: Snap, level: nat, input: seq<byte>, written: nat, s': Snap,
          f': Forest, written': nat)
    requires level > 0 && n > 0 && bs > 0 && s.count == 0 && written < |input|
    ensures WriteOutcome(meta, n, bs, s, [Root(0, level)], s', f', input, written, false, written')
  {
    NodeCaps(n, bs, Root(0, level), s.disk);
    NodeMissing(s.disk, n, bs, Root(0, level), Min(|input| - written, Cap(n, bs, level)));
  }

  /** What happens below a pointer block, and storing its table if all went well, is what happens to its root. */
  lemma NodeOutcome(meta: set<nat>, n: nat, bs: nat, s: Snap, r: Root, s1: Snap, r': Root, k: Forest, s2: Snap,
          t: seq<uint32>, f: Forest, s3: Snap, input: seq<byte>, w0: nat, ok: bool, w1: nat)
    requires Opened(meta, n, bs, s, r, s1, r', k) && w0 < |input|
    requires WriteOutcome(meta, n, bs, s1, k, s2, f, input, w0, ok, w1)
    requires |t| == n && f == Roots(t, r.level - 1)
    requires ok ==> r'.ptr < |s2.disk| && s3 == s2.(disk := s2.disk[r'.ptr := Bytes(t)])
    ensures WriteOutcome(meta, n, bs, s, [r], s3, [r'], input, w0, ok, w1)
  {
    NodeCaps(n, bs, r, s.disk);
    NodeCaps(n, bs, r', s1.disk);
    if ok {
      WrittenUp(meta, n, bs, s, r, s1, r', k, s2, t, f, s3, input[w0..w1]);
    }
  }

  /** A missing pointer block is allocated and zeroed. */
  method TakePointerBlock(fs: Ext2Fs, blockNum: uint32, level: nat) returns (ok: bool, blockNum': uint32)
    requires level > 0 && FsReady(fs, [Root(blockNum, level)])
    modifies fs
    ensures fs.Valid() && SameLayout(old(fs.groups), old(fs.sb), fs.groups, fs.sb)
    ensures Bitmaps(fs.groups) == Bitmaps(old(fs.groups))
    ensures !ok <==> blockNum == 0 && old(fs.sb.freeBlocks) == 0
    ensures ok ==> Opened(Bitmaps(fs.groups), PerBlock(fs.sb), BlockSize(fs.sb), old(SnapOf(fs)), Root(blockNum, level),
                          SnapOf(fs), Root(blockNum', level), Kids(fs.disk, PerBlock(fs.sb), Root(blockNum', level)))
  {
    hide Layout;
    hide SizeFromLog;
    ghost var meta, n, s := Bitmaps(fs.groups), PerBlock(fs.sb), SnapOf(fs);
    if blockNum != 0 {
      OpenedPresent(meta, n, BlockSize(fs.sb), s, Root(blockNum, level));
      return true, blockNum;
    }
    var block := fs.AllocBlock();
    if block.None? {
      return false, 0;
    }
    ghost var s0 := SnapOf(fs);
    StoreBlock(fs, block.value, Zeros(BlockSize(fs.sb)));
    OpenedFresh(meta, n, BlockSize(fs.sb), s, Root(0, level), s0, block.value, SnapOf(fs));
    ok, blockNum' := true, block.value;
  }

  /** Writes the next bytes of `input` below a block of pointers, allocating it if it is missing. */
  method WriteIndirectBlock(fs: Ext2Fs, blockNum: uint32, level: nat, input: seq<byte>, written: nat)
    returns (ok: bool, blockNum': uint32, written': nat)
    requires level > 0 && written < |input| && FsReady(fs, [Root(blockNum, level)]) && written % BlockSize(fs.sb) == 0
    modifies fs
    ensures fs.Valid() && SameLayout(old(fs.groups), old(fs.sb), fs.groups, fs.sb)
    ensures Bitmaps(fs.groups) == Bitmaps(old(fs.groups))
    ensures WriteOutcome(Bitmaps(fs.groups), PerBlock(fs.sb), BlockSize(fs.sb), old(SnapOf(fs)),
                         [Root(blockNum, level)], SnapOf(fs), [Root(blockNum', level)], input, written, ok, written')
    ensures ok ==> written' == |input| || written' % BlockSize(fs.sb) == 0
    decreases level, 1
  {
    hide Sound;
    hide Layout;
    hide SizeFromLog;
    hide Missing;
    hide Backed;
    hide Content;
    hide Reach;
    hide Sep;
    hide Roots;
    hide Table;
    hide Bytes;
    hide Kids;
    ghost var meta, n, s := Bitmaps(fs.groups), PerBlock(fs.sb), SnapOf(fs);
    var blockSize := BlockSize(fs.sb);
    written' := written;
    ok, blockNum' := TakePointerBlock(fs, blockNum, level);
    if !ok {
      NodePanic(meta, n, blockSize, s, level, input, written, SnapOf(fs), [Root(blockNum', level)], written');
      return;
    }
    ghost var s1 := SnapOf(fs);
    ghost var r, r', k := Root(blockNum, level), Root(blockNum', level), Kids(fs.disk, n, Root(blockNum', level));
    var buffer := LoadBlock(fs, blockNum');
    var blocks := Table(buffer);
    KidsLoaded(fs.disk, n, r');
    ok, blocks, written' := WriteEntries(fs, blocks, level, input, written);
    ghost var s2 := SnapOf(fs);
    if ok {
      StoreBlock(fs, blockNum', Bytes(blocks));
    }
    NodeOutcome(meta, n, blockSize, s, r, s1, r', k, s2, blocks, Roots(blocks, level - 1), SnapOf(fs), input,
        written, ok, written');
  }
}
