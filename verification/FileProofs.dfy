/** Properties that span writing, reading and releasing a file. */
module FileProofs {
  import opened Options
  import opened Words
  import opened Bitmap
  import opened BlockStore
  import opened BlockTree
  import opened FileWriteSpec
  import opened FileWrite
  import opened InodeTable
  import opened FileContent
  import opened FileRead
  import opened FileReadProofs
  import opened FileFree

  // ---------------------------------------------------------------------------------------------
  // Counting free blocks

  /** The free blocks among the first `k` of group `g`. */
  ghost function FreeInGroup(d: Disk, ds: seq<Descriptor>, sb: Superblock, g: nat, k: nat): set<nat>
    requires Formatted(d, ds, sb) && g < |ds| && k <= sb.blocksPerGroup
  {
    set o | 0 <= o < k && !Bit(d[ds[g].bitmapBlock], o) :: BlockAt(sb, g, o)
  }

  lemma {:induction false} FreeInGroupCount(d: Disk, ds: seq<Descriptor>, sb: Superblock, g: nat, k: nat)
    requires Formatted(d, ds, sb) && g < |ds| && k <= sb.blocksPerGroup
    ensures |FreeInGroup(d, ds, sb, g, k)| == ClearBits(d[ds[g].bitmapBlock], k)
  {
    hide SizeFromLog;
    hide Addressable;
    if k > 0 {
      FreeInGroupCount(d, ds, sb, g, k - 1);
      var before := FreeInGroup(d, ds, sb, g, k - 1);
      if Bit(d[ds[g].bitmapBlock], k - 1) {
        assert FreeInGroup(d, ds, sb, g, k) == before;
      } else {
        assert FreeInGroup(d, ds, sb, g, k) == before + {BlockAt(sb, g, k - 1)};
      }
    }
  }

  /** The free blocks of the first `g` groups. */
  ghost function FreeBefore(d: Disk, ds: seq<Descriptor>, sb: Superblock, g: nat): set<nat>
    requires Formatted(d, ds, sb) && g <= |ds|
  {
    if g == 0 then {} else FreeBefore(d, ds, sb, g - 1) + FreeInGroup(d, ds, sb, g - 1, sb.blocksPerGroup)
  }

  lemma {:induction false} FreeBeforeMembers(d: Disk, ds: seq<Descriptor>, sb: Superblock, g: nat)
    requires Formatted(d, ds, sb) && g <= |ds|
    ensures forall b :: b in FreeBefore(d, ds, sb, g) <==>
            InGroups(ds, sb, b) && GroupOf(sb, b) < g && IsFree(d, ds, sb, b)
  {
    hide FreeInGroup;
    hide IsFree;
    hide Formatted;
    if g > 0 {
      FreeBeforeMembers(d, ds, sb, g - 1);
      FreeInGroupMembers(d, ds, sb, g - 1);
    }
  }

  lemma {:induction false} FreeBeforeCount(d: Disk, ds: seq<Descriptor>, sb: Superblock, g: nat)
    requires Formatted(d, ds, sb) && CountersAgree(d, ds, sb) && g <= |ds|
    ensures |FreeBefore(d, ds, sb, g)| == SumFree(ds[..g])
  {
    hide FreeInGroup;
    hide IsFree;
    hide Formatted;
    if g > 0 {
      FreeBeforeCount(d, ds, sb, g - 1);
      FreeInGroupCount(d, ds, sb, g - 1, sb.blocksPerGroup);
      var a, b := FreeBefore(d, ds, sb, g - 1), FreeInGroup(d, ds, sb, g - 1, sb.blocksPerGroup);
      assert a !! b by {
        FreeBeforeMembers(d, ds, sb, g - 1);
        FreeInGroupMembers(d, ds, sb, g - 1);
      }
      assert |a + b| == |a| + |b|;
      assert ds[..g][..g - 1] == ds[..g - 1];
    }
  }

  lemma FreeInGroupMembers(d: Disk, ds: seq<Descriptor>, sb: Superblock, g: nat)
    requires Formatted(d, ds, sb) && g < |ds|
    ensures forall b :: b in FreeInGroup(d, ds, sb, g, sb.blocksPerGroup)
                   <==> InGroups(ds, sb, b) && GroupOf(sb, b) == g && IsFree(d, ds, sb, b)
  {
    var s := FreeInGroup(d, ds, sb, g, sb.blocksPerGroup);
    forall b | b in s
      ensures InGroups(ds, sb, b) && GroupOf(sb, b) == g && IsFree(d, ds, sb, b)
    {
      var o :| 0 <= o < sb.blocksPerGroup && !Bit(d[ds[g].bitmapBlock], o) && b == BlockAt(sb, g, o);
      BlockAtInverse(sb, g, o);
    }
    forall b | InGroups(ds, sb, b) && GroupOf(sb, b) == g && IsFree(d, ds, sb, b)
      ensures b in s
    {
      BlockAtOfGroup(sb, b);
    }
  }

  /** The superblock's counter is the number of blocks that the bitmaps mark as free. */
  lemma FreeCount(d: Disk, ds: seq<Descriptor>, sb: Superblock)
    requires Sound(d, ds, sb)
    ensures |FreeSet(d, ds, sb)| == sb.freeBlocks
  {
    hide FreeInGroup;
    hide SumFree;
    hide FreeBefore;
    FreeBeforeCount(d, ds, sb, |ds|);
    FreeBeforeMembers(d, ds, sb, |ds|);
    assert ds[..|ds|] == ds;
    assert FreeBefore(d, ds, sb, |ds|) == FreeSet(d, ds, sb) by {
      forall b: nat | InGroups(ds, sb, b) && IsFree(d, ds, sb, b)
        ensures b < |d|
      {
        BlockAtOfGroup(sb, b);
      }
    }
  }

  // ---------------------------------------------------------------------------------------------
  // Writing and reading back

  /** What was written to a file of at most thirteen blocks is read back, but for NUL bytes. */
  lemma WriteThenRead(meta: set<nat>, n: nat, s: Snap, f: Forest, v: Volume, s': Snap, junk: seq<byte>, inode: Inode,
          slot: nat, input: seq<byte>)
    requires FileOverwritten(meta, n, v.bs, s, f, s', inode.Forest(), slot, input) && v.disk == s'.disk
    requires Addressable(|v.disk|, v.bs) && inode.WellFormed() && inode.Size() == |input| <= 13 * v.bs
    ensures ReadBack(v, n, junk, inode) == Some(DropNul(input))
  {
    hide Sep;
    hide Content;
    hide Backed;
    hide ReadFile;
    hide Reach;
    hide Addressable;
    SmallFileReadsBack(v, n, junk, inode);
    assert Content(v.disk, n, v.bs, inode.Forest())[..|input|] == input;
  }

  /** A reader with tables of its own returns every file that was written, however large. */
  lemma WriteThenReadWithOwnTables(meta: set<nat>, n: nat, s: Snap, f: Forest, v: Volume, s': Snap, inode: Inode,
          slot: nat, input: seq<byte>)
    requires FileOverwritten(meta, n, v.bs, s, f, s', inode.Forest(), slot, input) && v.disk == s'.disk
    requires Addressable(|v.disk|, v.bs)
    ensures var st := ReadForest(v, n, inode.Forest(), ReadState([], [], 0), |input|);
            st.Some? && st.value.out == DropNul(input)
  {
    hide Sep;
    hide Content;
    hide Backed;
    hide ReadForest;
    hide Reach;
    hide Addressable;
    BackedBound(v.disk, n, v.bs, inode.Forest(), |input|);
    OwnTablesReadBack(v, n, inode.Forest(), ReadState([], [], 0), |input|, |input|);
    assert Content(v.disk, n, v.bs, inode.Forest())[..|input|] == input;
  }

  // ---------------------------------------------------------------------------------------------
  // Releasing

  /** In every table that the first `e` entries lead to, the entries from the `e`-th on are null. */
  predicate NullFrom(d: Disk, n: nat, e: nat, f: Forest)
    requires e <= n
    decreases MaxLevel(f), |f|
  {
    f == [] ||
    (&& (f[0].ptr != 0 && f[0].level > 0 ==> AllNull(Kids(d, n, f[0])[e..]) && NullFrom(d, n, e, Kids(d, e, f[0])))
     && NullFrom(d, n, e, f[1..]))
  }

  lemma ReachEmptyIff(d: Disk, n: nat, f: Forest)
    ensures Reach(d, n, f) == {} <==> AllNull(f)
  {
    if AllNull(f) {
      NullReach(d, n, f);
    } else {
      var i :| 0 <= i < |f| && f[i].ptr != 0;
      assert f == f[..i] + [f[i]] + f[i + 1..];
      ReachConcat(d, n, f[..i] + [f[i]], f[i + 1..]);
      ReachConcat(d, n, f[..i], [f[i]]);
      assert f[i].ptr as nat in Reach(d, n, [f[i]]);
    }
  }

  lemma UnionsEqual(a: set<nat>, b: set<nat>, a': set<nat>, b': set<nat>)
    requires a <= a' && b <= b' && a' !! b'
    ensures a + b == a' + b' <==> a == a' && b == b'
  {
    if a + b == a' + b' {
      forall x | x in a'
        ensures x in a
      {
        assert x in a + b;
      }
      forall x | x in b'
        ensures x in b
      {
        assert x in a + b;
      }
    }
  }

  lemma KidsSplit(d: Disk, n: nat, e: nat, r: Root)
    requires e <= n && Sized(d, 4 * n) && r.level > 0 && r.ptr != 0 && Sep(d, n, [r])
    ensures var k := Kids(d, n, r);
            && Kids(d, e, r) == k[..e]
            && Reach(d, n, k) == Reach(d, n, k[..e]) + Reach(d, n, k[e..])
            && Reach(d, n, k[..e]) !! Reach(d, n, k[e..]) && Sep(d, n, k[..e])
            && r.ptr as nat !in Reach(d, n, k)
  {
    var k := Kids(d, n, r);
    assert Kids(d, e, r) == k[..e];
    assert k == k[..e] + k[e..];
    hide Kids;
    hide Roots;
    ReachConcat(d, n, k[..e], k[e..]);
    SepConcat(d, n, k[..e], k[e..]);
  }

  lemma RootReach(d: Disk, n: nat, r: Root)
    requires r.ptr != 0
    ensures Reach(d, n, [r]) == {r.ptr as nat} + Reach(d, n, Kids(d, n, r))
  {
  }

  lemma SameBesides(p: nat, a: set<nat>, b: set<nat>, c: set<nat>)
    requires a <= b && b !! c && p !in b && p !in c
    ensures {p} + a == {p} + (b + c) <==> c == {} && a == b
  {
    UnionsEqual(a, {}, b, c);
    assert a == ({p} + a) - {p} && b + c == ({p} + (b + c)) - {p} && a + {} == a;
  }

  /** One root: all of it is reached exactly if the rest of its table is null and so on below it. */
  lemma RootIff(d: Disk, n: nat, e: nat, r: Root)
    requires e <= n && Sized(d, 4 * n) && r.level > 0 && r.ptr != 0 && Sep(d, n, [r])
    requires Reach(d, e, Kids(d, e, r)) <= Reach(d, n, Kids(d, e, r))
    ensures Reach(d, e, [r]) == Reach(d, n, [r])
       <==> AllNull(Kids(d, n, r)[e..]) && Reach(d, e, Kids(d, e, r)) == Reach(d, n, Kids(d, e, r))
  {
    KidsSplit(d, n, e, r);
    RootReach(d, n, r);
    RootReach(d, e, r);
    hide Reach;
    hide Sep;
    hide Kids;
    var k := Kids(d, n, r);
    ReachEmptyIff(d, n, k[e..]);
    hide AllNull;
    SameBesides(r.ptr, Reach(d, e, k[..e]), Reach(d, n, k[..e]), Reach(d, n, k[e..]));
  }

  /** Going through the first `e` entries of each table reaches every block exactly if the other entries are null. */
  lemma {:induction false} AllReachedIff(d: Disk, n: nat, e: nat, f: Forest)
    requires e <= n && Sized(d, 4 * n) && Sep(d, n, f)
    ensures Reach(d, e, f) == Reach(d, n, f) <==> NullFrom(d, n, e, f)
    decreases MaxLevel(f), |f|
  {
    if f != [] {
      var r := f[0];
      assert f == [r] + f[1..];
      SepConcat(d, n, [r], f[1..]);
      ReachConcat(d, n, [r], f[1..]);
      ReachConcat(d, e, [r], f[1..]);
      FewerEntries(d, n, e, [r]);
      FewerEntries(d, n, e, f[1..]);
      UnionsEqual(Reach(d, e, [r]), Reach(d, e, f[1..]), Reach(d, n, [r]), Reach(d, n, f[1..]));
      AllReachedIff(d, n, e, f[1..]);
      if r.ptr != 0 && r.level > 0 {
        KidsSplit(d, n, e, r);
        var k := Kids(d, e, r);
        FewerEntries(d, n, e, k);
        AllReachedIff(d, n, e, k);
        RootIff(d, n, e, r);
      } else {
        assert Reach(d, e, [r]) == Reach(d, n, [r]);
      }
    }
  }

  /**
   The code goes through a quarter of the logarithm of the block size, so it releases every block of the file
   exactly if all entries of the tables from that on are null; up to 8 KiB these are all entries.
   */
  lemma CodeReleasesAllIff(d: Disk, sb: Superblock, inode: Inode)
    requires inode.WellFormed() && Sized(d, BlockSize(sb)) && Sep(d, PerBlock(sb), inode.Forest())
    ensures CodedEntries(sb) == sb.logBlockSize / 4 <= PerBlock(sb) == BlockSize(sb) / 4
    ensures Reach(d, CodedEntries(sb), inode.Forest()) == Reach(d, PerBlock(sb), inode.Forest())
       <==> NullFrom(d, PerBlock(sb), CodedEntries(sb), inode.Forest())
  {
    CodedEntriesFew(sb);
    assert BlockSize(sb) == 4 * PerBlock(sb);
    AllReachedIff(d, PerBlock(sb), CodedEntries(sb), inode.Forest());
  }

  /** A file written from nothing and then released through all entries gives every block back. */
  lemma WriteThenFree(meta: set<nat>, n: nat, bs: nat, s: Snap, f: Forest, s': Snap, f': Forest, slot: nat,
          data: seq<byte>, x: FsState, y: FsState)
    requires AllNull(f) && FileOverwritten(meta, n, bs, s, f, s', f', slot, data)
    requires s'.disk == x.disk && s'.free == FreeSet(x.disk, x.groups, x.sb)
    requires Released(x, y, Reach(x.disk, n, f'))
    ensures FreeSet(y.disk, y.groups, y.sb) == s.free
    ensures y.sb.freeBlocks == |s.free|
  {
    hide Sound;
    hide FreeSet;
    hide Sep;
    NullReach(s.disk, n, f);
    FreeCount(y.disk, y.groups, y.sb);
  }
}
