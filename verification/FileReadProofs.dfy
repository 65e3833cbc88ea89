/** Reading back: by a reader with tables of its own, and by the code as far as thirteen blocks. */
module FileReadProofs {
  import opened Options
  import opened Words
  import opened BlockStore
  import opened BlockTree
  import opened FileWriteSpec
  import opened InodeTable
  import opened FileRead
  import Arith

  // ---------------------------------------------------------------------------------------------
  // A reader that keeps every table of pointers in a buffer of its own

  /** What the volumes of the kernel meet: whole blocks, no further than 4 GiB. */
  ghost predicate Sane(v: Volume, n: nat)
  {
    n > 0 && v.bs == 4 * n && Sized(v.disk, v.bs) && Addressable(|v.disk|, v.bs)
  }

  function ReadForest(v: Volume, n: nat, f: Forest, st: ReadState, size: nat): Option<ReadState>
    requires v.bs > 0
    decreases MaxLevel(f), |f|
  {
    if f == [] || st.read >= size then Some(st)
    else
      var st' := ReadTree(v, n, f[0], st, size);
      if st'.None? then None else ReadForest(v, n, f[1..], st'.value, size)
  }

  function ReadTree(v: Volume, n: nat, r: Root, st: ReadState, size: nat): Option<ReadState>
    requires v.bs > 0
    decreases r.level, 0
  {
    if v.PassesOver(r.ptr) then Some(st)
    else if r.level == 0 then ReadBlockStep(v, r.ptr, st, size)
    else if v.Load(r.ptr).Stuck? then None
    else ReadForest(v, n, Kids(v.disk, n, r), st, size)
  }

  /** The bytes below one root. */
  function TreeBytes(d: Disk, n: nat, bs: nat, r: Root): seq<byte>
  {
    if r.level == 0 then BlockBytes(d, bs, r.ptr) else Content(d, n, bs, Kids(d, n, r))
  }

  lemma Cons(d: Disk, n: nat, bs: nat, f: Forest)
    requires f != []
    ensures Content(d, n, bs, f) == TreeBytes(d, n, bs, f[0]) + Content(d, n, bs, f[1..])
    ensures |TreeBytes(d, n, bs, f[0])| == Cap(n, bs, f[0].level)
    ensures Sep(d, n, f) ==> Sep(d, n, f[1..])
    ensures Sep(d, n, f) && f[0].ptr != 0 ==> f[0].ptr < |d| && Sep(d, n, Kids(d, n, f[0]))
  {
    if f[0].level > 0 {
      ContentLength(d, n, bs, Kids(d, n, f[0]));
      CapsOfKids(d, n, bs, f[0]);
    }
  }

  /** `m` more bytes of `content` were read. */
  predicate Advanced(st: ReadState, st': Option<ReadState>, content: seq<byte>, m: nat)
  {
    && st'.Some? && m <= |content|
    && st'.value.read == st.read + m && st'.value.out == st.out + DropNul(content[..m])
  }

  lemma AdvancedTwice(st: ReadState, st1: Option<ReadState>, st2: Option<ReadState>, a: seq<byte>, b: seq<byte>, m: nat,
          m': nat)
    requires Advanced(st, st1, a, m) && Advanced(st1.value, st2, b, m') && (m' == 0 || m == |a|)
    ensures Advanced(st, st2, a + b, m + m')
  {
    assert (a + b)[..m + m'] == a[..m] + b[..m'];
    DropNulConcat(a[..m], b[..m']);
  }

  lemma BlockThere(v: Volume, n: nat, p: uint32)
    requires Sane(v, n) && 0 < p < |v.disk|
    ensures v.LeadsTo(p, v.disk[p])
  {
    PlaceSame(|v.disk|, v.bs, p);
  }

  lemma ReadsBlock(v: Volume, n: nat, p: uint32, st: ReadState, size: nat)
    requires Sane(v, n) && 0 < p < |v.disk| && st.read <= size
    ensures Advanced(st, ReadBlockStep(v, p, st, size), BlockBytes(v.disk, v.bs, p), Min(size - st.read, v.bs))
    ensures st.read < size ==> ReadBlockStep(v, p, st, size).value.buffer == v.disk[p]
  {
    BlockThere(v, n, p);
  }

  /** With tables of its own, a reader returns the bytes of every backed file, with NUL bytes dropped. */
  lemma {:induction false} OwnTablesReadBack(v: Volume, n: nat, f: Forest, st: ReadState, size: nat, m: nat)
    requires Sane(v, n) && Sep(v.disk, n, f)
    requires st.read <= size && m == Min(size - st.read, Caps(n, v.bs, f)) && Backed(v.disk, n, v.bs, f, m)
    ensures Advanced(st, ReadForest(v, n, f, st, size), Content(v.disk, n, v.bs, f), m)
    decreases MaxLevel(f), |f|
  {
    hide Sep;
    hide Content;
    hide Backed;
    hide TreeBytes;
    hide ReadTree;
    if f == [] || st.read == size {
      assert Content(v.disk, n, v.bs, f)[..0] == [];
    } else {
      Cons(v.disk, n, v.bs, f);
      CapPositive(n, v.bs, f[0].level);
      var c := Min(m, Cap(n, v.bs, f[0].level));
      BackedCons(v.disk, n, v.bs, f, m, c);
      TreeReadsBack(v, n, f[0], st, size, c);
      var st' := ReadTree(v, n, f[0], st, size);
      OwnTablesReadBack(v, n, f[1..], st'.value, size, m - c);
      AdvancedTwice(st, st', ReadForest(v, n, f, st, size), TreeBytes(v.disk, n, v.bs, f[0]),
          Content(v.disk, n, v.bs, f[1..]), c, m - c);
    }
  }

  lemma {:induction false} TreeReadsBack(v: Volume, n: nat, r: Root, st: ReadState, size: nat, c: nat)
    requires Sane(v, n) && r.ptr < |v.disk| && Sep(v.disk, n, Kids(v.disk, n, r))
    requires st.read < size && c == Min(size - st.read, Cap(n, v.bs, r.level)) && BackedBelow(v.disk, n, v.bs, r, c)
    ensures Advanced(st, ReadTree(v, n, r, st, size), TreeBytes(v.disk, n, v.bs, r), c)
    decreases r.level, 0
  {
    hide Place;
    hide Addressable;
    BlockThere(v, n, r.ptr);
    if r.level == 0 {
      ReadsBlock(v, n, r.ptr, st, size);
    } else {
      CapsOfKids(v.disk, n, v.bs, r);
      OwnTablesReadBack(v, n, Kids(v.disk, n, r), st, size, c);
    }
  }

  // ---------------------------------------------------------------------------------------------
  // The code's reader on direct blocks

  lemma {:induction false} DirectReadsBack(v: Volume, n: nat, t: seq<uint32>, st: ReadState, size: nat, m: nat)
    requires Sane(v, n) && Sep(v.disk, n, Roots(t, 0))
    requires st.read < size && m == Min(size - st.read, Caps(n, v.bs, Roots(t, 0)))
    requires Backed(v.disk, n, v.bs, Roots(t, 0), m)
    ensures Advanced(st, ReadDirect(v, t, st, size), Content(v.disk, n, v.bs, Roots(t, 0)), m)
    decreases |t|
  {
    hide Sep;
    hide Content;
    hide Backed;
    hide DropNul;
    hide Place;
    hide Addressable;
    var f := Roots(t, 0);
    if t == [] {
      assert Content(v.disk, n, v.bs, f)[..0] == [];
    } else {
      var c := Min(m, v.bs);
      Cons(v.disk, n, v.bs, f);
      BackedCons(v.disk, n, v.bs, f, m, c);
      ReadsBlock(v, n, t[0], st, size);
      var st1 := ReadBlockStep(v, t[0], st, size);
      assert f[1..] == Roots(t[1..], 0);
      if st1.value.read < size {
        DirectReadsBack(v, n, t[1..], st1.value, size, m - c);
        AdvancedTwice(st, st1, ReadDirect(v, t, st, size), BlockBytes(v.disk, v.bs, t[0]),
            Content(v.disk, n, v.bs, f[1..]), c, m - c);
      } else {
        assert Content(v.disk, n, v.bs, f)[..m] == BlockBytes(v.disk, v.bs, t[0])[..m];
      }
    }
  }

  // ---------------------------------------------------------------------------------------------
  // Below an indirect pointer

  /** The first kid of a pointer block holds its first bytes. */
  lemma FirstKid(d: Disk, n: nat, bs: nat, r: Root)
    requires r.level > 0 && n > 0 && bs == 4 * n && Sized(d, bs) && 0 < r.ptr < |d|
    ensures var k := Kids(d, n, r);
            && |k| == n && k[0] == Root(Word(d[r.ptr], 0), r.level - 1)
            && bs <= |TreeBytes(d, n, bs, k[0])|
            && |TreeBytes(d, n, bs, r)| == Cap(n, bs, r.level)
            && TreeBytes(d, n, bs, k[0]) <= TreeBytes(d, n, bs, r)
  {
    hide Sep;
    hide Content;
    hide Cap;
    var k := Kids(d, n, r);
    assert |k| == n && k[0] == Root(Word(d[r.ptr], 0), r.level - 1) by {
      KidsLoaded(d, n, r);
    }
    hide Kids;
    Cons(d, n, bs, k);
    Cons(d, n, bs, [r]);
    CapAtLeastBlock(n, bs, r.level - 1);
  }

  lemma {:induction false} CapAtLeastBlock(n: nat, bs: nat, level: nat)
    requires n > 0
    ensures Cap(n, bs, level) >= bs
  {
    if level > 0 {
      CapAtLeastBlock(n, bs, level - 1);
      Arith.MulMonotone(1, n, Cap(n, bs, level - 1));
    }
  }

  /** The kids of a backed root are separated and backed, so that its first kid is an allocated block. */
  lemma FirstKidBacked(d: Disk, n: nat, bs: nat, r: Root, c: nat)
    requires r.level > 0 && n > 0 && bs > 0 && 0 < r.ptr < |d| && Sep(d, n, Kids(d, n, r))
    requires BackedBelow(d, n, bs, r, c) && c > 0
    ensures var k := Kids(d, n, r)[0];
            && 0 < k.ptr < |d| && Sep(d, n, Kids(d, n, k)) && BackedBelow(d, n, bs, k, Min(c, Cap(n, bs, k.level)))
            && Min(c, Cap(n, bs, k.level)) > 0
  {
    var k := Kids(d, n, r);
    BackedCons(d, n, bs, k, c, Min(c, Cap(n, bs, k[0].level)));
    CapPositive(n, bs, k[0].level);
  }

  /** If at most one block is left, the single indirect pointer yields it. */
  lemma LastBlock(v: Volume, n: nat, r: Root, st: ReadState, size: nat)
    requires Sane(v, n) && r.level == 1 && r.ptr < |v.disk| && Sep(v.disk, n, Kids(v.disk, n, r))
    requires st.read < size <= st.read + v.bs && BackedBelow(v.disk, n, v.bs, r, size - st.read)
    ensures Advanced(st, ReadIndirectStep(v, n, r.ptr, 1, st, size), TreeBytes(v.disk, n, v.bs, r), size - st.read)
  {
    hide Sep;
    hide Backed;
    hide Place;
    hide Addressable;
    var d, bs := v.disk, v.bs;
    var k := Kids(d, n, r)[0];
    FirstKid(d, n, bs, r);
    FirstKidBacked(d, n, bs, r, size - st.read);
    BlockThere(v, n, r.ptr);
    var st0 := st.(buffer := d[r.ptr]);
    assert Entry(st0, 0) == k.ptr;
    BlockThere(v, n, k.ptr);
    assert BlockBytes(d, bs, k.ptr)[..size - st.read] == TreeBytes(d, n, bs, r)[..size - st.read];
  }

  // ---------------------------------------------------------------------------------------------
  // Whole files

  /** The last root of a forest holds the bytes after those of the others. */
  lemma LastRoot(d: Disk, n: nat, bs: nat, f: Forest, r: Root, m: nat)
    requires n > 0 && bs > 0 && Sep(d, n, f + [r])
    requires m <= Caps(n, bs, f) + Cap(n, bs, r.level) && Backed(d, n, bs, f + [r], m)
    ensures Caps(n, bs, f + [r]) == Caps(n, bs, f) + Cap(n, bs, r.level)
    ensures Content(d, n, bs, f + [r]) == Content(d, n, bs, f) + TreeBytes(d, n, bs, r)
    ensures |Content(d, n, bs, f)| == Caps(n, bs, f) && |TreeBytes(d, n, bs, r)| == Cap(n, bs, r.level)
    ensures Sep(d, n, f) && Backed(d, n, bs, f, Min(m, Caps(n, bs, f)))
    ensures r.ptr != 0 ==> r.ptr < |d| && Sep(d, n, Kids(d, n, r))
    ensures m > Caps(n, bs, f) ==> BackedBelow(d, n, bs, r, m - Caps(n, bs, f))
  {
    hide Sep;
    hide Content;
    hide Backed;
    hide BackedBelow;
    hide Kids;
    hide TreeBytes;
    hide Cap;
    CapsConcat(n, bs, f, [r]);
    ContentConcat(d, n, bs, f, [r]);
    ContentLength(d, n, bs, f);
    Cons(d, n, bs, [r]);
    assert Content(d, n, bs, [r][1..]) == [] by {
      ContentLength(d, n, bs, [r][1..]);
    }
    SepConcat(d, n, f, [r]);
    var a := Min(m, Caps(n, bs, f));
    BackedConcat(d, n, bs, f, [r], a, m - a, m);
    if m > a {
      BackedCons(d, n, bs, [r], m - a, m - a);
    }
  }

  lemma {:induction false} BackedBound(d: Disk, n: nat, bs: nat, f: Forest, m: nat)
    requires Backed(d, n, bs, f, m)
    ensures m <= Caps(n, bs, f)
    decreases |f|
  {
    if m > 0 {
      BackedBound(d, n, bs, f[1..], m - Min(m, Cap(n, bs, f[0].level)));
    }
  }

  /** Root `r` of a backed file of `size` bytes is present if the file has bytes from `start` on. */
  ghost predicate PartBacked(d: Disk, n: nat, bs: nat, r: Root, start: nat, size: nat)
  {
    && (r.ptr != 0 ==> r.ptr < |d| && Sep(d, n, Kids(d, n, r)))
    && (size > start ==> BackedBelow(d, n, bs, r, Min(size - start, Cap(n, bs, r.level))))
    && |TreeBytes(d, n, bs, r)| == Cap(n, bs, r.level)
  }

  /** The bytes of a file lie one part after the other. */
  lemma InodeParts(d: Disk, n: nat, bs: nat, inode: Inode)
    requires n > 0 && bs > 0 && inode.WellFormed() && Sep(d, n, inode.Forest())
    requires Backed(d, n, bs, inode.Forest(), inode.Size())
    ensures Caps(n, bs, Roots(inode.direct, 0)) == 12 * bs == |Content(d, n, bs, Roots(inode.direct, 0))|
    ensures Sep(d, n, Roots(inode.direct, 0)) && Backed(d, n, bs, Roots(inode.direct, 0), Min(inode.Size(), 12 * bs))
    ensures PartBacked(d, n, bs, Root(inode.single, 1), 12 * bs, inode.Size())
    ensures PartBacked(d, n, bs, Root(inode.double, 2), 12 * bs + Cap(n, bs, 1), inode.Size())
    ensures PartBacked(d, n, bs, Root(inode.triple, 3), 12 * bs + Cap(n, bs, 1) + Cap(n, bs, 2), inode.Size())
    ensures Content(d, n, bs, inode.Forest())
         == Content(d, n, bs, Roots(inode.direct, 0)) + TreeBytes(d, n, bs, Root(inode.single, 1))
            + TreeBytes(d, n, bs, Root(inode.double, 2)) + TreeBytes(d, n, bs, Root(inode.triple, 3))
    ensures inode.Size() <= |Content(d, n, bs, inode.Forest())|
  {
    hide Sep;
    hide Content;
    hide Backed;
    hide BackedBelow;
    hide Kids;
    hide TreeBytes;
    hide Cap;
    var f0 := Roots(inode.direct, 0);
    var f1 := f0 + [Root(inode.single, 1)];
    var f2 := f1 + [Root(inode.double, 2)];
    var size := inode.Size();
    assert Caps(n, bs, f0) == 12 * bs by {
      CapsOfLevel(n, bs, f0, 0);
      assert Cap(n, bs, 0) == bs by { CapOfBlock(n, bs); }
    }
    assert Caps(n, bs, f1) == 12 * bs + Cap(n, bs, 1) by {
      OneMore(n, bs, f0, Root(inode.single, 1));
    }
    assert Caps(n, bs, f2) == 12 * bs + Cap(n, bs, 1) + Cap(n, bs, 2) by {
      OneMore(n, bs, f1, Root(inode.double, 2));
    }
    BackedBound(d, n, bs, inode.Forest(), size);
    OneMore(n, bs, f2, Root(inode.triple, 3));
    ContentLength(d, n, bs, inode.Forest());
    PartOf(d, n, bs, f2, Root(inode.triple, 3), size, size);
    PartOf(d, n, bs, f1, Root(inode.double, 2), Min(size, Caps(n, bs, f2)), size);
    PartOf(d, n, bs, f0, Root(inode.single, 1), Min(size, Caps(n, bs, f1)), size);
  }

  lemma PartOf(d: Disk, n: nat, bs: nat, f: Forest, r: Root, m: nat, size: nat)
    requires n > 0 && bs > 0 && Sep(d, n, f + [r]) && Backed(d, n, bs, f + [r], m)
    requires m == Min(size, Caps(n, bs, f) + Cap(n, bs, r.level))
    ensures PartBacked(d, n, bs, r, Caps(n, bs, f), size)
    ensures Content(d, n, bs, f + [r]) == Content(d, n, bs, f) + TreeBytes(d, n, bs, r)
    ensures |Content(d, n, bs, f)| == Caps(n, bs, f)
    ensures Sep(d, n, f) && Backed(d, n, bs, f, Min(size, Caps(n, bs, f)))
  {
    hide Sep;
    hide Content;
    hide Backed;
    hide BackedBelow;
    hide Kids;
    hide TreeBytes;
    LastRoot(d, n, bs, f, r, m);
    CapPositive(n, bs, r.level);
    assert size > Caps(n, bs, f) ==> Min(size - Caps(n, bs, f), Cap(n, bs, r.level)) == m - Caps(n, bs, f);
  }

  lemma CapOfBlock(n: nat, bs: nat)
    ensures Cap(n, bs, 0) == bs
  {
  }

  lemma OneMore(n: nat, bs: nat, f: Forest, r: Root)
    ensures Caps(n, bs, f + [r]) == Caps(n, bs, f) + Cap(n, bs, r.level)
  {
    CapsConcat(n, bs, f, [r]);
    assert Caps(n, bs, [r]) == Cap(n, bs, r.level) + Caps(n, bs, []);
  }

  /** A file of at most thirteen data blocks is read back, but for its NUL bytes. */
  lemma SmallFileReadsBack(v: Volume, n: nat, junk: seq<byte>, inode: Inode)
    requires Sane(v, n) && inode.WellFormed() && Sep(v.disk, n, inode.Forest())
    requires Backed(v.disk, n, v.bs, inode.Forest(), inode.Size()) && inode.Size() <= 13 * v.bs
    ensures inode.Size() <= |Content(v.disk, n, v.bs, inode.Forest())|
    ensures ReadBack(v, n, junk, inode) == Some(DropNul(Content(v.disk, n, v.bs, inode.Forest())[..inode.Size()]))
  {
    hide Sep;
    hide Content;
    hide Backed;
    hide BackedBelow;
    hide Kids;
    hide TreeBytes;
    hide Cap;
    hide Caps;
    hide Place;
    hide Addressable;
    hide ReadDirect;
    hide ReadIndirectStep;
    hide ReadEntries;
    hide DropNul;
    var d, bs, size, start := v.disk, v.bs, inode.Size(), ReadState(junk, [], 0);
    var content, first := Content(d, n, bs, inode.Forest()), Content(d, n, bs, Roots(inode.direct, 0));
    InodeParts(d, n, bs, inode);
    assert [] + DropNul(content[..size]) == DropNul(content[..size]);
    if size == 0 {
      NothingToRead(v, inode.direct, start);
    } else {
      var m := Min(size, 12 * bs);
      DirectReadsBack(v, n, inode.direct, start, size, m);
      var st0 := ReadDirect(v, inode.direct, start, size);
      if size <= 12 * bs {
        assert content[..size] == first[..size];
        assert ReadFile(v, n, junk, inode) == st0;
      } else {
        var r := Root(inode.single, 1);
        LastBlockOf(v, n, r, st0.value, size);
        var st1 := ReadNext(v, n, inode.single, 1, st0, size);
        AdvancedTwice(start, st0, st1, first, TreeBytes(d, n, bs, r), m, size - m);
        assert content[..size] == (first + TreeBytes(d, n, bs, r))[..size];
        assert ReadFile(v, n, junk, inode) == st1;
      }
    }
  }

  lemma NothingToRead(v: Volume, t: seq<uint32>, st: ReadState)
    requires v.bs > 0
    ensures ReadDirect(v, t, st, 0) == Some(st)
  {
  }

  lemma LastBlockOf(v: Volume, n: nat, r: Root, st: ReadState, size: nat)
    requires Sane(v, n) && r.level == 1
    requires st.read < size <= st.read + v.bs && PartBacked(v.disk, n, v.bs, r, st.read, size)
    ensures r.ptr != 0
    ensures Advanced(st, ReadIndirectStep(v, n, r.ptr, 1, st, size), TreeBytes(v.disk, n, v.bs, r), size - st.read)
  {
    CapAtLeastBlock(n, v.bs, 1);
    LastBlock(v, n, r, st, size);
  }
}
