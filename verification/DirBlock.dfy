/**
 One block of a directory: a chain of variable-length entries that tiles the block
 (src/kernel/fs/ext/ext2.cpp, `insert_into_block` and `scan_block`).
 */
module DirBlock {
  import opened Words
  import opened BlockStore

  /** A directory entry; `inode` 0 marks it as unused. */
  datatype Dirent = Dirent(inode: uint32, size: nat, kind: byte, name: seq<byte>)

  const HEADER: nat := 8

  /** The least record length of an entry whose name has `nameLen` bytes. */
  function RecLen(nameLen: nat): nat
  {
    HEADER + (nameLen + 3) / 4 * 4
  }

  // ---------------------------------------------------------------------------------------------
  // Fields at a byte offset

  function U16(b: seq<byte>, o: nat): nat
    requires o + 2 <= |b|
  {
    (b[o] as int) + 0x100 * (b[o + 1] as int)
  }

  function U32(b: seq<byte>, o: nat): uint32
    requires o + 4 <= |b|
  {
    Word(b[o..o + 4], 0)
  }

  function InodeField(b: seq<byte>, o: nat): uint32
    requires o + HEADER <= |b|
  {
    U32(b, o)
  }

  function SizeField(b: seq<byte>, o: nat): nat
    requires o + HEADER <= |b|
  {
    U16(b, o + 4)
  }

  function NameLenField(b: seq<byte>, o: nat): byte
    requires o + HEADER <= |b|
  {
    b[o + 6]
  }

  function KindField(b: seq<byte>, o: nat): byte
    requires o + HEADER <= |b|
  {
    b[o + 7]
  }

  /** The bytes of an entry from its header to the end of its name. */
  function Image(e: Dirent): (r: seq<byte>)
    requires e.size < 0x1_0000 && |e.name| < 0x100
    ensures |r| == HEADER + |e.name|
  {
    WordBytes(e.inode) + [e.size % 0x100, e.size / 0x100, |e.name|, e.kind] + e.name
  }

  /** Overwrites part of a block; what would fall behind its end is lost. */
  function Poke(b: seq<byte>, o: nat, bytes: seq<byte>): (r: seq<byte>)
    ensures |r| == |b|
    ensures forall i :: 0 <= i < |b| ==> r[i] == if o <= i < o + |bytes| then bytes[i - o] else b[i]
  {
    seq(|b|, i requires 0 <= i < |b| => if o <= i < o + |bytes| then bytes[i - o] else b[i])
  }

  // ---------------------------------------------------------------------------------------------
  // Chains

  /** The bytes at `o` are entry `e`, which is aligned and has room for its name. */
  predicate EntryAt(b: seq<byte>, o: nat, e: Dirent)
  {
    && RecLen(|e.name|) <= e.size < 0x1_0000 && |e.name| < 0x100 && e.size % 4 == 0
    && o + e.size <= |b|
    && b[o..o + HEADER + |e.name|] == Image(e)
  }

  /** The entries `es` cover the bytes from `o` up to `end`. */
  predicate Chain(b: seq<byte>, o: nat, es: seq<Dirent>, end: nat)
    decreases |es|
  {
    if es == [] then o == end else EntryAt(b, o, es[0]) && Chain(b, o + es[0].size, es[1..], end)
  }

  function Sizes(es: seq<Dirent>): nat
  {
    if es == [] then 0 else es[0].size + Sizes(es[1..])
  }

  lemma {:induction false} ChainEnd(b: seq<byte>, o: nat, es: seq<Dirent>, end: nat)
    requires Chain(b, o, es, end)
    ensures end == o + Sizes(es)
    decreases |es|
  {
    if es != [] {
      ChainEnd(b, o + es[0].size, es[1..], end);
    }
  }

  lemma ChainEndsInside(b: seq<byte>, o: nat, es: seq<Dirent>, end: nat)
    requires Chain(b, o, es, end)
    ensures o <= end
  {
    ChainEnd(b, o, es, end);
  }

  lemma ChainEmptyAtEnd(b: seq<byte>, o: nat, es: seq<Dirent>, end: nat)
    requires Chain(b, o, es, end) && o >= end
    ensures es == []
  {
    ChainEnd(b, o, es, end);
  }

  /** A chain that has not reached its end goes on with an entry. */
  lemma ChainHead(b: seq<byte>, o: nat, es: seq<Dirent>, end: nat)
    requires Chain(b, o, es, end) && o < end
    ensures es != [] && EntryAt(b, o, es[0]) && Chain(b, o + es[0].size, es[1..], end)
  {
  }

  lemma {:induction false} ChainConcat(b: seq<byte>, o: nat, es: seq<Dirent>, mid: nat, fs: seq<Dirent>, end: nat)
    requires Chain(b, o, es, mid) && Chain(b, mid, fs, end)
    ensures Chain(b, o, es + fs, end)
    decreases |es|
  {
    hide EntryAt;
    if es == [] {
      assert es + fs == fs;
    } else {
      assert (es + fs)[1..] == es[1..] + fs;
      ChainConcat(b, o + es[0].size, es[1..], mid, fs, end);
    }
  }

  lemma {:induction false} ChainSplit(b: seq<byte>, o: nat, es: seq<Dirent>, end: nat, i: nat)
    requires Chain(b, o, es, end) && i <= |es|
    ensures Chain(b, o, es[..i], o + Sizes(es[..i])) && Chain(b, o + Sizes(es[..i]), es[i..], end)
    decreases |es|
  {
    hide EntryAt;
    if i == 0 {
      assert es[0..] == es;
    } else {
      assert es[..i][1..] == es[1..][..i - 1] && es[i..] == es[1..][i - 1..];
      ChainSplit(b, o + es[0].size, es[1..], end, i - 1);
    }
  }

  /** A chain depends only on the bytes that it covers. */
  lemma {:induction false} ChainFrame(b: seq<byte>, b': seq<byte>, o: nat, es: seq<Dirent>, end: nat)
    requires Chain(b, o, es, end) && |b'| == |b| && end <= |b|
    requires forall i :: o <= i < end ==> b'[i] == b[i]
    ensures Chain(b', o, es, end)
    decreases |es|
  {
    if es != [] {
      ChainEnd(b, o, es, end);
      assert b'[o..o + HEADER + |es[0].name|] == b[o..o + HEADER + |es[0].name|];
      ChainFrame(b, b', o + es[0].size, es[1..], end);
    }
  }

  /** Reading the fields of an entry that is there. */
  lemma FieldsOfEntry(b: seq<byte>, o: nat, e: Dirent)
    requires EntryAt(b, o, e)
    ensures RecLen(|e.name|) <= e.size < 0x1_0000 && |e.name| < 0x100 && o + e.size <= |b|
    ensures HEADER + |e.name| <= e.size
    ensures InodeField(b, o) == e.inode && SizeField(b, o) == e.size
    ensures NameLenField(b, o) == |e.name| && KindField(b, o) == e.kind
    ensures b[o + HEADER..o + HEADER + |e.name|] == e.name
  {
    var im := b[o..o + HEADER + |e.name|];
    assert im[..4] == WordBytes(e.inode) && b[o..o + 4] == im[..4];
    WordOfBytes(WordBytes(e.inode), 0, e.inode);
    assert im[4] == e.size % 0x100 && im[5] == e.size / 0x100 && im[6] == |e.name| && im[7] == e.kind;
    assert b[o + 4] == im[4] && b[o + 5] == im[5] && b[o + 6] == im[6] && b[o + 7] == im[7];
    assert im[HEADER..] == e.name;
  }

  /** At one place there is at most one entry. */
  lemma EntryUnique(b: seq<byte>, o: nat, e: Dirent, f: Dirent)
    requires EntryAt(b, o, e) && EntryAt(b, o, f)
    ensures e == f
  {
    hide EntryAt;
    FieldsOfEntry(b, o, e);
    FieldsOfEntry(b, o, f);
  }

  /** Two chains from the same place agree as far as the shorter one goes. */
  lemma {:induction false} ChainDeterministic(b: seq<byte>, o: nat, es: seq<Dirent>, mid: nat, fs: seq<Dirent>,
          end: nat)
    requires Chain(b, o, es, mid) && Chain(b, o, fs, end) && mid <= end
    ensures |es| <= |fs| && Chain(b, mid, fs[|es|..], end)
    decreases |es|
  {
    if es == [] {
      assert fs[0..] == fs;
    } else {
      ChainEnd(b, o, es, mid);
      assert fs != [];
      EntryUnique(b, o, es[0], fs[0]);
      ChainDeterministic(b, o + es[0].size, es[1..], mid, fs[1..], end);
      assert fs[1..][|es[1..]|..] == fs[|es|..];
    }
  }

  /** The used entries, in order, without their record lengths. */
  function Live(es: seq<Dirent>): seq<(uint32, byte, seq<byte>)>
  {
    if es == [] then [] else (if es[0].inode == 0 then [] else [(es[0].inode, es[0].kind, es[0].name)]) + Live(es[1..])
  }

  lemma {:induction false} LiveConcat(es: seq<Dirent>, fs: seq<Dirent>)
    ensures Live(es + fs) == Live(es) + Live(fs)
  {
    if es == [] {
      assert es + fs == fs;
    } else {
      assert (es + fs)[1..] == es[1..] + fs;
      LiveConcat(es[1..], fs);
    }
  }

  // ---------------------------------------------------------------------------------------------
  // Inserting

  /** The bytes that an entry can give away. */
  function Room(e: Dirent): int
  {
    if e.inode == 0 then e.size else e.size - RecLen(|e.name|)
  }

  /** One step along the chain of a block. */
  lemma ChainStep(b: seq<byte>, o: nat, es: seq<Dirent>, i: nat, end: nat)
    requires i <= |es| && o == Sizes(es[..i]) && Chain(b, o, es[i..], end) && o < end
    ensures i < |es| && EntryAt(b, o, es[i]) && HEADER <= es[i].size
    ensures o + es[i].size == Sizes(es[..i + 1]) && Chain(b, o + es[i].size, es[i + 1..], end)
  {
    hide EntryAt;
    ChainHead(b, o, es[i..], end);
    FieldsOfEntry(b, o, es[i]);
    SizesSnoc(es, i);
    assert es[i..][1..] == es[i + 1..];
  }

  /** The first entry with room for `needed` bytes, or the number of entries. */
  function FirstFit(es: seq<Dirent>, needed: nat): (i: nat)
    ensures i <= |es|
    ensures i < |es| ==> Room(es[i]) >= needed
    ensures forall j :: 0 <= j < i ==> Room(es[j]) < needed
  {
    if es == [] || Room(es[0]) >= needed then 0 else 1 + FirstFit(es[1..], needed)
  }

  /** What entry `e` is replaced by when the new entry is put into it. */
  function Replacement(e: Dirent, inode: uint32, kind: byte, name: seq<byte>): (r: seq<Dirent>)
    requires Room(e) >= RecLen(|name|)
  {
    (if e.inode == 0 then [] else [e.(size := RecLen(|e.name|))]) + NewEntries(Room(e), inode, kind, name)
  }

  /** Where the new entry goes inside entry `e` at `o`. */
  function NewPlace(o: nat, e: Dirent): nat
  {
    if e.inode == 0 then o else o + RecLen(|e.name|)
  }

  /** Writes a new entry at `place` and, if it does not fill the `room` there, an unused entry behind it. */
  function PlaceNew(b: seq<byte>, place: nat, room: nat, inode: uint32, kind: byte, name: seq<byte>): (r: seq<byte>)
    requires |name| < 0x100 && RecLen(|name|) <= room < 0x1_0000
    ensures |r| == |b|
  {
    var needed := RecLen(|name|);
    var b2 := Poke(b, place, Image(Dirent(inode, needed, kind, name)));
    if room > needed then Poke(b2, place + needed, Image(Dirent(0, room - needed, 0, []))) else b2
  }

  /** Cuts the entry at `o` down to `actual` bytes. */
  function Cut(b: seq<byte>, o: nat, actual: nat): (r: seq<byte>)
    requires actual < 0x1_0000
    ensures |r| == |b|
  {
    Poke(b, o + 4, [actual % 0x100, actual / 0x100])
  }

  /**
   The stores that put a new entry into the `room` spare bytes of an entry at `o`: a used entry is first
   cut down to `actual` bytes, and what the new entry leaves over becomes an unused entry.
   */
  function PutEntry(b: seq<byte>, o: nat, used: bool, actual: nat, room: nat, inode: uint32, kind: byte,
          name: seq<byte>): (r: seq<byte>)
    requires |name| < 0x100 && RecLen(|name|) <= room < 0x1_0000 && actual < 0x1_0000
    ensures |r| == |b|
  {
    if used then PlaceNew(Cut(b, o, actual), o + actual, room, inode, kind, name)
    else PlaceNew(b, o, room, inode, kind, name)
  }

  /** The bytes of the block after the new entry was put into entry `e` at `o`. */
  function InsertedBytes(b: seq<byte>, o: nat, e: Dirent, inode: uint32, kind: byte, name: seq<byte>): (r: seq<byte>)
    requires |name| < 0x100 && |e.name| < 0x100 && RecLen(|name|) <= Room(e) < 0x1_0000
    ensures |r| == |b|
  {
    PutEntry(b, o, e.inode != 0, RecLen(|e.name|), Room(e), inode, kind, name)
  }

  /** The chain ends with the block, or before an entry of size 0, where the search for room stops. */
  predicate ChainStops(b: seq<byte>, es: seq<Dirent>, end: nat)
  {
    Chain(b, 0, es, end) && (end == |b| || (end + HEADER <= |b| && SizeField(b, end) == 0))
  }

  /** Puts a new entry for `name` into the first entry of the block that has room for it. */
  method InsertIntoBlock(fs: Ext2Fs, blockNum: uint32, name: seq<byte>, inodeNum: uint32, kind: byte,
          ghost es: seq<Dirent>, ghost end: nat)
    returns (inserted: bool)
    requires blockNum < |fs.disk| && Sized(fs.disk, BlockSize(fs.sb)) && Addressable(|fs.disk|, BlockSize(fs.sb))
    requires ChainStops(fs.disk[blockNum], es, end)
    modifies fs`disk
    ensures inserted <==> FirstFit(es, RecLen(|name| % 0x100)) < |es|
    ensures inserted ==> var short := name[..|name| % 0x100]; var i := FirstFit(es, RecLen(|short|));
              RecLen(|short|) <= Room(es[i]) < 0x1_0000 && |es[i].name| < 0x100
              && fs.disk == old(fs.disk)[blockNum :=
                              InsertedBytes(old(fs.disk)[blockNum], Sizes(es[..i]), es[i], inodeNum, kind, short)]
    ensures !inserted ==> fs.disk == old(fs.disk)
  {
    hide PutEntry;
    hide EntryAt;
    hide SizeFromLog;
    hide Chain;
    hide FirstFit;
    hide InodeField;
    hide SizeField;
    hide NameLenField;
    hide RecLen;
    hide Place;
    hide Addressable;
    hide Loaded;
    var answer := fs.ReadBlock(blockNum);
    var buffer := answer.bytes;
    assert es[0..] == es && es[..0] == [] && Sizes([]) == 0;
    hide Sizes;
    var short := name[..|name| % 0x100];
    var needed := RecLen(|short|);
    var offset := 0;
    ghost var i := 0;
    while offset < BlockSize(fs.sb)
      invariant fs.disk == old(fs.disk) && i <= |es| && offset == Sizes(es[..i]) && offset <= end
      invariant Chain(buffer, offset, es[i..], end)
      invariant forall j :: 0 <= j < i ==> Room(es[j]) < needed
      decreases |es| - i
    {
      if offset < end {
        ChainStep(buffer, offset, es, i, end);
        FieldsOfEntry(buffer, offset, es[i]);
        ChainEndsInside(buffer, offset + es[i].size, es[i + 1..], end);
      }
      var size := SizeField(buffer, offset);
      if size == 0 {
        break;
      }
      var actual := RecLen(NameLenField(buffer, offset));
      var room := if InodeField(buffer, offset) == 0 then size else size - actual;
      if room >= needed {
        FirstFitIs(es, needed, i);
        buffer := PutEntry(buffer, offset, InodeField(buffer, offset) != 0, actual, room, inodeNum, kind, short);
        var stored := fs.WriteBlock(blockNum, buffer);
        return true;
      }
      offset := offset + size;
      i := i + 1;
    }
    ChainEmptyAtEnd(buffer, offset, es[i..], end);
    FirstFitIs(es, needed, i);
    inserted := false;
  }

  lemma {:induction false} FirstFitIs(es: seq<Dirent>, needed: nat, i: nat)
    requires i <= |es| && (forall j :: 0 <= j < i ==> Room(es[j]) < needed) && (i < |es| ==> Room(es[i]) >= needed)
    ensures FirstFit(es, needed) == i
  {
    var k := FirstFit(es, needed);
  }

  lemma {:induction false} SizesSnoc(es: seq<Dirent>, i: nat)
    requires i < |es|
    ensures Sizes(es[..i + 1]) == Sizes(es[..i]) + es[i].size
  {
    if i > 0 {
      SizesSnoc(es[1..], i - 1);
      assert es[..i + 1][1..] == es[1..][..i] && es[..i][1..] == es[1..][..i - 1];
    }
  }

  /** What the new entry leaves over of the room that it was put into. */
  function LeftOver(e: Dirent, name: seq<byte>): int
  {
    Room(e) - RecLen(|name|)
  }

  lemma ImagePoked(b: seq<byte>, o: nat, e: Dirent)
    requires e.size < 0x1_0000 && |e.name| < 0x100 && o + HEADER + |e.name| <= |b|
    ensures Poke(b, o, Image(e))[o..o + HEADER + |e.name|] == Image(e)
  {
  }

  /** Cutting an entry down rewrites two bytes of its header. */
  lemma EntryCut(b: seq<byte>, o: nat, e: Dirent, size: nat)
    requires EntryAt(b, o, e) && RecLen(|e.name|) <= size < 0x1_0000 && size % 4 == 0 && o + size <= |b|
    ensures EntryAt(Cut(b, o, size), o, e.(size := size))
    ensures forall k :: 0 <= k < |b| && (k < o || k >= o + HEADER) ==> Cut(b, o, size)[k] == b[k]
  {
    var b', n := Cut(b, o, size), HEADER + |e.name|;
    var im, im' := Image(e), Image(e.(size := size));
    assert b[o..o + n] == im;
    forall k | 0 <= k < n
      ensures b'[o..o + n][k] == im'[k]
    {
      assert b[o..o + n][k] == im[k];
    }
  }

  /** Bytes elsewhere do not matter to an entry. */
  lemma EntryFrame(b: seq<byte>, b': seq<byte>, o: nat, e: Dirent)
    requires EntryAt(b, o, e) && |b'| == |b| && forall i :: o <= i < o + HEADER + |e.name| ==> b'[i] == b[i]
    ensures EntryAt(b', o, e)
  {
    assert b'[o..o + HEADER + |e.name|] == b[o..o + HEADER + |e.name|];
  }

  /** The new entry and the unused rest. */
  function NewEntries(room: int, inode: uint32, kind: byte, name: seq<byte>): seq<Dirent>
  {
    var rest := room - RecLen(|name|);
    [Dirent(inode, RecLen(|name|), kind, name)] + (if rest > 0 then [Dirent(0, rest, 0, [])] else [])
  }

  /** An entry is where it was written, and nothing before it has changed. */
  lemma EntryPoked(b: seq<byte>, o: nat, e: Dirent)
    requires RecLen(|e.name|) <= e.size < 0x1_0000 && |e.name| < 0x100 && e.size % 4 == 0 && o + e.size <= |b|
    ensures EntryAt(Poke(b, o, Image(e)), o, e)
    ensures forall k :: 0 <= k < o ==> Poke(b, o, Image(e))[k] == b[k]
  {
    ImagePoked(b, o, e);
  }

  /** The new entry and the unused rest fill the room, unless the rest is too small for a header. */
  lemma NewEntryPlaced(b: seq<byte>, place: nat, room: nat, inode: uint32, kind: byte, name: seq<byte>)
    requires |name| < 0x100 && RecLen(|name|) <= room < 0x1_0000 && room % 4 == 0 && place + room <= |b|
    requires room - RecLen(|name|) != 4
    ensures Chain(PlaceNew(b, place, room, inode, kind, name), place, NewEntries(room, inode, kind, name), place + room)
  {
    hide Poke;
    hide Image;
    hide EntryAt;
    RecLenAligned(|name|);
    assert RecLen(0) == HEADER;
    hide RecLen;
    var needed := RecLen(|name|);
    var e, rest := Dirent(inode, needed, kind, name), Dirent(0, room - needed, 0, []);
    var b2 := Poke(b, place, Image(e));
    EntryPoked(b, place, e);
    if room > needed {
      var b3 := Poke(b2, place + needed, Image(rest));
      EntryPoked(b2, place + needed, rest);
      EntryFrame(b2, b3, place, e);
      var es := [e] + [rest];
      assert es[1..] == [rest] && es[1..][1..] == [];
      assert Chain(b3, place + needed + rest.size, [], place + room);
      assert Chain(b3, place + needed, [rest], place + room);
    } else {
      assert [e][1..] == [];
    }
  }

  /** Only the room is written to, unless the rest is too small for a header. */
  lemma PlaceNewInside(b: seq<byte>, place: nat, room: nat, inode: uint32, kind: byte, name: seq<byte>)
    requires |name| < 0x100 && RecLen(|name|) <= room < 0x1_0000
    ensures forall k :: 0 <= k < |b| && k < place ==> PlaceNew(b, place, room, inode, kind, name)[k] == b[k]
    ensures room == RecLen(|name|) || room >= RecLen(|name|) + HEADER ==>
              forall k :: place + room <= k < |b| ==> PlaceNew(b, place, room, inode, kind, name)[k] == b[k]
  {
    RecLenAligned(|name|);
    hide RecLen;
    hide Poke;
  }

  lemma RecLenAligned(k: nat)
    ensures RecLen(k) % 4 == 0 && RecLen(k) >= HEADER + k
  {
  }

  /** Record lengths are aligned, so what is left over is too. */
  lemma LeftOverAligned(b: seq<byte>, o: nat, e: Dirent, name: seq<byte>)
    requires EntryAt(b, o, e)
    ensures RecLen(|e.name|) % 4 == 0 && RecLen(|e.name|) >= HEADER + |e.name| && RecLen(|name|) >= HEADER + |name|
    ensures Room(e) % 4 == 0 && LeftOver(e, name) % 4 == 0
    ensures Room(e) <= e.size && NewPlace(o, e) + Room(e) == o + e.size
  {
  }

  lemma TakenOverChain(b: seq<byte>, o: nat, e: Dirent, inode: uint32, kind: byte, name: seq<byte>)
    requires EntryAt(b, o, e) && |name| < 0x100 && LeftOver(e, name) >= 0 && LeftOver(e, name) != 4 && e.inode == 0
    ensures Chain(InsertedBytes(b, o, e, inode, kind, name), o, Replacement(e, inode, kind, name), o + e.size)
  {
    hide PlaceNew;
    hide NewEntries;
    LeftOverAligned(b, o, e, name);
    NewEntryPlaced(b, o, Room(e), inode, kind, name);
    assert Replacement(e, inode, kind, name) == NewEntries(Room(e), inode, kind, name);
  }

  lemma SplitChain(b: seq<byte>, o: nat, e: Dirent, inode: uint32, kind: byte, name: seq<byte>)
    requires EntryAt(b, o, e) && |name| < 0x100 && LeftOver(e, name) >= 0 && LeftOver(e, name) != 4 && e.inode != 0
    ensures Chain(InsertedBytes(b, o, e, inode, kind, name), o, Replacement(e, inode, kind, name), o + e.size)
  {
    hide PlaceNew;
    hide NewEntries;
    hide Cut;
    hide EntryAt;
    LeftOverAligned(b, o, e, name);
    FieldsOfEntry(b, o, e);
    hide RecLen;
    var actual := RecLen(|e.name|);
    var cut, b1 := e.(size := actual), Cut(b, o, actual);
    var b3 := InsertedBytes(b, o, e, inode, kind, name);
    EntryCut(b, o, e, actual);
    NewEntryPlaced(b1, o + actual, Room(e), inode, kind, name);
    PlaceNewInside(b1, o + actual, Room(e), inode, kind, name);
    EntryFrame(b1, b3, o, cut);
    assert ([cut] + NewEntries(Room(e), inode, kind, name))[1..] == NewEntries(Room(e), inode, kind, name);
  }

  /** The entry that is split or taken over becomes the entries of its replacement. */
  lemma ReplacementChain(b: seq<byte>, o: nat, e: Dirent, inode: uint32, kind: byte, name: seq<byte>)
    requires EntryAt(b, o, e) && |name| < 0x100 && LeftOver(e, name) >= 0 && LeftOver(e, name) != 4
    ensures Chain(InsertedBytes(b, o, e, inode, kind, name), o, Replacement(e, inode, kind, name), o + e.size)
  {
    hide *;
    if e.inode == 0 {
      TakenOverChain(b, o, e, inode, kind, name);
    } else {
      SplitChain(b, o, e, inode, kind, name);
    }
  }

  /** Unless four bytes are left over, nothing outside the entry is touched. */
  lemma InsertedInside(b: seq<byte>, o: nat, e: Dirent, inode: uint32, kind: byte, name: seq<byte>)
    requires EntryAt(b, o, e) && |name| < 0x100 && LeftOver(e, name) >= 0
    ensures forall k :: 0 <= k < |b| && k < o ==> InsertedBytes(b, o, e, inode, kind, name)[k] == b[k]
    ensures LeftOver(e, name) != 4 ==>
              forall k :: o + e.size <= k < |b| ==> InsertedBytes(b, o, e, inode, kind, name)[k] == b[k]
  {
    hide PlaceNew;
    hide Cut;
    hide EntryAt;
    LeftOverAligned(b, o, e, name);
    FieldsOfEntry(b, o, e);
    hide RecLen;
    if e.inode == 0 {
      PlaceNewInside(b, o, Room(e), inode, kind, name);
    } else {
      EntryCut(b, o, e, RecLen(|e.name|));
      PlaceNewInside(Cut(b, o, RecLen(|e.name|)), o + RecLen(|e.name|), Room(e), inode, kind, name);
    }
  }

  /** The entries of the block after the new entry was put into entry `i`. */
  function InsertedEntries(es: seq<Dirent>, i: nat, inode: uint32, kind: byte, name: seq<byte>): seq<Dirent>
    requires i < |es| && LeftOver(es[i], name) >= 0
  {
    es[..i] + Replacement(es[i], inode, kind, name) + es[i + 1..]
  }

  /** The chain still tiles the block: the old entries, with the new one in its place. */
  lemma InsertKeepsChain(b: seq<byte>, es: seq<Dirent>, i: nat, inode: uint32, kind: byte, name: seq<byte>)
    requires Chain(b, 0, es, |b|) && i < |es| && |name| < 0x100 && LeftOver(es[i], name) >= 0
    requires LeftOver(es[i], name) != 4
    ensures |es[i].name| < 0x100 && Room(es[i]) < 0x1_0000
    ensures Chain(InsertedBytes(b, Sizes(es[..i]), es[i], inode, kind, name), 0,
            InsertedEntries(es, i, inode, kind, name), |b|)
  {
    hide EntryAt;
    hide InsertedBytes;
    hide Replacement;
    ChainSplit(b, 0, es, |b|, i);
    var o, e := Sizes(es[..i]), es[i];
    ChainEnd(b, o, es[i..], |b|);
    assert es[i..][0] == e && es[i..][1..] == es[i + 1..];
    assert EntryAt(b, o, e) && Chain(b, o + e.size, es[i + 1..], |b|);
    FieldsOfEntry(b, o, e);
    var b' := InsertedBytes(b, o, e, inode, kind, name);
    ReplacementChain(b, o, e, inode, kind, name);
    InsertedInside(b, o, e, inode, kind, name);
    ChainFrame(b, b', 0, es[..i], o);
    ChainFrame(b, b', o + e.size, es[i + 1..], |b|);
    ChainConcat(b', 0, es[..i], o, Replacement(e, inode, kind, name), o + e.size);
    ChainConcat(b', 0, es[..i] + Replacement(e, inode, kind, name), o + e.size, es[i + 1..], |b|);
  }

  /** The used entries afterwards: the old ones in order, and the new one once. */
  lemma InsertLive(es: seq<Dirent>, i: nat, inode: uint32, kind: byte, name: seq<byte>)
    requires i < |es| && LeftOver(es[i], name) >= 0 && inode != 0
    ensures Live(InsertedEntries(es, i, inode, kind, name))
         == Live(es[..i + 1]) + [(inode, kind, name)] + Live(es[i + 1..])
    ensures Live(es) == Live(es[..i + 1]) + Live(es[i + 1..])
  {
    hide Live;
    hide Replacement;
    var e, r := es[i], Replacement(es[i], inode, kind, name);
    assert es == es[..i + 1] + es[i + 1..] && es[..i + 1] == es[..i] + [e];
    LiveConcat(es[..i + 1], es[i + 1..]);
    LiveConcat(es[..i], [e]);
    LiveConcat(es[..i] + r, es[i + 1..]);
    LiveConcat(es[..i], r);
    ReplacementLive(e, inode, kind, name);
  }

  lemma ReplacementLive(e: Dirent, inode: uint32, kind: byte, name: seq<byte>)
    requires LeftOver(e, name) >= 0 && inode != 0
    ensures Live(Replacement(e, inode, kind, name)) == Live([e]) + [(inode, kind, name)]
  {
    var head := if e.inode == 0 then [] else [e.(size := RecLen(|e.name|))];
    var new_ := [Dirent(inode, RecLen(|name|), kind, name)];
    var rest := if LeftOver(e, name) > 0 then [Dirent(0, LeftOver(e, name), 0, [])] else [];
    assert Replacement(e, inode, kind, name) == head + new_ + rest;
    LiveConcat(head + new_, rest);
    LiveConcat(head, new_);
  }

  /** The entries up to the place of the remainder. */
  function BrokenHead(e: Dirent, inode: uint32, kind: byte, name: seq<byte>): seq<Dirent>
  {
    (if e.inode == 0 then [] else [e.(size := RecLen(|e.name|))]) + [Dirent(inode, RecLen(|name|), kind, name)]
  }

  /** With four bytes left over the header of the remainder runs into what follows, and no chain tiles the block. */
  lemma FourBytesBreakChain(b: seq<byte>, es: seq<Dirent>, i: nat, inode: uint32, kind: byte, name: seq<byte>,
          fs: seq<Dirent>)
    requires Chain(b, 0, es, |b|) && i < |es| && |name| < 0x100 && LeftOver(es[i], name) == 4
    requires |es[i].name| < 0x100 && Room(es[i]) < 0x1_0000
    ensures !Chain(InsertedBytes(b, Sizes(es[..i]), es[i], inode, kind, name), 0, fs, |b|)
  {
    hide EntryAt;
    hide InsertedBytes;
    hide BrokenHead;
    hide Image;
    hide RecLen;
    hide Chain;
    var o, e := Sizes(es[..i]), es[i];
    var b' := InsertedBytes(b, o, e, inode, kind, name);
    ChainSplit(b, 0, es, |b|, i);
    ChainEnd(b, o, es[i..], |b|);
    ChainHeadIs(b, o, es[i..], |b|);
    FieldsOfEntry(b, o, e);
    var r := o + e.size - 4;
    BrokenPrefix(b, o, e, inode, kind, name);
    InsertedInside(b, o, e, inode, kind, name);
    ChainFrame(b, b', 0, es[..i], o);
    var head := BrokenHead(e, inode, kind, name);
    ChainConcat(b', 0, es[..i], o, head, r);
    if Chain(b', 0, fs, |b|) {
      ChainDeterministic(b', 0, es[..i] + head, r, fs, |b|);
      NoTinyEntry(b', r, fs[|es[..i] + head|..], |b|);
    }
  }

  lemma ChainHeadIs(b: seq<byte>, o: nat, es: seq<Dirent>, end: nat)
    requires Chain(b, o, es, end) && es != []
    ensures EntryAt(b, o, es[0]) && Chain(b, o + es[0].size, es[1..], end)
  {
  }

  lemma NoTinyEntry(b: seq<byte>, r: nat, g: seq<Dirent>, end: nat)
    requires r < end <= |b| && (r + HEADER <= |b| ==> SizeField(b, r) == 4)
    ensures !Chain(b, r, g, end)
  {
    hide SizeField;
    if Chain(b, r, g, end) {
      ChainHead(b, r, g, end);
      FieldsOfEntry(b, r, g[0]);
    }
  }

  /** A rest of four bytes: the new entry is there, and the rest claims four bytes. */
  lemma NewEntryBroken(b: seq<byte>, place: nat, room: nat, inode: uint32, kind: byte, name: seq<byte>)
    requires |name| < 0x100 && room == RecLen(|name|) + 4 < 0x1_0000 && place + room <= |b|
    ensures var b', r := PlaceNew(b, place, room, inode, kind, name), place + RecLen(|name|);
            && Chain(b', place, [Dirent(inode, RecLen(|name|), kind, name)], r)
            && (r + HEADER <= |b| ==> SizeField(b', r) == 4)
  {
    RecLenAligned(|name|);
    hide RecLen;
    var e, rest := Dirent(inode, RecLen(|name|), kind, name), Dirent(0, 4, 0, []);
    var b2 := Poke(b, place, Image(e));
    ImagePoked(b, place, e);
    assert EntryAt(b2, place, e);
    var b3 := Poke(b2, place + RecLen(|name|), Image(rest));
    EntryFrame(b2, b3, place, e);
    assert [e][1..] == [];
    assert Image(rest)[4] == 4 && Image(rest)[5] == 0;
  }

  /** Up to the remainder the bytes are as intended; the remainder claims four bytes. */
  lemma BrokenPrefix(b: seq<byte>, o: nat, e: Dirent, inode: uint32, kind: byte, name: seq<byte>)
    requires EntryAt(b, o, e) && |name| < 0x100 && LeftOver(e, name) == 4
    ensures var b' := InsertedBytes(b, o, e, inode, kind, name); var r := o + e.size - 4;
            Chain(b', o, BrokenHead(e, inode, kind, name), r) && (r + HEADER <= |b| ==> SizeField(b', r) == 4)
  {
    hide PlaceNew;
    hide Cut;
    hide EntryAt;
    hide SizeField;
    LeftOverAligned(b, o, e, name);
    FieldsOfEntry(b, o, e);
    hide RecLen;
    var new_ := Dirent(inode, RecLen(|name|), kind, name);
    if e.inode == 0 {
      NewEntryBroken(b, o, Room(e), inode, kind, name);
      assert BrokenHead(e, inode, kind, name) == [new_];
    } else {
      var actual := RecLen(|e.name|);
      var b1 := Cut(b, o, actual);
      EntryCut(b, o, e, actual);
      NewEntryBroken(b1, o + actual, Room(e), inode, kind, name);
      PlaceNewInside(b1, o + actual, Room(e), inode, kind, name);
      EntryFrame(b1, InsertedBytes(b, o, e, inode, kind, name), o, e.(size := actual));
      assert ([e.(size := actual)] + [new_])[1..] == [new_];
    }
  }

  /**
   Inserting into a well-formed block gives a well-formed block exactly if not four bytes are left over
   in the entry that the new one is put into.
   */
  lemma InsertWellFormedIff(b: seq<byte>, es: seq<Dirent>, inode: uint32, kind: byte, name: seq<byte>)
    requires Chain(b, 0, es, |b|) && |name| < 0x100 && FirstFit(es, RecLen(|name|)) < |es|
    ensures var i := FirstFit(es, RecLen(|name|));
            && |es[i].name| < 0x100 && Room(es[i]) < 0x1_0000
            && ((exists fs :: Chain(InsertedBytes(b, Sizes(es[..i]), es[i], inode, kind, name), 0, fs, |b|))
                <==> LeftOver(es[i], name) != 4)
  {
    hide InsertedBytes;
    hide EntryAt;
    var i := FirstFit(es, RecLen(|name|));
    ChainSplit(b, 0, es, |b|, i);
    assert es[i..][0] == es[i];
    FieldsOfEntry(b, Sizes(es[..i]), es[i]);
    if LeftOver(es[i], name) != 4 {
      InsertKeepsChain(b, es, i, inode, kind, name);
    } else {
      forall fs
        ensures !Chain(InsertedBytes(b, Sizes(es[..i]), es[i], inode, kind, name), 0, fs, |b|)
      {
        FourBytesBreakChain(b, es, i, inode, kind, name, fs);
      }
    }
  }

  // ---------------------------------------------------------------------------------------------
  // Removing

  /** A string as `strcmp` sees it. */
  function CString(s: seq<byte>): seq<byte>
  {
    if s == [] || s[0] == 0 then [] else [s[0]] + CString(s[1..])
  }

  predicate Matches(e: Dirent, name: seq<byte>, kind: byte)
  {
    e.inode != 0 && CString(e.name) == CString(name) && e.kind == kind
  }

  /** The first entry of that name and kind, or the number of entries. */
  function FirstMatch(es: seq<Dirent>, name: seq<byte>, kind: byte): (j: nat)
    ensures j <= |es|
    ensures j < |es| ==> Matches(es[j], name, kind)
    ensures forall k :: 0 <= k < j ==> !Matches(es[k], name, kind)
  {
    if es == [] || Matches(es[0], name, kind) then 0 else 1 + FirstMatch(es[1..], name, kind)
  }

  /** The first entry of a block is marked unused; any other one is merged into its predecessor. */
  function RemovedEntries(es: seq<Dirent>, j: nat): seq<Dirent>
    requires j < |es|
  {
    if j == 0 then [es[0].(inode := 0)] + es[1..]
    else es[..j - 1] + [es[j - 1].(size := es[j - 1].size + es[j].size)] + es[j + 1..]
  }

  function RemovedBytes(b: seq<byte>, es: seq<Dirent>, j: nat): (r: seq<byte>)
    requires j < |es|
    ensures |r| == |b|
  {
    if j == 0 then Poke(b, 0, WordBytes(0)) else Cut(b, Sizes(es[..j - 1]), (es[j - 1].size + es[j].size) % 0x1_0000)
  }

  /**
   Removes the first entry of that name and kind from the block. At an entry of size 0 the search does not end,
   so the entry must be there if the chain stops before the end of the block.
   */
  method RemoveFromBlock(fs: Ext2Fs, blockNum: uint32, name: seq<byte>, kind: byte, ghost es: seq<Dirent>,
          ghost end: nat)
    returns (found: bool)
    requires 0 < blockNum < |fs.disk| && Sized(fs.disk, BlockSize(fs.sb)) && Addressable(|fs.disk|, BlockSize(fs.sb))
    requires ChainStops(fs.disk[blockNum], es, end)
    requires end < BlockSize(fs.sb) ==> FirstMatch(es, name, kind) < |es|
    modifies fs`disk
    ensures found <==> FirstMatch(es, name, kind) < |es|
    ensures fs.disk == if found then
                         old(fs.disk)[blockNum := RemovedBytes(old(fs.disk)[blockNum], es, FirstMatch(es, name, kind))]
                       else old(fs.disk)
  {
    hide EntryAt;
    hide SizeFromLog;
    hide Chain;
    hide FirstMatch;
    hide InodeField;
    hide SizeField;
    hide NameLenField;
    hide RecLen;
    hide KindField;
    hide Poke;
    hide Cut;
    hide Live;
    hide CString;
    hide Place;
    hide Addressable;
    hide Loaded;
    var answer := fs.ReadBlock(blockNum);
    var block := answer.bytes;
    assert es[0..] == es && es[..0] == [] && Sizes([]) == 0;
    hide Sizes;
    var offset := 0;
    var prev := 0;
    ghost var i := 0;
    while offset < BlockSize(fs.sb)
      invariant fs.disk == old(fs.disk) && i <= |es| && offset == Sizes(es[..i]) && offset <= end
      invariant Chain(block, offset, es[i..], end) && |block| == BlockSize(fs.sb)
      invariant i > 0 ==>
          prev == Sizes(es[..i - 1]) && prev + HEADER <= |block| && SizeField(block, prev) == es[i - 1].size
      invariant i == 0 <==> offset == 0
      invariant forall k :: 0 <= k < i ==> !Matches(es[k], name, kind)
      decreases |es| - i
    {
      if end < BlockSize(fs.sb) {
        BeforeEnd(block, offset, es, i, end, name, kind);
      }
      ChainStep(block, offset, es, i, end);
      FieldsOfEntry(block, offset, es[i]);
      ChainEndsInside(block, offset + es[i].size, es[i + 1..], end);
      var size := SizeField(block, offset);
      if InodeField(block, offset) != 0 {
        var entryName := block[offset + HEADER..offset + HEADER + NameLenField(block, offset)];
        if CString(entryName) == CString(name) && KindField(block, offset) == kind {
          FirstMatchIs(es, name, kind, i);
          if offset > 0 {
            block := Cut(block, prev, (SizeField(block, prev) + size) % 0x1_0000);
          } else {
            block := Poke(block, offset, WordBytes(0));
          }
          assert block == RemovedBytes(fs.disk[blockNum], es, i);
          hide RemovedBytes;
          var stored := fs.WriteBlock(blockNum, block);
          return true;
        }
      }
      prev := offset;
      offset := offset + size;
      i := i + 1;
    }
    ChainEmptyAtEnd(block, offset, es[i..], end);
    FirstMatchIs(es, name, kind, i);
    found := false;
  }

  /** As long as the entry was not met, the chain goes on if it must be there. */
  lemma BeforeEnd(b: seq<byte>, o: nat, es: seq<Dirent>, i: nat, end: nat, name: seq<byte>, kind: byte)
    requires i <= |es| && Chain(b, o, es[i..], end) && o <= end && FirstMatch(es, name, kind) < |es|
    requires forall k :: 0 <= k < i ==> !Matches(es[k], name, kind)
    ensures o < end
  {
    if o == end {
      ChainEmptyAtEnd(b, o, es[i..], end);
    }
  }

  lemma {:induction false} FirstMatchIs(es: seq<Dirent>, name: seq<byte>, kind: byte, i: nat)
    requires i <= |es| && (forall k :: 0 <= k < i ==> !Matches(es[k], name, kind))
    requires (i < |es| ==> Matches(es[i], name, kind))
    ensures FirstMatch(es, name, kind) == i
  {
    var k := FirstMatch(es, name, kind);
  }

  lemma RemoveFirstKeepsChain(b: seq<byte>, es: seq<Dirent>)
    requires Chain(b, 0, es, |b|) && es != []
    ensures Chain(Poke(b, 0, WordBytes(0)), 0, [es[0].(inode := 0)] + es[1..], |b|)
  {
    hide EntryAt;
    hide Poke;
    hide Chain;
    var b' := Poke(b, 0, WordBytes(0));
    ChainHeadIs(b, 0, es, |b|);
    FirstUnused(b, es[0]);
    ChainEnd(b, es[0].size, es[1..], |b|);
    ChainFrame(b, b', es[0].size, es[1..], |b|);
    ChainCons(b', 0, es[0].(inode := 0), es[1..], |b|);
  }

  lemma MergeKeepsChain(b: seq<byte>, o: nat, p: Dirent, e: Dirent, rest: seq<Dirent>)
    requires Chain(b, o, [p, e] + rest, |b|) && |b| < 0x1_0000
    ensures p.size + e.size < 0x1_0000
    ensures Chain(Cut(b, o, p.size + e.size), o, [p.(size := p.size + e.size)] + rest, |b|)
    ensures forall k :: 0 <= k < |b| && k < o ==> Cut(b, o, p.size + e.size)[k] == b[k]
  {
    hide EntryAt;
    hide Cut;
    hide Chain;
    var es := [p, e] + rest;
    assert es[0] == p && es[1..][0] == e && es[1..][1..] == rest;
    ChainHeadIs(b, o, es, |b|);
    ChainHeadIs(b, o + p.size, es[1..], |b|);
    var end := o + p.size + e.size;
    MergedEntry(b, o, p, e);
    ChainEnd(b, end, rest, |b|);
    ChainFrame(b, Cut(b, o, p.size + e.size), end, rest, |b|);
    ChainCons(Cut(b, o, p.size + e.size), o, p.(size := p.size + e.size), rest, |b|);
  }

  /** A chain goes on into what replaced its end. */
  lemma SpliceChain(b: seq<byte>, b': seq<byte>, es: seq<Dirent>, o: nat, tail: seq<Dirent>, end: nat)
    requires Chain(b, 0, es, o) && Chain(b', o, tail, end) && |b'| == |b| && o <= |b|
    requires forall k :: 0 <= k < |b| && k < o ==> b'[k] == b[k]
    ensures Chain(b', 0, es + tail, end)
  {
    hide EntryAt;
    hide Chain;
    ChainFrame(b, b', 0, es, o);
    ChainConcat(b', 0, es, o, tail, end);
  }

  /** After removing an entry the chain still tiles the block. */
  lemma RemoveKeepsChain(b: seq<byte>, es: seq<Dirent>, j: nat)
    requires Chain(b, 0, es, |b|) && j < |es| && |b| < 0x1_0000
    ensures Chain(RemovedBytes(b, es, j), 0, RemovedEntries(es, j), |b|)
  {
    hide EntryAt;
    hide Cut;
    hide Poke;
    hide Chain;
    hide Sizes;
    if j == 0 {
      RemoveFirstKeepsChain(b, es);
    } else {
      RemoveLaterKeepsChain(b, es, j);
    }
  }

  lemma RemoveLaterKeepsChain(b: seq<byte>, es: seq<Dirent>, j: nat)
    requires Chain(b, 0, es, |b|) && 0 < j < |es| && |b| < 0x1_0000
    ensures Chain(RemovedBytes(b, es, j), 0, RemovedEntries(es, j), |b|)
  {
    hide EntryAt;
    hide Cut;
    hide Chain;
    hide Sizes;
    hide RemovedEntries;
    hide RemovedBytes;
    var i := j - 1;
    var o, p, e := Sizes(es[..i]), es[i], es[j];
    ChainSplit(b, 0, es, |b|, i);
    ChainEndsInside(b, o, es[i..], |b|);
    assert es[i..] == [p, e] + es[j + 1..];
    MergeKeepsChain(b, o, p, e, es[j + 1..]);
    var merged := [p.(size := p.size + e.size)] + es[j + 1..];
    SpliceChain(b, Cut(b, o, p.size + e.size), es[..i], o, merged, |b|);
    MergedAway(b, es, j);
  }

  /** A later entry is merged into its predecessor. */
  lemma MergedAway(b: seq<byte>, es: seq<Dirent>, j: nat)
    requires 0 < j < |es| && es[j - 1].size + es[j].size < 0x1_0000 && Sizes(es[..j - 1]) <= |b|
    ensures var i := j - 1; var size := es[i].size + es[j].size;
            && RemovedEntries(es, j) == es[..i] + ([es[i].(size := size)] + es[j + 1..])
            && RemovedBytes(b, es, j) == Cut(b, Sizes(es[..i]), size)
  {
    hide Cut;
    hide Sizes;
  }

  lemma ChainCons(b: seq<byte>, o: nat, e: Dirent, es: seq<Dirent>, end: nat)
    requires EntryAt(b, o, e) && Chain(b, o + e.size, es, end)
    ensures Chain(b, o, [e] + es, end)
  {
    hide EntryAt;
    assert ([e] + es)[1..] == es;
  }

  lemma FirstUnused(b: seq<byte>, e: Dirent)
    requires EntryAt(b, 0, e)
    ensures EntryAt(Poke(b, 0, WordBytes(0)), 0, e.(inode := 0))
    ensures forall k :: e.size <= k < |b| ==> Poke(b, 0, WordBytes(0))[k] == b[k]
  {
    var b', n := Poke(b, 0, WordBytes(0)), HEADER + |e.name|;
    var im, im' := Image(e), Image(e.(inode := 0));
    forall k | 0 <= k < n
      ensures b'[0..n][k] == im'[k]
    {
      assert b[0..n][k] == im[k];
    }
  }

  lemma MergedEntry(b: seq<byte>, o: nat, p: Dirent, e: Dirent)
    requires EntryAt(b, o, p) && EntryAt(b, o + p.size, e) && |b| < 0x1_0000
    ensures p.size + e.size < 0x1_0000
    ensures EntryAt(Cut(b, o, p.size + e.size), o, p.(size := p.size + e.size))
    ensures forall k :: 0 <= k < |b| && (k < o || k >= o + p.size) ==> Cut(b, o, p.size + e.size)[k] == b[k]
  {
    EntryCut(b, o, p, p.size + e.size);
  }

  /** Exactly that entry is gone from the used ones. */
  lemma RemoveLive(es: seq<Dirent>, j: nat)
    requires j < |es|
    ensures Live(RemovedEntries(es, j)) == Live(es[..j]) + Live(es[j + 1..])
  {
    hide Live;
    if j == 0 {
      LiveConcat([es[0].(inode := 0)], es[1..]);
      LiveOne(es[0].(inode := 0));
      assert es[..0] == [] && Live(es[..0]) == [] by { LiveNone(); }
    } else {
      var p := es[j - 1];
      var p' := p.(size := p.size + es[j].size);
      assert es[..j] == es[..j - 1] + [p];
      LiveConcat(es[..j - 1], [p]);
      LiveConcat(es[..j - 1] + [p'], es[j + 1..]);
      LiveConcat(es[..j - 1], [p']);
      LiveOne(p);
      LiveOne(p');
    }
  }

  lemma LiveNone()
    ensures Live([]) == []
  {
  }

  lemma LiveOne(e: Dirent)
    ensures Live([e]) == if e.inode == 0 then [] else [(e.inode, e.kind, e.name)]
  {
  }

  /** The new entry is the first one of its name and kind. */
  lemma NewIsFirstMatch(es: seq<Dirent>, i: nat, inode: uint32, kind: byte, name: seq<byte>, cut: seq<Dirent>,
          rest: seq<Dirent>)
    requires i < |es| && LeftOver(es[i], name) >= 0 && inode != 0
    requires forall k :: 0 <= k < |es| ==> !Matches(es[k], name, kind)
    requires cut == if es[i].inode == 0 then [] else [es[i].(size := RecLen(|es[i].name|))]
    requires rest == if LeftOver(es[i], name) > 0 then [Dirent(0, LeftOver(es[i], name), 0, [])] else []
    ensures var es' := InsertedEntries(es, i, inode, kind, name); var j := i + |cut|;
            && FirstMatch(es', name, kind) == j < |es'|
            && es'[..j] == es[..i] + cut && es'[j + 1..] == rest + es[i + 1..]
  {
    hide Live;
    hide FirstMatch;
    hide RecLen;
    var es' := InsertedEntries(es, i, inode, kind, name);
    var new_ := Dirent(inode, RecLen(|name|), kind, name);
    var j := i + |cut|;
    assert es' == es[..i] + cut + [new_] + (rest + es[i + 1..]);
    assert es'[..j] == es[..i] + cut && es'[j] == new_ && es'[j + 1..] == rest + es[i + 1..];
    forall k | 0 <= k < j
      ensures !Matches(es'[k], name, kind)
    {
      assert k < i ==> es'[k] == es[k];
    }
    FirstMatchIs(es', name, kind, j);
  }

  /** Removing the name that was just inserted brings the old used entries back. */
  lemma InsertThenRemove(es: seq<Dirent>, i: nat, inode: uint32, kind: byte, name: seq<byte>)
    requires i < |es| && LeftOver(es[i], name) >= 0 && inode != 0
    requires forall k :: 0 <= k < |es| ==> !Matches(es[k], name, kind)
    ensures var es' := InsertedEntries(es, i, inode, kind, name); var j := FirstMatch(es', name, kind);
            j < |es'| && Live(RemovedEntries(es', j)) == Live(es)
  {
    hide Live;
    hide FirstMatch;
    hide RecLen;
    hide InsertedEntries;
    hide RemovedEntries;
    hide Matches;
    var e := es[i];
    var es' := InsertedEntries(es, i, inode, kind, name);
    var cut := if e.inode == 0 then [] else [e.(size := RecLen(|e.name|))];
    var rest := if LeftOver(e, name) > 0 then [Dirent(0, LeftOver(e, name), 0, [])] else [];
    NewIsFirstMatch(es, i, inode, kind, name, cut, rest);
    RemoveLive(es', i + |cut|);
    LiveConcat(es[..i], cut);
    LiveConcat(rest, es[i + 1..]);
    assert es == es[..i] + [e] + es[i + 1..];
    LiveConcat(es[..i] + [e], es[i + 1..]);
    LiveConcat(es[..i], [e]);
    LiveOne(e);
    LiveNone();
    LiveOne(Dirent(0, LeftOver(e, name), 0, []));
    if e.inode != 0 {
      LiveOne(e.(size := RecLen(|e.name|)));
    }
  }

  /** A directory that grows by a zeroed block gets no room by that: the search stops at once. */
  lemma ZeroedBlockHasNoRoom(size: nat, needed: nat)
    requires size >= HEADER
    ensures ChainStops(Zeros(size), [], 0) && FirstFit([], needed) == 0
  {
  }

  // ---------------------------------------------------------------------------------------------
  // A block that breaks

  /** An entry with zeros up to its record length. */
  function Record(e: Dirent): (r: seq<byte>)
    requires RecLen(|e.name|) <= e.size < 0x1_0000 && |e.name| < 0x100
    ensures |r| == e.size
  {
    RecLenAligned(|e.name|);
    Image(e) + Zeros(e.size - HEADER - |e.name|)
  }

  lemma RecordIsEntry(a: seq<byte>, e: Dirent, c: seq<byte>)
    requires RecLen(|e.name|) <= e.size < 0x1_0000 && |e.name| < 0x100 && e.size % 4 == 0
    ensures EntryAt(a + Record(e) + c, |a|, e)
  {
    RecLenAligned(|e.name|);
    var b, n := a + Record(e) + c, HEADER + |e.name|;
    assert b[|a|..|a| + n] == Record(e)[..n] == Image(e);
  }

  /** An unused entry of sixteen bytes and one used entry for the rest of 1 KiB. */
  const FRAGILE: seq<Dirent> := [Dirent(0, 16, 0, []), Dirent(11, 1008, 1, [97])]

  function FragileBlock(): (b: seq<byte>)
    ensures |b| == 1024
  {
    Record(FRAGILE[0]) + Record(FRAGILE[1])
  }

  /** A name of four letters goes into the unused entry, and after that no chain of entries tiles the block. */
  lemma FourLettersBreak(inode: uint32, kind: byte, fs: seq<Dirent>)
    requires inode != 0
    ensures var b, name := FragileBlock(), [97, 98, 99, 100];
            && Chain(b, 0, FRAGILE, 1024) && FirstFit(FRAGILE, RecLen(|name|)) == 0
            && !Chain(InsertedBytes(b, 0, FRAGILE[0], inode, kind, name), 0, fs, 1024)
  {
    var b, name := FragileBlock(), [97, 98, 99, 100];
    RecordIsEntry([], FRAGILE[0], Record(FRAGILE[1]));
    RecordIsEntry(Record(FRAGILE[0]), FRAGILE[1], []);
    assert [] + Record(FRAGILE[0]) + Record(FRAGILE[1]) == b && Record(FRAGILE[0]) + Record(FRAGILE[1]) + [] == b;
    hide EntryAt;
    hide Record;
    assert FRAGILE[1..] == [FRAGILE[1]] && FRAGILE[1..][1..] == [];
    assert Chain(b, 1024, FRAGILE[1..][1..], 1024);
    assert Chain(b, 16, FRAGILE[1..], 1024);
    assert LeftOver(FRAGILE[0], name) == 4 && FRAGILE[..0] == [];
    FourBytesBreakChain(b, FRAGILE, 0, inode, kind, name, fs);
  }
}
