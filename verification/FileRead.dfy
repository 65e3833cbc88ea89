/**
 Reading a file back (src/kernel/fs/ext/ext2.cpp, `read_file_block` to `get_file_contents`). The code
 reads tables of pointers and data into one shared buffer; what that does to a file is stated here too.
 */
module FileRead {
  import opened Options
  import opened Words
  import opened BlockStore
  import opened BlockTree
  import opened InodeTable

  /** The shared block buffer, the characters gathered so far, and the count of bytes read. */
  datatype ReadState = ReadState(buffer: seq<byte>, out: seq<byte>, read: nat)

  /** Appending a NUL character to a string has no effect. */
  function DropNul(s: seq<byte>): (r: seq<byte>)
    ensures |r| <= |s|
  {
    if s == [] then [] else (if s[0] == 0 then [] else [s[0]]) + DropNul(s[1..])
  }

  lemma {:induction false} DropNulConcat(a: seq<byte>, b: seq<byte>)
    ensures DropNul(a + b) == DropNul(a) + DropNul(b)
  {
    if a == [] {
      assert a + b == b;
    } else {
      assert (a + b)[1..] == a[1..] + b;
      DropNulConcat(a[1..], b);
    }
  }

  lemma {:induction false} DropNulFree(s: seq<byte>)
    requires forall i :: 0 <= i < |s| ==> s[i] != 0
    ensures DropNul(s) == s
  {
    if s != [] {
      DropNulFree(s[1..]);
    }
  }

  /** Exactly the NUL characters are dropped. */
  lemma {:induction false} DropNulKeeps(s: seq<byte>)
    ensures multiset(DropNul(s)) == multiset(s)[0 := 0]
  {
    if s != [] {
      DropNulKeeps(s[1..]);
      var first := if s[0] == 0 then [] else [s[0]];
      assert multiset(first + DropNul(s[1..])) == multiset(first) + multiset(DropNul(s[1..]));
      assert s == [s[0]] + s[1..];
    }
  }

  // ---------------------------------------------------------------------------------------------
  // The code's reader

  /** The device with its block size and driver. */
  datatype Volume = Volume(disk: Disk, bs: nat, device: DeviceType)
  {
    function Load(p: uint32): Answer
      requires bs > 0
    {
      Loaded(disk, bs, device, p)
    }

    /** The pointer leads to this block of the device. */
    predicate LeadsTo(p: uint32, block: seq<byte>)
      requires bs > 0
    {
      p != 0 && Load(p) == Data(block)
    }

    /** The reader goes on behind this pointer as if there was none: it is null, or the driver refuses it. */
    predicate PassesOver(p: uint32)
      requires bs > 0
    {
      p == 0 || Load(p).Refused?
    }
  }

  /** Reading one data block; like the other steps, `None` if the reader does not return. */
  function ReadBlockStep(v: Volume, p: uint32, st: ReadState, size: nat): Option<ReadState>
    requires v.bs > 0
  {
    if p == 0 || st.read >= size then Some(st)
    else
      match v.Load(p)
      case Refused => Some(st)
      case Stuck => None
      case Data(block) =>
        var count := Min(size - st.read, |block|);
        Some(ReadState(block, st.out + DropNul(block[..count]), st.read + count))
  }

  /** Entry `i` of the table in the buffer, whatever the buffer holds by now. */
  function Entry(st: ReadState, i: nat): uint32
  {
    if 4 * i + 4 <= |st.buffer| then Word(st.buffer, i) else 0
  }

  /** Reading below one entry of a pointer block of this level. */
  function ReadEntry(v: Volume, n: nat, level: nat, p: uint32, st: ReadState, size: nat): Option<ReadState>
    requires v.bs > 0
    decreases level, 0
  {
    if level <= 1 then ReadBlockStep(v, p, st, size) else ReadIndirectStep(v, n, p, level - 1, st, size)
  }

  function ReadEntries(v: Volume, n: nat, level: nat, i: nat, st: ReadState, size: nat): Option<ReadState>
    requires v.bs > 0
    decreases level, 1, if i < n then n - i else 0
  {
    if i >= n then Some(st)
    else
      var st' := ReadEntry(v, n, level, Entry(st, i), st, size);
      if st'.None? || st'.value.read >= size then st' else ReadEntries(v, n, level, i + 1, st'.value, size)
  }

  function ReadIndirectStep(v: Volume, n: nat, p: uint32, level: nat, st: ReadState, size: nat): Option<ReadState>
    requires v.bs > 0
    decreases level, 2
  {
    if p == 0 || st.read >= size then Some(st)
    else
      match v.Load(p)
      case Refused => Some(st)
      case Stuck => None
      case Data(block) => ReadEntries(v, n, level, 0, st.(buffer := block), size)
  }

  function ReadDirect(v: Volume, t: seq<uint32>, st: ReadState, size: nat): Option<ReadState>
    requires v.bs > 0
  {
    if t == [] || t[0] == 0 then Some(st)
    else
      var st' := ReadBlockStep(v, t[0], st, size);
      if st'.None? || st'.value.read >= size then st' else ReadDirect(v, t[1..], st'.value, size)
  }

  /** Reads below one more indirect pointer of the inode if there is one and bytes are left. */
  function ReadNext(v: Volume, n: nat, p: uint32, level: nat, st: Option<ReadState>, size: nat): Option<ReadState>
    requires v.bs > 0
  {
    if st.Some? && st.value.read < size && p != 0 then ReadIndirectStep(v, n, p, level, st.value, size) else st
  }

  /** Reads a whole file; `buffer` is what the freshly allocated block buffer happens to hold. */
  function ReadFile(v: Volume, n: nat, buffer: seq<byte>, inode: Inode): Option<ReadState>
    requires v.bs > 0
  {
    var size := inode.Size();
    var st0 := ReadDirect(v, inode.direct, ReadState(buffer, [], 0), size);
    var st1 := ReadNext(v, n, inode.single, 1, st0, size);
    var st2 := ReadNext(v, n, inode.double, 2, st1, size);
    ReadNext(v, n, inode.triple, 3, st2, size)
  }

  /** The characters that reading the file gives, if it ends. */
  function ReadBack(v: Volume, n: nat, buffer: seq<byte>, inode: Inode): Option<seq<byte>>
    requires v.bs > 0
  {
    var st := ReadFile(v, n, buffer, inode);
    if st.Some? then Some(st.value.out) else None
  }

  ghost function VolumeOf(fs: Ext2Fs): Volume
    reads fs
  {
    Volume(fs.disk, BlockSize(fs.sb), fs.device)
  }

  /** What a step of the reader comes to. */
  function Outcome(returned: bool, buffer: seq<byte>, out: seq<byte>, bytesRead: nat): Option<ReadState>
  {
    if returned then Some(ReadState(buffer, out, bytesRead)) else None
  }

  /** Appends the bytes of one data block. `returned` is false for a call that does not return. */
  method ReadFileBlock(fs: Ext2Fs, blockNum: uint32, buffer: seq<byte>, out: seq<byte>, bytesRead: nat, fileSize: nat)
    returns (returned: bool, buffer': seq<byte>, out': seq<byte>, bytesRead': nat)
    requires Sized(fs.disk, BlockSize(fs.sb)) && |buffer| == BlockSize(fs.sb)
    ensures Outcome(returned, buffer', out', bytesRead')
         == ReadBlockStep(VolumeOf(fs), blockNum, ReadState(buffer, out, bytesRead), fileSize)
    ensures |buffer'| == BlockSize(fs.sb)
  {
    returned, buffer', out', bytesRead' := true, buffer, out, bytesRead;
    if blockNum == 0 || bytesRead >= fileSize {
      return;
    }
    var answer := fs.ReadBlock(blockNum);
    if answer.Refused? {
      return;
    }
    if answer.Stuck? {
      returned := false;
      return;
    }
    buffer' := answer.bytes;
    var toCopy := fileSize - bytesRead;
    if toCopy > BlockSize(fs.sb) {
      toCopy := BlockSize(fs.sb);
    }
    var i := 0;
    while i < toCopy
      invariant i <= toCopy && out' == out + DropNul(buffer'[..i])
    {
      var c := buffer'[i];
      DropNulConcat(buffer'[..i], [c]);
      assert buffer'[..i + 1] == buffer'[..i] + [c];
      if c != 0 {
        out' := out' + [c];
      }
      i := i + 1;
    }
    bytesRead' := bytesRead + toCopy;
  }

  /** Reads the blocks below a block of pointers, through the same buffer that holds the pointers. */
  method ReadIndirectBlock(fs: Ext2Fs, blockNum: uint32, level: nat, buffer: seq<byte>, out: seq<byte>, bytesRead: nat,
          fileSize: nat)
    returns (returned: bool, buffer': seq<byte>, out': seq<byte>, bytesRead': nat)
    requires Sized(fs.disk, BlockSize(fs.sb)) && |buffer| == BlockSize(fs.sb) && level > 0
    ensures Outcome(returned, buffer', out', bytesRead')
         == ReadIndirectStep(VolumeOf(fs), BlockSize(fs.sb) / 4, blockNum, level,
                             ReadState(buffer, out, bytesRead), fileSize)
    ensures |buffer'| == BlockSize(fs.sb)
    decreases level
  {
    returned, buffer', out', bytesRead' := true, buffer, out, bytesRead;
    if blockNum == 0 || bytesRead >= fileSize {
      return;
    }
    var answer := fs.ReadBlock(blockNum);
    if answer.Refused? {
      return;
    }
    if answer.Stuck? {
      returned := false;
      return;
    }
    buffer' := answer.bytes;
    var entries := BlockSize(fs.sb) / 4;
    ghost var goal := ReadEntries(VolumeOf(fs), entries, level, 0, ReadState(buffer', out', bytesRead'), fileSize);
    var i := 0;
    while i < entries
      invariant i <= entries && |buffer'| == BlockSize(fs.sb) && returned
      invariant ReadEntries(VolumeOf(fs), entries, level, i, ReadState(buffer', out', bytesRead'), fileSize) == goal
    {
      var entry := Word(buffer', i);
      if level == 1 {
        returned, buffer', out', bytesRead' := ReadFileBlock(fs, entry, buffer', out', bytesRead', fileSize);
      } else {
        returned, buffer', out', bytesRead' :=
          ReadIndirectBlock(fs, entry, level - 1, buffer', out', bytesRead', fileSize);
      }
      if !returned || bytesRead' >= fileSize {
        return;
      }
      i := i + 1;
    }
  }

  /**
   The contents of a file as the kernel reads them into the freshly allocated buffer, which holds `junk`. `None`
   stands for a call that does not return.
   */
  method GetFileContents(fs: Ext2Fs, inode: Inode, junk: seq<byte>) returns (text: Option<seq<byte>>)
    requires Sized(fs.disk, BlockSize(fs.sb)) && |junk| == BlockSize(fs.sb)
    requires inode.WellFormed() && inode.Size() < 0x1_0000_0000
    ensures text == ReadBack(VolumeOf(fs), BlockSize(fs.sb) / 4, junk, inode)
  {
    var fileSize := inode.Size();
    var returned, block, out, bytesRead := true, junk, [], 0;
    ghost var n := BlockSize(fs.sb) / 4;
    ghost var st0 := ReadDirect(VolumeOf(fs), inode.direct, ReadState(block, out, bytesRead), fileSize);
    var i := 0;
    while i < 12 && inode.direct[i] != 0
      invariant i <= 12 && |block| == BlockSize(fs.sb) && returned
      invariant ReadDirect(VolumeOf(fs), inode.direct[i..], ReadState(block, out, bytesRead), fileSize) == st0
    {
      returned, block, out, bytesRead := ReadFileBlock(fs, inode.direct[i], block, out, bytesRead, fileSize);
      if !returned || bytesRead >= fileSize {
        break;
      }
      i := i + 1;
    }
    assert Outcome(returned, block, out, bytesRead) == st0;
    if returned && bytesRead < fileSize && inode.single != 0 {
      returned, block, out, bytesRead := ReadIndirectBlock(fs, inode.single, 1, block, out, bytesRead, fileSize);
    }
    assert Outcome(returned, block, out, bytesRead) == ReadNext(VolumeOf(fs), n, inode.single, 1, st0, fileSize);
    if returned && bytesRead < fileSize && inode.double != 0 {
      returned, block, out, bytesRead := ReadIndirectBlock(fs, inode.double, 2, block, out, bytesRead, fileSize);
    }
    if returned && bytesRead < fileSize && inode.triple != 0 {
      returned, block, out, bytesRead := ReadIndirectBlock(fs, inode.triple, 3, block, out, bytesRead, fileSize);
    }
    text := if returned then Some(out) else None;
  }
}
