/** Bytes, little-endian 32-bit words and the tables of words that a disk block holds. */
module Words {
  type byte = x: int | 0 <= x < 256
  type uint32 = x: int | 0 <= x < 0x1_0000_0000

  /** The 32-bit word stored at byte offset `4 * i`, as a load through a `uint32_t*` reads it. */
  function Word(b: seq<byte>, i: nat): uint32
    requires 4 * i + 4 <= |b|
  {
    (b[4 * i] as int) + 0x100 * (b[4 * i + 1] as int)
    + 0x1_0000 * (b[4 * i + 2] as int) + 0x100_0000 * (b[4 * i + 3] as int)
  }

  /** The block seen as an array of 32-bit words. */
  function Table(b: seq<byte>): (t: seq<uint32>)
    ensures |t| == |b| / 4
  {
    seq(|b| / 4, i requires 0 <= i < |b| / 4 => Word(b, i))
  }

  /** The four bytes of a word. */
  function WordBytes(w: uint32): (b: seq<byte>)
    ensures |b| == 4
  {
    [w % 0x100, w / 0x100 % 0x100, w / 0x1_0000 % 0x100, w / 0x100_0000]
  }

  /** The bytes of an array of words. */
  function Bytes(t: seq<uint32>): (b: seq<byte>)
    ensures |b| == 4 * |t|
  {
    seq(4 * |t|, k requires 0 <= k < 4 * |t| => WordBytes(t[k / 4])[k % 4])
  }

  function Zeros(n: nat): (b: seq<byte>)
    ensures |b| == n
  {
    seq(n, _ => 0)
  }

  ghost predicate NulFree(s: seq<byte>)
  {
    forall i :: 0 <= i < |s| ==> s[i] != 0
  }

  lemma WordOfBytes(b: seq<byte>, i: nat, w: uint32)
    requires 4 * i + 4 <= |b|
    requires b[4 * i] == w % 0x100 && b[4 * i + 1] == w / 0x100 % 0x100
    requires b[4 * i + 2] == w / 0x1_0000 % 0x100 && b[4 * i + 3] == w / 0x100_0000
    ensures Word(b, i) == w
  {
    assert w / 0x1_0000 == w / 0x100 / 0x100 && w / 0x100_0000 == w / 0x1_0000 / 0x100;
  }

  lemma BytesAt(t: seq<uint32>, i: nat, j: nat)
    requires i < |t| && j < 4
    ensures 4 * i + j < |Bytes(t)| && Bytes(t)[4 * i + j] == WordBytes(t[i])[j]
  {
    assert (4 * i + j) / 4 == i && (4 * i + j) % 4 == j;
  }

  /** Writing a table to a block and loading it again gives the table back. */
  lemma TableOfBytes(t: seq<uint32>)
    ensures Table(Bytes(t)) == t
  {
    forall i | 0 <= i < |t|
      ensures Table(Bytes(t))[i] == t[i]
    {
      BytesAt(t, i, 0);
      BytesAt(t, i, 1);
      BytesAt(t, i, 2);
      BytesAt(t, i, 3);
      WordOfBytes(Bytes(t), i, t[i]);
    }
  }

  lemma TableOfZeros(n: nat)
    ensures forall i :: 0 <= i < n / 4 ==> Table(Zeros(n))[i] == 0
  {
  }

  /** A word read out of four non-zero bytes is at least 0x01010101. */
  lemma NonZeroBytesMakeLargeWords(b: seq<byte>, i: nat)
    requires 4 * i + 4 <= |b|
    requires forall k :: 4 * i <= k < 4 * i + 4 ==> b[k] != 0
    ensures Word(b, i) >= 0x0101_0101
  {
    assert b[4 * i] >= 1 && b[4 * i + 1] >= 1 && b[4 * i + 2] >= 1 && b[4 * i + 3] >= 1;
  }
}
