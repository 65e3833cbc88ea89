/** The allocation bitmaps of a block group: one bit per block or inode, set when it is in use. */
module Bitmap {
  import opened Powers
  import opened Words

  /** Bit `k` of `b`: `(b >> k) & 1`. */
  predicate ByteBit(b: nat, k: nat)
  {
    if k == 0 then b % 2 == 1 else ByteBit(b / 2, k - 1)
  }

  /** `b` with bit `k` set or cleared: `b | (1 << k)` and `b & ~(1 << k)`. */
  function PutByteBit(b: nat, k: nat, v: bool): nat
  {
    if k == 0 then b / 2 * 2 + (if v then 1 else 0) else PutByteBit(b / 2, k - 1, v) * 2 + b % 2
  }

  lemma PutByteBitAt(b: nat, k: nat, v: bool, j: nat)
    ensures ByteBit(PutByteBit(b, k, v), j) == if j == k then v else ByteBit(b, j)
  {
  }

  lemma {:induction false} PutByteBitSmall(b: nat, k: nat, v: bool, m: nat)
    requires k < m && b < Pow2(m)
    ensures PutByteBit(b, k, v) < Pow2(m)
  {
    if k > 0 {
      PutByteBitSmall(b / 2, k - 1, v, m - 1);
    }
  }

  /** Whether bit `i` of a bitmap is set. */
  predicate Bit(m: seq<byte>, i: nat)
    requires i < 8 * |m|
  {
    ByteBit(m[i / 8], i % 8)
  }

  /** The bitmap with bit `i` set (`v`) or cleared (`!v`). */
  function PutBit(m: seq<byte>, i: nat, v: bool): (r: seq<byte>)
    requires i < 8 * |m|
    ensures |r| == |m|
    ensures Bit(r, i) == v
    ensures forall j :: 0 <= j < 8 * |m| && j != i ==> Bit(r, j) == Bit(m, j)
  {
    assert Pow2(8) == 256;
    PutByteBitSmall(m[i / 8], i % 8, v, 8);
    var r := m[i / 8 := PutByteBit(m[i / 8], i % 8, v) as byte];
    assert forall j :: 0 <= j < 8 * |m| && j != i ==> Bit(r, j) == Bit(m, j) by {
      forall j | 0 <= j < 8 * |m| && j != i
        ensures Bit(r, j) == Bit(m, j)
      {
        PutByteBitAt(m[i / 8], i % 8, v, j % 8);
      }
    }
    PutByteBitAt(m[i / 8], i % 8, v, i % 8);
    r
  }

  /** The number of clear bits among the first `n` of a bitmap. */
  function ClearBits(m: seq<byte>, n: nat): (c: nat)
    requires n <= 8 * |m|
    ensures c <= n
  {
    if n == 0 then 0 else ClearBits(m, n - 1) + (if Bit(m, n - 1) then 0 else 1)
  }

  lemma {:induction false} ClearBitsZero(m: seq<byte>, n: nat)
    requires n <= 8 * |m|
    ensures ClearBits(m, n) == 0 <==> forall i :: 0 <= i < n ==> Bit(m, i)
  {
    if n > 0 {
      ClearBitsZero(m, n - 1);
    }
  }

  lemma {:induction false} ClearBitsPut(m: seq<byte>, n: nat, i: nat, v: bool)
    requires n <= 8 * |m| && i < 8 * |m|
    ensures ClearBits(PutBit(m, i, v), n)
         == ClearBits(m, n) + (if i < n then (if Bit(m, i) then 1 else 0) - (if v then 1 else 0) else 0)
  {
    if n > 0 {
      ClearBitsPut(m, n - 1, i, v);
    }
  }
}
