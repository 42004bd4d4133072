/** Bytes, disk blocks and the little-endian integers that the marshal package
    writes.  The geometry stays symbolic: a block holds any positive number of
    128-byte directory entries, hence sixteen times as many pointers. */
module Bytes {

  type Byte = x: int | 0 <= x < 256

  type Positive = n: nat | n > 0 witness 32

  /** Directory entries per block; an entry takes 128 bytes. */
  const NENTBLK: Positive

  /** Pointers per block; a pointer takes eight bytes. */
  const NBLKBLK: Positive := 16 * NENTBLK

  const BLOCKSIZE: Positive := 128 * NENTBLK

  /** The size of an inode record. */
  const INODESZ: Positive := 128

  /** One more than the largest 64-bit unsigned integer. */
  const U64: nat := 0x1_0000_0000_0000_0000

  function Zeros(n: nat): (b: seq<Byte>)
    ensures |b| == n && forall i :: 0 <= i < n ==> b[i] == 0
  {
    seq(n, _ => 0)
  }

  type Block = b: seq<Byte> | |b| == BLOCKSIZE witness Zeros(BLOCKSIZE)

  function ZeroBlock(): Block { Zeros(BLOCKSIZE) }

  /** The bytes with data placed at off. */
  function Splice(b: seq<Byte>, off: nat, data: seq<Byte>): (r: seq<Byte>)
    requires off <= |b|
    ensures |r| == if off + |data| < |b| then |b| else off + |data|
  {
    b[..off] + data + if off + |data| < |b| then b[off + |data|..] else []
  }

  // ---------------------------------------------------------------- integers

  function Pow256(k: nat): nat {
    if k == 0 then 1 else 256 * Pow256(k - 1)
  }

  /** The k low-order bytes of n, least significant first. */
  function PutLE(n: nat, k: nat): (r: seq<Byte>)
    ensures |r| == k
    decreases n, k
  {
    if k == 0 then [] else [n % 256] + PutLE(n / 256, k - 1)
  }

  function GetLE(b: seq<Byte>): nat {
    if b == [] then 0 else b[0] + 256 * GetLE(b[1..])
  }

  lemma {:induction false} GetPutLE(n: nat, k: nat)
    requires n < Pow256(k)
    ensures GetLE(PutLE(n, k)) == n
    decreases k
  {
    if k > 0 {
      GetPutLE(n / 256, k - 1);
      assert PutLE(n, k)[1..] == PutLE(n / 256, k - 1);
    }
  }

  lemma LowByte(d: Byte, m: nat)
    ensures (d + 256 * m) % 256 == d && (d + 256 * m) / 256 == m
  {}

  lemma {:induction false} PutGetLE(b: seq<Byte>)
    ensures GetLE(b) < Pow256(|b|) && PutLE(GetLE(b), |b|) == b
  {
    if b != [] {
      PutGetLE(b[1..]);
      var n, m := GetLE(b), GetLE(b[1..]);
      LowByte(b[0], m);
      assert PutLE(n, |b|) == [b[0]] + PutLE(m, |b| - 1);
      assert b == [b[0]] + b[1..];
    }
  }

  lemma {:induction false} GetZeros(b: seq<Byte>)
    requires forall i :: 0 <= i < |b| ==> b[i] == 0
    ensures GetLE(b) == 0
  {
    if b != [] { GetZeros(b[1..]); }
  }

  lemma Pow256Of8()
    ensures Pow256(8) == U64
  {
    assert Pow256(4) == 0x1_0000_0000;
    assert Pow256(8) == 256 * (256 * (256 * (256 * Pow256(4))));
  }

  /** The 64-bit integers of the marshal package. */
  function PutInt(n: nat): (r: seq<Byte>) ensures |r| == 8 { PutLE(n, 8) }
  function GetInt(b: seq<Byte>): nat { GetLE(b) }

  lemma GetPutInt(n: nat)
    requires n < U64
    ensures GetInt(PutInt(n)) == n
  {
    Pow256Of8();
    GetPutLE(n, 8);
  }

  lemma PutGetInt(b: seq<Byte>)
    requires |b| == 8
    ensures GetInt(b) < U64 && PutInt(GetInt(b)) == b
  {
    Pow256Of8();
    PutGetLE(b);
  }

  // ------------------------------------------------- pointers in index blocks

  /** BnumGet: the pointer in slot o of an index block. */
  function PtrGet(b: Block, o: nat): nat
    requires o < NBLKBLK
  {
    GetLE(b[8 * o..8 * o + 8])
  }

  /** BnumPut: the index block with slot o replaced. */
  function PtrPut(b: Block, o: nat, q: nat): Block
    requires o < NBLKBLK
  {
    b[..8 * o] + PutLE(q, 8) + b[8 * o + 8..]
  }

  /** Writing one slot of an index block reads back and leaves every other slot alone. */
  lemma PtrPutGet(b: Block, o: nat, q: nat, a: nat)
    requires o < NBLKBLK && a < NBLKBLK && q < U64
    ensures PtrGet(PtrPut(b, o, q), a) == if a == o then q else PtrGet(b, a)
  {
    var c := PtrPut(b, o, q);
    if a == o {
      assert c[8 * o..8 * o + 8] == PutLE(q, 8);
      Pow256Of8();
      GetPutLE(q, 8);
    } else {
      assert c[8 * a..8 * a + 8] == b[8 * a..8 * a + 8];
    }
  }

  /** A zero block is an index block without pointers. */
  lemma PtrGetZeros(o: nat)
    requires o < NBLKBLK
    ensures PtrGet(ZeroBlock(), o) == 0
  {
    GetZeros(ZeroBlock()[8 * o..8 * o + 8]);
  }

  lemma TakeMore(s: seq<Byte>, a: nat, b: nat)
    requires a + b <= |s|
    ensures s[..a + b] == s[..a] + s[a..][..b] && s[a..][b..] == s[a + b..]
  {}

  lemma TakeSlice(s: seq<Byte>, n: nat, a: nat, b: nat)
    requires a <= b <= n <= |s|
    ensures s[..n][a..b] == s[a..b]
  {}
}
