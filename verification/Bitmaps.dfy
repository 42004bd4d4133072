/** Bitmaps in bytes, and how a transaction's allocations reach them. */
module Bitmaps {
  import opened Basics
  import opened AllocTxns

  function Mask(k: nat): bv8
    requires k < 8
  {
    1 << k
  }

  predicate Bit(b: bv8, k: nat)
    requires k < 8
  {
    b & Mask(k) != 0
  }

  lemma Masks()
    ensures Mask(0) == 1 && Mask(1) == 2 && Mask(2) == 4 && Mask(3) == 8
    ensures Mask(4) == 16 && Mask(5) == 32 && Mask(6) == 64 && Mask(7) == 128
  {}

  lemma MaskCases(k: nat)
    requires k < 8
    ensures k == 0 || k == 1 || k == 2 || k == 3 || k == 4 || k == 5 || k == 6 || k == 7
  {}

  lemma SetBit(b: bv8, k: nat, j: nat)
    requires k < 8 && j < 8
    ensures Bit(b | Mask(k), j) <==> j == k || Bit(b, j)
  {
    Masks();
    MaskCases(k);
    MaskCases(j);
  }

  /** A write of bit k from byte c. */
  function PutBit(b: bv8, c: bv8, k: nat): bv8
    requires k < 8
  {
    (b & !Mask(k)) | (c & Mask(k))
  }

  lemma PutBitBit(b: bv8, c: bv8, k: nat, j: nat)
    requires k < 8 && j < 8
    ensures Bit(PutBit(b, c, k), j) <==> if j == k then Bit(c, k) else Bit(b, j)
  {
    Masks();
    MaskCases(k);
    MaskCases(j);
  }

  lemma MaskBits(k: nat)
    requires k < 8
    ensures Bit(Mask(k), k) && !Bit(!Mask(k), k)
  {
    Masks();
    MaskCases(k);
  }

  // ---------------------------------------------------------------- bit by bit

  /** Number n is marked in the bitmap. */
  predicate Marked(s: seq<bv8>, n: nat)
    requires n < 8 * |s|
  {
    Bit(s[n / 8], n % 8)
  }

  function Used(s: seq<bv8>): set<nat> {
    set n: nat | n < 8 * |s| && Marked(s, n)
  }

  lemma MarkOne(s: seq<bv8>, n: nat, j: nat)
    requires n < 8 * |s| && j < 8 * |s|
    ensures Marked(s[n / 8 := s[n / 8] | Mask(n % 8)], j) <==> j == n || Marked(s, j)
  {
    SetBit(s[n / 8], n % 8, j % 8);
  }

  /** The loop of markAlloc: marks the numbers from lo to hi, and no others. */
  method SetBits(blk: array<bv8>, lo: nat, hi: nat)
    requires lo <= hi <= 8 * blk.Length
    modifies blk
    ensures forall j: nat :: j < 8 * blk.Length ==> (Marked(blk[..], j) <==> lo <= j < hi || old(Marked(blk[..], j)))
  {
    ghost var s0 := blk[..];
    for bn := lo to hi
      invariant forall j: nat :: j < 8 * blk.Length ==> (Marked(blk[..], j) <==> lo <= j < bn || Marked(s0, j))
    {
      ghost var s := blk[..];
      blk[bn / 8] := blk[bn / 8] | Mask(bn % 8);
      assert blk[..] == s[bn / 8 := s[bn / 8] | Mask(bn % 8)];
      forall j: nat | j < 8 * |s| ensures Marked(blk[..], j) <==> j == bn || Marked(s, j) { MarkOne(s, bn, j); }
    }
  }

  // ------------------------------------------------------------- transactions

  lemma WriteOne(s: seq<bv8>, n: nat, c: bv8, j: nat)
    requires n < 8 * |s| && j < 8 * |s|
    ensures Marked(s[n / 8 := PutBit(s[n / 8], c, n % 8)], j) <==> if j == n then Bit(c, n % 8) else Marked(s, j)
  {
    PutBitBit(s[n / 8], c, n % 8, j % 8);
  }

  /** A bitmap as a transaction sees it; it writes single bits. */
  class BitOp {
    var bitmap: seq<bv8>

    constructor (bitmap: seq<bv8>)
      ensures this.bitmap == bitmap
    {
      this.bitmap := bitmap;
    }

    /** OverWrite with a size of one bit. */
    method OverWrite(n: nat, c: bv8)
      requires n < 8 * |bitmap|
      modifies this
      ensures |bitmap| == old(|bitmap|)
      ensures Used(bitmap) == if Bit(c, n % 8) then old(Used(bitmap)) + {n} else old(Used(bitmap)) - {n}
    {
      ghost var s := bitmap;
      bitmap := bitmap[n / 8 := PutBit(bitmap[n / 8], c, n % 8)];
      forall j: nat | j < 8 * |s| ensures Marked(bitmap, j) <==> if j == n then Bit(c, n % 8) else Marked(s, j) {
        WriteOne(s, n, c, j);
      }
    }

    /** Sets or clears the bits of the numbers. */
    method WriteBits(nums: seq<nat>, alloc: bool)
      requires forall n :: n in nums ==> n < 8 * |bitmap|
      modifies this
      ensures |bitmap| == old(|bitmap|)
      ensures Used(bitmap) == if alloc then old(Used(bitmap)) + ToSet(nums) else old(Used(bitmap)) - ToSet(nums)
    {
      for i := 0 to |nums|
        invariant |bitmap| == old(|bitmap|)
        invariant Used(bitmap) == if alloc then old(Used(bitmap)) + ToSet(nums[..i])
                  else old(Used(bitmap)) - ToSet(nums[..i])
      {
        var n := nums[i];
        assert n in nums;
        var b := Mask(n % 8);
        if !alloc {
          b := !b;
        }
        MaskBits(n % 8);
        OverWrite(n, b);
        assert nums[..i + 1] == nums[..i] + [n];
        ToSetAppend(nums[..i], n);
      }
      assert nums[..|nums|] == nums;
    }

    /** The bitmap that is committed: what the transaction took is marked, then what it
        gave back is not. */
    method PreCommit(allocBnums: seq<nat>, freeBnums: seq<nat>)
      requires forall n :: n in allocBnums || n in freeBnums ==> n < 8 * |bitmap|
      modifies this
      ensures |bitmap| == old(|bitmap|) && Used(bitmap) == (old(Used(bitmap)) + ToSet(allocBnums)) - ToSet(freeBnums)
    {
      WriteBits(allocBnums, true);
      WriteBits(freeBnums, false);
    }
  }

  /** PostCommit and PostAbort: numbers are unmarked in memory. */
  method FreeAll(a: Alloc, nums: seq<nat>)
    modifies a
    ensures a.used == old(a.used) - ToSet(nums)
  {
    for i := 0 to |nums|
      invariant a.used == old(a.used) - ToSet(nums[..i])
    {
      assert nums[..i + 1] == nums[..i] + [nums[i]];
      ToSetAppend(nums[..i], nums[i]);
      a.FreeNum(nums[i]);
    }
    assert nums[..|nums|] == nums;
  }
}
