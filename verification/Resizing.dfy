/** When Resize may be called: it sets the cursor of a shrinking inode anew. */
module Resizing {
  import opened Basics
  import opened Arith
  import opened Bytes
  import opened Tree
  import opened Slots
  import opened Files
  import opened Shrinking
  import opened Shrinks

  /** What Resize makes of an inode before it shrinks it. */
  function Reset(s: Snap, sz: nat): Snap {
    Snap(s.v, s.blks, sz, Max(RoundUp(s.size), RoundUp(sz)))
  }

  // ------------------------------------------- an inode with one leaf only

  /** From block n on, blocks point along p to one another, and nowhere else. */
  ghost predicate Thread(v: View, p: seq<nat>, n: nat) {
    if p == [] then true
    else p[0] < NBLKBLK && Only(v, n, p[0], n + 1) && Thread(v, p[1..], n + 1)
  }

  /** The one pointer in block n is in slot o, to block q. */
  ghost predicate Only(v: View, n: nat, o: nat, q: nat) {
    forall a {:trigger PtrAt(v, n, a)} :: 0 <= a < NBLKBLK ==> PtrAt(v, n, a) == if a == o then q else 0
  }

  lemma PrefixTail(q: seq<nat>, p: seq<nat>)
    requires q != [] && p != [] && q[0] == p[0]
    ensures q <= p <==> q[1..] <= p[1..]
  {}

  lemma {:induction false} ThreadWalk(v: View, p: seq<nat>, n: nat, q: seq<nat>)
    requires Thread(v, p, n) && 0 < n && n + |p| < U64 && |q| <= |p| && forall j :: 0 <= j < |q| ==> q[j] < NBLKBLK
    ensures Walk(v, n, q) == if q <= p then n + |q| else 0
    decreases q
  {
    if q != [] {
      if q[0] == p[0] {
        ThreadWalk(v, p[1..], n + 1, q[1..]);
        PrefixTail(q, p);
      } else {
        WalkNull(v, q[1..]);
      }
    }
  }

  function Spun(p: seq<nat>, n: nat): View
    requires forall j :: 0 <= j < |p| ==> p[j] < NBLKBLK
    decreases p
  {
    if p == [] then map[] else Spun(p[1..], n + 1)[n := PtrPut(ZeroBlock(), p[0], n + 1)]
  }

  lemma PutOnly(v: View, n: nat, o: nat, q: nat)
    requires o < NBLKBLK && q < U64 && Blk(v, n) == PtrPut(ZeroBlock(), o, q)
    ensures Only(v, n, o, q)
  {
    forall a: nat | a < NBLKBLK ensures PtrAt(v, n, a) == if a == o then q else 0 {
      PtrPutGet(ZeroBlock(), o, q, a);
      PtrGetZeros(a);
    }
  }

  lemma {:induction false} SpunThread(v: View, p: seq<nat>, n: nat)
    requires n + |p| < U64 && forall j :: 0 <= j < |p| ==> p[j] < NBLKBLK
    requires forall b :: b >= n ==> Blk(v, b) == Blk(Spun(p, n), b)
    ensures Thread(v, p, n)
    decreases p
  {
    if p != [] {
      PutOnly(v, n, p[0], n + 1);
      SpunThread(v, p[1..], n + 1);
    }
  }

  /** The smallest inode in which logical block bn is mapped. */
  function Entries(bn: nat): (blks: seq<nat>)
    ensures |blks| == NBLKINO
  {
    seq(NBLKINO, k => if k == SlotOf(bn)[0] then 1 else 0)
  }

  function Blocks(bn: nat): View
    requires bn < MaxBlocks()
  {
    SlotOfBlock(bn);
    Spun(SlotOf(bn)[1..], 1)
  }

  /** The slots above the leaf hold blocks 1, 2 and so on, all others are empty. */
  lemma SampleAt(bn: nat, x: seq<nat>)
    requires bn < MaxBlocks() && Slot(x) && Leaf(SlotOf(bn))
    ensures At(Blocks(bn), Entries(bn), x) == if x <= SlotOf(bn) then |x| else 0
  {
    var s := SlotOf(bn);
    SpunThread(Blocks(bn), s[1..], 1);
    if x[0] == s[0] {
      ThreadWalk(Blocks(bn), s[1..], 1, x[1..]);
      PrefixTail(x, s);
    } else {
      WalkNull(Blocks(bn), x[1..]);
    }
  }

  lemma Sample(bn: nat)
    requires bn < MaxBlocks()
    ensures InodeOk(Blocks(bn), Entries(bn), {1, 2, 3})
    ensures forall n: nat :: LeavesBelow(Blocks(bn), Entries(bn), n) <==> bn < n
  {
    SlotOfBlock(bn);
    var v, blks, s := Blocks(bn), Entries(bn), SlotOf(bn);
    forall x | Slot(x) ensures At(v, blks, x) == if x <= s then |x| else 0 { SampleAt(bn, x); }
    SampleOk(v, blks, s);
    forall n: nat ensures LeavesBelow(v, blks, n) <==> bn < n { SampleLeaf(v, blks, s, n); }
  }

  /** Every slot on the way to s, and no other, holds the block of its depth. */
  ghost predicate OneWay(v: View, blks: seq<nat>, s: seq<nat>) {
    && |blks| == NBLKINO && Leaf(s)
    && forall x {:trigger At(v, blks, x)} :: Slot(x) ==> At(v, blks, x) == if x <= s then |x| else 0
  }

  lemma SampleOk(v: View, blks: seq<nat>, s: seq<nat>)
    requires OneWay(v, blks, s)
    ensures InodeOk(v, blks, {1, 2, 3})
  {
    forall x, y | Slot(x) && Slot(y) && At(v, blks, x) == At(v, blks, y) != 0 ensures x == y {
      assert x == s[..|x|] && y == s[..|y|];
    }
  }

  lemma SampleLeaf(v: View, blks: seq<nat>, s: seq<nat>, n: nat)
    requires OneWay(v, blks, s)
    ensures LeavesBelow(v, blks, n) <==> First(s) < n
  {
    assert At(v, blks, s) == |s|;
    forall x | Leaf(x) && At(v, blks, x) != 0 ensures x == s { assert x[0] == s[0] && |x| == |s|; }
  }

  // -------------------------------------------------------------- the condition

  /** Whatever the tree of an inode with this size and cursor, if its leaves are below both
      before Resize then so they are after. */
  ghost predicate ResizeSafe(size: nat, shrinkSize: nat, sz: nat) {
    forall v, blks, dom :: InodeOk(v, blks, dom) && LeavesBelow(v, blks, Snap(v, blks, size, shrinkSize).Top()) ==>
      LeavesBelow(v, blks, Reset(Snap(v, blks, size, shrinkSize), sz).Top())
  }

  /** Resize keeps that a shrinker can find every leaf if and only if the cursor is not
      beyond the old and the new size, so always for an inode that is not shrinking. */
  lemma ResizeResumableIff(size: nat, shrinkSize: nat, sz: nat)
    requires shrinkSize <= MaxBlocks()
    ensures ResizeSafe(size, shrinkSize, sz) <==> shrinkSize <= Max(RoundUp(size), RoundUp(sz))
  {
    if shrinkSize > Max(RoundUp(size), RoundUp(sz)) {
      var bn := shrinkSize - 1;
      Sample(bn);
      var s := Snap(Blocks(bn), Entries(bn), size, shrinkSize);
      assert LeavesBelow(s.v, s.blks, s.Top()) && !LeavesBelow(s.v, s.blks, Reset(s, sz).Top());
    }
  }

  /** So the removal of a file that is still shrinking, which Resize starts with size 0,
      may leave a block behind whenever its cursor is beyond its size. */
  lemma RemovalStrands(size: nat, shrinkSize: nat)
    requires RoundUp(size) < shrinkSize <= MaxBlocks()
    ensures !ResizeSafe(size, shrinkSize, 0)
  {
    ResizeResumableIff(size, shrinkSize, 0);
    RoundUpMono(0, size);
  }

  // ------------------------------------------------------------------ the bytes

  /** A byte of a file that was shrunk to sz. */
  lemma CutByte(v: View, blks: seq<nat>, w: View, blks': seq<nat>, sz: nat, freed: seq<nat>, x: nat)
    requires ShrunkTo(v, blks, w, blks', RoundUp(sz), freed) && x < MaxFileSize()
    ensures FileByte(w, blks', x) == if BlockNo(x) < RoundUp(sz) then FileByte(v, blks, x) else 0
  {
    InRange(x);
    SlotOfBlock(BlockNo(x));
    assert At(w, blks', SlotOf(BlockNo(x))) ==
           if BlockNo(x) >= RoundUp(sz) then 0 else At(v, blks, SlotOf(BlockNo(x)));
  }

  /** All bytes from sz on are zero. */
  ghost predicate ZeroFrom(v: View, blks: seq<nat>, sz: nat)
    requires |blks| == NBLKINO
  {
    forall x: nat :: sz <= x < MaxFileSize() ==> FileByte(v, blks, x) == 0
  }

  /** So are those in the last block that a file of sz bytes keeps. */
  ghost predicate ZeroTail(v: View, blks: seq<nat>, sz: nat)
    requires |blks| == NBLKINO
  {
    forall x: nat :: sz <= x < MaxFileSize() && BlockNo(x) < RoundUp(sz) ==> FileByte(v, blks, x) == 0
  }

  /** A file that is shrunk to sz to the end reads as zeros from there on if and only if the
      rest of its last block did so before: truncation clears whole blocks only. */
  lemma TruncateZeroIff(v: View, blks: seq<nat>, w: View, blks': seq<nat>, sz: nat, freed: seq<nat>)
    requires ShrunkTo(v, blks, w, blks', RoundUp(sz), freed)
    ensures ZeroFrom(w, blks', sz) <==> ZeroTail(v, blks, sz)
  {
    forall x: nat | x < MaxFileSize()
      ensures FileByte(w, blks', x) == if BlockNo(x) < RoundUp(sz) then FileByte(v, blks, x) else 0
    {
      CutByte(v, blks, w, blks', sz, freed, x);
    }
    if ZeroFrom(w, blks', sz) {
      forall x: nat | sz <= x < MaxFileSize() && BlockNo(x) < RoundUp(sz) ensures FileByte(v, blks, x) == 0 {
        assert FileByte(w, blks', x) == 0;
      }
    }
  }

  /** A file of one block, cut after its first byte, keeps its last byte. */
  lemma CutInside(b: nat)
    requires b != 0
    ensures var v: View, blks := map[b := ZeroBlock()[BLOCKSIZE - 1 := 1]], NoBlocks()[0 := b];
            ShrunkTo(v, blks, v, blks, RoundUp(1), []) && !ZeroFrom(v, blks, 1)
  {
    var v: View, blks := map[b := ZeroBlock()[BLOCKSIZE - 1 := 1]], NoBlocks()[0 := b];
    Digits(1, 0, BLOCKSIZE);
    assert Times(1, BLOCKSIZE) == BLOCKSIZE + Times(0, BLOCKSIZE) && RoundUp(1) == 1;
    forall x | Slot(x) ensures At(v, blks, x) != 0 ==> First(x) < 1 { WalkNull(v, x[1..]); }
    ShrunkNothing(v, blks, 1);
    var x := BLOCKSIZE - 1;
    assert BlockNo(x) == 0 && ByteNo(x) == x && SlotOf(0) == [0];
    assert MaxFileSize() >= BLOCKSIZE;
    assert FileByte(v, blks, x) == 1;
  }
}
