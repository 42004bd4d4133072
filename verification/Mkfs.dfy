/** The disk layout that mkfs computes and the bitmaps it writes. */
module Mkfs {
  import opened Arith
  import opened Bytes
  import opened Super
  import opened Bitmaps
  import opened AllocTxns

  const NBITBLOCK: Positive := 8 * BLOCKSIZE

  /** An inode record fills 128 bytes, as a directory entry does. */
  const INODEBLK: Positive := NENTBLK

  const NINODEBITMAP: Positive
  const LOGSIZE: Positive

  type DiskBlock = s: seq<bv8> | |s| == BLOCKSIZE witness seq(BLOCKSIZE, _ => 0)

  /** Division as the machine does it. */
  function Div(x: nat, s: nat): (q: nat)
    requires s > 0
    ensures q == Quot(x, s)
  {
    QuotIsDiv(x, s);
    x / s
  }

  function MkFsSuper(sz: nat): FsSuper {
    FsSuper(sz, LOGSIZE, Div(sz, NBITBLOCK) + 1, NINODEBITMAP, Div(NINODEBITMAP * NBITBLOCK * INODESZ, BLOCKSIZE))
  }

  function NInode(sup: FsSuper): nat { sup.nInodeBlk * INODEBLK }

  /** The block of an inode, and the bit in it where the inode starts. */
  function Inum2Addr(sup: FsSuper, inum: nat): (nat, nat) {
    (sup.InodeStart() + Div(inum, INODEBLK), (inum % INODEBLK) * INODESZ * 8)
  }

  // ---------------------------------------------------------------- the layout

  lemma MulSwap(k: nat, b: nat)
    ensures k * (8 * b) * 128 == (1024 * k) * b
  {}

  lemma InodeBlocks(sz: nat)
    ensures MkFsSuper(sz).nInodeBlk == 1024 * NINODEBITMAP
  {
    MulSwap(NINODEBITMAP, BLOCKSIZE);
    TimesIsMul(1024 * NINODEBITMAP, BLOCKSIZE);
    Digits(1024 * NINODEBITMAP, 0, BLOCKSIZE);
  }

  lemma ScaleBits(k: nat, b: nat)
    ensures (1024 * k) * b == k * (8 * (128 * b))
  {}

  /** There are as many inodes as bits in the inode bitmap, so that every inode number
      handed out has a record. */
  lemma InodesAsBits(sz: nat)
    ensures NInode(MkFsSuper(sz)) == NINODEBITMAP * NBITBLOCK
  {
    InodeBlocks(sz);
    ScaleBits(NINODEBITMAP, NENTBLK);
  }

  /** Inodes stay inside the inode region, and no two overlap. */
  lemma InodesApart(sup: FsSuper, i: nat, j: nat)
    requires i < NInode(sup) && j < NInode(sup)
    ensures var (b, o) := Inum2Addr(sup, i); sup.InodeStart() <= b < sup.DataStart() && o + 8 * INODESZ <= NBITBLOCK
    ensures i != j ==>
              var (b, o) := Inum2Addr(sup, i);
              var (c, p) := Inum2Addr(sup, j);
              b != c || o + 8 * INODESZ <= p || p + 8 * INODESZ <= o
  {
    QuotIsDiv(i, INODEBLK);
    QuotIsDiv(j, INODEBLK);
    TimesIsMul(sup.nInodeBlk, INODEBLK);
    QuotBound(i, INODEBLK, sup.nInodeBlk);
    QuotRem(i, INODEBLK);
    QuotRem(j, INODEBLK);
  }

  lemma {:induction false} TimesScaled(a: nat, b: nat, c: nat)
    ensures Times(a, c * b) == c * Times(a, b)
  {
    if a > 0 { TimesScaled(a - 1, b, c); }
  }

  /** The record of inode i starts i records, of 1024 bits each, after the start of the region. */
  lemma InodeAt(sup: FsSuper, i: nat)
    ensures var (b, o) := Inum2Addr(sup, i);
            b >= sup.InodeStart() && Times(b - sup.InodeStart(), NBITBLOCK) + o == 1024 * i
  {
    QuotIsDiv(i, INODEBLK);
    QuotRem(i, INODEBLK);
    TimesScaled(Quot(i, INODEBLK), INODEBLK, 1024);
  }

  datatype Region = Log | BlockBits | InodeBits | Inodes | Blocks
  {
    /** Their order on disk. */
    function Rank(): nat {
      match this
      case Log => 0
      case BlockBits => 1
      case InodeBits => 2
      case Inodes => 3
      case Blocks => 4
    }
  }

  /** Block b is in a region: from where the region starts, as many blocks as it has. */
  predicate In(sup: FsSuper, r: Region, b: nat) {
    match r
    case Log => b < sup.nLog
    case BlockBits => sup.BitmapBlockStart() <= b < sup.BitmapBlockStart() + sup.nBlockBitmap
    case InodeBits => sup.BitmapInodeStart() <= b < sup.BitmapInodeStart() + sup.nInodeBitmap
    case Inodes => sup.InodeStart() <= b < sup.InodeStart() + sup.nInodeBlk
    case Blocks => sup.DataStart() <= b < sup.size
  }

  /** The regions follow each other in this order and so are disjoint; where there is a data
      region they fill the disk; and its blocks are those that AssertValidBlock accepts. */
  lemma RegionsApart(sup: FsSuper, b: nat, c: nat)
    ensures forall r, q :: In(sup, r, b) && In(sup, q, c) && r.Rank() < q.Rank() ==> b < c
    ensures forall r, q :: In(sup, r, b) && In(sup, q, b) ==> r == q
    ensures sup.DataStart() <= sup.size ==> (b < sup.size <==> exists r :: In(sup, r, b))
    ensures sup.ValidBlock(b) <==> b == 0 || In(sup, Blocks, b)
  {
    if sup.DataStart() <= sup.size && b < sup.size {
      assert || In(sup, Log, b) || In(sup, BlockBits, b) || In(sup, InodeBits, b)
             || In(sup, Inodes, b) || In(sup, Blocks, b);
    }
  }

  /** The blocks of the log are in no other region. */
  lemma LogApart(sz: nat, b: nat)
    requires b < LOGSIZE
    ensures forall r :: In(MkFsSuper(sz), r, b) <==> r == Log
  {
    RegionsApart(MkFsSuper(sz), b, b);
    assert In(MkFsSuper(sz), Log, b);
  }

  /** Every inode is in the inode blocks, and so in no other region. */
  lemma InodeInRegion(sup: FsSuper, i: nat)
    requires i < NInode(sup)
    ensures forall r :: In(sup, r, Inum2Addr(sup, i).0) <==> r == Inodes
  {
    var b := Inum2Addr(sup, i).0;
    InodesApart(sup, i, i);
    RegionsApart(sup, b, b);
    assert In(sup, Inodes, b);
  }

  // --------------------------------------------------------------- the bitmaps

  class Disk {
    var blocks: seq<DiskBlock>

    constructor (size: nat)
      ensures blocks == seq(size, _ => Blank())
    {
      blocks := seq(size, _ => Blank());
    }

    method Write(bn: nat, blk: DiskBlock)
      requires bn < |blocks|
      modifies this
      ensures blocks == old(blocks)[bn := blk]
    {
      blocks := blocks[bn := blk];
    }

    method Read(bn: nat) returns (blk: DiskBlock)
      requires bn < |blocks|
      ensures blk == blocks[bn]
    {
      blk := blocks[bn];
    }
  }

  function Blank(): DiskBlock { seq(BLOCKSIZE, _ => 0) }

  lemma BlankUnmarked(j: nat)
    requires j < NBITBLOCK
    ensures !Marked(Blank(), j)
  {}

  /** Exactly the numbers below n and from m on are marked in this block. */
  ghost predicate Marks(blk: DiskBlock, n: nat, m: nat) {
    forall j: nat :: j < NBITBLOCK ==> (Marked(blk, j) <==> j < n || j >= m)
  }

  /** Marks, in the block bitmap, the numbers below n and those from m to the end of the
      bitmap block that m is in; in the inode bitmap, inodes 0 and 1. */
  method MarkAlloc(d: Disk, sup: FsSuper, n: nat, m: nat) returns (ok: bool)
    requires sup.DataStart() <= |d.blocks| && sup.nInodeBitmap > 0
    modifies d
    ensures ok <==> n < NBITBLOCK && m < Times(sup.nBlockBitmap, NBITBLOCK) && n <= m
    ensures !ok ==> d.blocks == old(d.blocks)
    ensures ok ==>
              var k := Quot(m, NBITBLOCK);
              var b := sup.BitmapBlockStart();
              && k < sup.nBlockBitmap && |d.blocks| == old(|d.blocks|)
              && Marks(d.blocks[b], n, if k == 0 then m else NBITBLOCK)
              && (k > 0 ==> Marks(d.blocks[b + k], 0, Rem(m, NBITBLOCK)))
              && Marks(d.blocks[sup.BitmapInodeStart()], 2, NBITBLOCK)
              && forall i :: 0 <= i < |d.blocks| && i != b && i != b + k && i != sup.BitmapInodeStart() ==>
                    d.blocks[i] == old(d.blocks[i])
  {
    TimesIsMul(sup.nBlockBitmap, NBITBLOCK);
    ok := false;
    if n >= NBITBLOCK || m >= NBITBLOCK * sup.nBlockBitmap || m < n {
      return;
    }
    ok := true;
    QuotIsDiv(m, NBITBLOCK);
    QuotBound(m, NBITBLOCK, sup.nBlockBitmap);
    var start := sup.BitmapBlockStart();
    var blk := NewBlock();
    SetBits(blk, 0, n);
    d.Write(start, blk[..]);
    var blk1 := blk;
    var blkno := m / NBITBLOCK + start;
    if blkno > start {
      blk1 := NewBlock();
    }
    SetBits(blk1, m % NBITBLOCK, NBITBLOCK);
    d.Write(blkno, blk1[..]);
    var blk2 := NewBlock();
    SetBits(blk2, 0, 2);
    d.Write(sup.BitmapInodeStart(), blk2[..]);
  }

  method NewBlock() returns (blk: array<bv8>)
    ensures fresh(blk) && blk[..] == Blank()
    ensures forall j: nat :: j < NBITBLOCK ==> !Marked(blk[..], j)
  {
    blk := new bv8[BLOCKSIZE](_ => 0);
    forall j: nat | j < NBITBLOCK ensures !Marked(blk[..], j) { BlankUnmarked(j); }
  }

  // --------------------------------------------------- reading the bitmap back

  /** The bitmap of len blocks from start on. */
  ghost function Concat(blocks: seq<DiskBlock>, start: nat, len: nat): (r: seq<bv8>)
    requires start + len <= |blocks|
    ensures |r| == Times(len, BLOCKSIZE)
  {
    if len == 0 then [] else Concat(blocks, start, len - 1) + blocks[start + len - 1]
  }

  method ReadBitmap(d: Disk, start: nat, len: nat) returns (bitmap: seq<bv8>)
    requires start + len <= |d.blocks|
    ensures bitmap == Concat(d.blocks, start, len)
  {
    bitmap := [];
    for i := 0 to len
      invariant bitmap == Concat(d.blocks, start, i)
    {
      var blk := d.Read(start + i);
      bitmap := bitmap + blk;
    }
  }

  lemma {:induction false} TimesBits(k: nat)
    ensures Times(k, NBITBLOCK) == 8 * Times(k, BLOCKSIZE)
  {
    if k > 0 { TimesBits(k - 1); }
  }

  /** Number j of block k is number k * NBITBLOCK + j of the bitmap. */
  lemma {:induction false} ConcatMarked(blocks: seq<DiskBlock>, start: nat, len: nat, k: nat, j: nat)
    requires start + len <= |blocks| && k < len && j < NBITBLOCK
    ensures var n := 8 * Times(k, BLOCKSIZE) + j;
            n < 8 * |Concat(blocks, start, len)| && (Marked(Concat(blocks, start, len), n) <==>
                Marked(blocks[start + k], j))
    decreases len
  {
    if k < len - 1 {
      ConcatMarked(blocks, start, len - 1, k, j);
    }
  }

  ghost function Bitmap(blocks: seq<DiskBlock>, sup: FsSuper): (r: seq<bv8>)
    requires sup.DataStart() <= |blocks|
    ensures |r| == Times(sup.nBlockBitmap, BLOCKSIZE)
  {
    Concat(blocks, sup.BitmapBlockStart(), sup.nBlockBitmap)
  }

  /** What MarkAlloc leaves of a blank bitmap. */
  ghost predicate Written(blocks: seq<DiskBlock>, sup: FsSuper, n: nat, m: nat) {
    var k := Quot(m, NBITBLOCK);
    var b := sup.BitmapBlockStart();
    && sup.DataStart() <= |blocks| && k < sup.nBlockBitmap && n <= m && n < NBITBLOCK
    && Marks(blocks[b], n, if k == 0 then m else NBITBLOCK)
    && (k > 0 ==> Marks(blocks[b + k], 0, Rem(m, NBITBLOCK)))
    && forall i :: b < i < b + sup.nBlockBitmap && i != b + k ==> blocks[i] == Blank()
  }

  /** Exactly these numbers are marked, also where both ranges share a block. */
  lemma MarkedExactly(blocks: seq<DiskBlock>, sup: FsSuper, n: nat, m: nat, bn: nat)
    requires Written(blocks, sup, n, m) && bn < Times(sup.nBlockBitmap, NBITBLOCK)
    ensures bn < 8 * |Bitmap(blocks, sup)|
    ensures Marked(Bitmap(blocks, sup), bn) <==> bn < n || (m <= bn && Quot(bn, NBITBLOCK) == Quot(m, NBITBLOCK))
  {
    var k, j := Quot(bn, NBITBLOCK), Rem(bn, NBITBLOCK);
    var l, i := Quot(m, NBITBLOCK), Rem(m, NBITBLOCK);
    QuotRem(bn, NBITBLOCK);
    QuotRem(m, NBITBLOCK);
    QuotBound(bn, NBITBLOCK, sup.nBlockBitmap);
    TimesBits(k);
    ConcatMarked(blocks, sup.BitmapBlockStart(), sup.nBlockBitmap, k, j);
    BlankUnmarked(j);
    if k > 0 { TimesMono(1, k, NBITBLOCK); }
  }

  /** All numbers from m to the end of the bitmap are marked, and all others unmarked. */
  ghost predicate Whole(blocks: seq<DiskBlock>, sup: FsSuper, n: nat, m: nat)
    requires sup.DataStart() <= |blocks|
  {
    forall bn: nat :: bn < 8 * |Bitmap(blocks, sup)| ==> (Marked(Bitmap(blocks, sup), bn) <==> bn < n || m <= bn)
  }

  /** This is so if and only if m is in the last block of the bitmap. */
  lemma WholeIff(blocks: seq<DiskBlock>, sup: FsSuper, n: nat, m: nat)
    requires Written(blocks, sup, n, m)
    ensures Whole(blocks, sup, n, m) <==> Quot(m, NBITBLOCK) + 1 == sup.nBlockBitmap
  {
    var last := sup.nBlockBitmap - 1;
    TimesBits(sup.nBlockBitmap);
    if Quot(m, NBITBLOCK) == last {
      forall bn: nat | bn < 8 * |Bitmap(blocks, sup)| ensures Marked(Bitmap(blocks, sup), bn) <==> bn < n || m <= bn {
        MarkedExactly(blocks, sup, n, m, bn);
        QuotBound(bn, NBITBLOCK, sup.nBlockBitmap);
        if m <= bn { QuotMono(m, bn, NBITBLOCK); }
      }
    } else {
      var bn := Times(last, NBITBLOCK);
      Digits(last, 0, NBITBLOCK);
      DigitBound(last, 0, sup.nBlockBitmap, NBITBLOCK);
      MarkedExactly(blocks, sup, n, m, bn);
      if bn < m { QuotMono(bn, m, NBITBLOCK); }
      assert !Marked(Bitmap(blocks, sup), bn) && m <= bn;
    }
  }

  /** Makes an empty file system on a blank disk: it succeeds if the data region starts
      within the first bitmap block's reach and on the disk, and then the numbers that are
      not marked, those the allocator can hand out, are exactly the data blocks. */
  method MakeFs(d: Disk) returns (sup: FsSuper, ok: bool)
    requires d.blocks == seq(|d.blocks|, _ => Blank()) && |d.blocks| < U64
    modifies d
    ensures sup == MkFsSuper(|d.blocks|) && |d.blocks| == old(|d.blocks|)
    ensures ok <==> sup.DataStart() < NBITBLOCK && sup.DataStart() <= |d.blocks|
    ensures ok ==>
              forall bn: nat :: bn < 8 * |Bitmap(d.blocks, sup)| ==>
                  (!Marked(Bitmap(d.blocks, sup), bn) <==> sup.Data(bn))
    ensures ok ==> sup.MaxBnum() <= 8 * |Bitmap(d.blocks, sup)|
    ensures ok ==> Marks(d.blocks[sup.BitmapInodeStart()], 2, NBITBLOCK)
  {
    sup := MkFsSuper(|d.blocks|);
    if sup.DataStart() > |d.blocks| {
      return sup, false;
    }
    SizeInBitmap(|d.blocks|);
    ok := MarkAlloc(d, sup, sup.DataStart(), sup.MaxBnum());
    if ok { WholeIff(d.blocks, sup, sup.DataStart(), sup.MaxBnum()); }
  }

  /** The first number that is no block is in the last bitmap block. */
  lemma SizeInBitmap(sz: nat)
    ensures sz < Times(MkFsSuper(sz).nBlockBitmap, NBITBLOCK)
    ensures Times(MkFsSuper(sz).nBlockBitmap, NBITBLOCK) == 8 * Times(MkFsSuper(sz).nBlockBitmap, BLOCKSIZE)
  {
    QuotRem(sz, NBITBLOCK);
    DigitBound(Quot(sz, NBITBLOCK), Rem(sz, NBITBLOCK), Quot(sz, NBITBLOCK) + 1, NBITBLOCK);
    TimesBits(MkFsSuper(sz).nBlockBitmap);
  }

  /** Rebuilds the block allocator from the bitmap on disk, after mkfs or a crash: what is
      marked on disk is marked in memory, and it hands out data blocks only if and only if
      all other numbers are marked. */
  method MkBalloc(d: Disk, sup: FsSuper) returns (a: Alloc)
    requires sup.DataStart() <= |d.blocks|
    ensures fresh(a) && a.size == 8 * |Bitmap(d.blocks, sup)| && a.used + a.reserved == Used(Bitmap(d.blocks, sup))
    ensures (forall n: nat :: 0 < n < a.size && n !in a.reserved ==> sup.Data(n)) <==>
            (forall n: nat :: 0 < n < a.size && !sup.Data(n) ==> Marked(Bitmap(d.blocks, sup), n))
    ensures forall n: nat :: n in a.used ==> sup.Data(n)
  {
    var bitmap := ReadBitmap(d, sup.BitmapBlockStart(), sup.nBlockBitmap);
    var used := Used(bitmap);
    a := new Alloc(8 * |bitmap|, set n | n in used && !sup.Data(n), set n | n in used && sup.Data(n));
  }
}
