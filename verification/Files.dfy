/** A file as a byte map, and what a run of bmap calls and leaf writes does to it. */
module Files {
  import opened Basics
  import opened Arith
  import opened Bytes
  import opened Tree
  import opened Slots

  /** The logical block of byte offset x, and the position in it. */
  function BlockNo(x: nat): nat { Quot(x, BLOCKSIZE) }
  function ByteNo(x: nat): (r: nat) ensures r < BLOCKSIZE { Rem(x, BLOCKSIZE) }

  /** The number of blocks that n bytes fill. */
  function RoundUp(n: nat): nat {
    BlockNo(n + BLOCKSIZE - 1)
  }

  function MaxFileSize(): nat {
    Times(NDIRECT + Span(2), BLOCKSIZE)
  }

  /** An offset below MaxFileSize lies in a block that bmap can map. */
  lemma InRange(x: nat)
    requires x < MaxFileSize()
    ensures BlockNo(x) < NDIRECT + Span(2) <= MaxBlocks()
  {
    QuotBound(x, BLOCKSIZE, NDIRECT + Span(2));
  }

  /** The byte of a file at offset x, whatever the file's size; holes are zero. */
  function FileByte(v: View, blks: seq<nat>, x: nat): Byte
    requires |blks| == NBLKINO && x < MaxFileSize()
  {
    InRange(x);
    FileBlock(v, blks, BlockNo(x))[ByteNo(x)]
  }

  /** The n positions from ByteNo(off) on in the block of off hold the offsets off to off + n. */
  lemma RangeInBlock(x: nat, off: nat, n: nat)
    requires ByteNo(off) + n <= BLOCKSIZE
    ensures off <= x < off + n <==> BlockNo(x) == BlockNo(off) && ByteNo(off) <= ByteNo(x) < ByteNo(off) + n
    ensures off <= x < off + n ==> ByteNo(x) - ByteNo(off) == x - off
  {
    QuotRem(x, BLOCKSIZE);
    QuotRem(off, BLOCKSIZE);
    if off <= x < off + n { Digits(BlockNo(off), ByteNo(off) + (x - off), BLOCKSIZE); }
  }

  /** The block of an offset below n is counted in the rounded size n. */
  lemma RoundUpCovers(n: nat, x: nat)
    requires x < n
    ensures BlockNo(x) < RoundUp(n)
  {
    QuotMono(x + BLOCKSIZE, n + BLOCKSIZE - 1, BLOCKSIZE);
  }

  lemma RoundUpMono(m: nat, n: nat)
    requires m <= n
    ensures RoundUp(m) <= RoundUp(n)
  {
    QuotMono(m + BLOCKSIZE - 1, n + BLOCKSIZE - 1, BLOCKSIZE);
  }

  /** RoundUp rounds up: n bytes fill at least x blocks exactly if they reach into the x-th. */
  lemma RoundUpIff(n: nat, x: nat)
    ensures x <= RoundUp(n) <==> x == 0 || Times(x - 1, BLOCKSIZE) < n
  {
    var m := n + BLOCKSIZE - 1;
    QuotRem(m, BLOCKSIZE);
    if x > 0 {
      if x <= RoundUp(n) { TimesMono(x, RoundUp(n), BLOCKSIZE); } else { TimesMono(RoundUp(n) + 1, x, BLOCKSIZE); }
    }
  }

  lemma SquareSpan()
    ensures Span(2) == NBLKBLK * NBLKBLK
  {
    Span1();
    TimesIsMul(NBLKBLK, Span(1));
  }

  lemma BelowTimes(x: nat, n: nat)
    ensures x < Times(n, BLOCKSIZE) <==> BlockNo(x) < n
  {
    QuotRem(x, BLOCKSIZE);
    if BlockNo(x) < n { TimesMono(BlockNo(x) + 1, n, BLOCKSIZE); } else { TimesMono(n, BlockNo(x), BLOCKSIZE); }
  }

  /** MaxFileSize leaves out as many blocks as the indirect entry maps, and no others. */
  lemma MaxFileSizeIff(x: nat)
    ensures x < MaxFileSize() <==> BlockNo(x) < NDIRECT + NBLKBLK * NBLKBLK
    ensures MaxBlocks() == NDIRECT + NBLKBLK + NBLKBLK * NBLKBLK
  {
    SquareSpan();
    BelowTimes(x, NDIRECT + Span(2));
  }

  /** A file of at most MaxFileSize bytes fills blocks that bmap can map. */
  lemma RoundUpInRange(n: nat)
    requires n <= MaxFileSize()
    ensures RoundUp(n) <= NDIRECT + Span(2) <= MaxBlocks()
  {
    assert Times(NDIRECT + Span(2) + 1, BLOCKSIZE) == BLOCKSIZE + MaxFileSize();
    QuotBound(n + BLOCKSIZE - 1, BLOCKSIZE, NDIRECT + Span(2) + 1);
  }

  // ----------------------------------------------------------------- extension

  /** Since view v and pointers blks, slots were only filled: with blocks of news, all
      in slots whose first block is below n, and leaves below m. */
  ghost predicate Ext(v: View, blks: seq<nat>, w: View, blks': seq<nat>, news: set<nat>, m: nat, n: nat) {
    && |blks| == NBLKINO && |blks'| == NBLKINO
    && (forall x {:trigger At(w, blks', x)} :: Slot(x) ==>
          || At(w, blks', x) == At(v, blks, x)
          || (At(v, blks, x) == 0 && At(w, blks', x) in news && First(x) < n && (Leaf(x) ==> First(x) < m)))
    && (forall b :: b in news ==> Owns(w, blks', b))
    && (forall b {:trigger Blk(w, b)} :: b !in news && !Owns(v, blks, b) ==> Blk(w, b) == Blk(v, b))
  }

  lemma {:induction false} FirstInPrefix(level: nat, p: seq<nat>, t: seq<nat>)
    requires Path(level, t) && p <= t
    ensures FirstIn(level, p) <= FirstIn(level, t)
  {
    if p != [] { FirstInPrefix(level - 1, p[1..], t[1..]); }
  }

  /** The index blocks above a block cover it from at or before it. */
  lemma FirstPrefix(x: seq<nat>, s: seq<nat>)
    requires Slot(x) && Slot(s) && x <= s
    ensures First(x) <= First(s)
  {
    assert x[0] == s[0] && x[1..] <= s[1..];
    FirstInPrefix(Level(s[0]), x[1..], s[1..]);
  }

  /** A bmap call of block bn extends a run of extensions. */
  lemma ExtBmap(v0: View, b0: seq<nat>, v: View, blks: seq<nat>, w: View, blks': seq<nat>,
                news: set<nat>, more: set<nat>, m: nat, n: nat, bn: nat)
    requires Ext(v0, b0, v, blks, news, m, n) && bn < MaxBlocks() && 0 !in more
    requires Leaf(SlotOf(bn)) && InodeGrown(v, blks, w, blks', SlotOf(bn), more)
    ensures Ext(v0, b0, w, blks', news + more,
                if At(w, blks', SlotOf(bn)) == 0 then m else Max(m, bn + 1), Max(n, bn + 1))
  {
    SlotOfBlock(bn);
    var s := SlotOf(bn);
    var m' := if At(w, blks', s) == 0 then m else Max(m, bn + 1);
    forall x | Slot(x)
      ensures || At(w, blks', x) == At(v0, b0, x)
              || (At(v0, b0, x) == 0 && At(w, blks', x) in news + more && First(x) < Max(n, bn + 1) && (Leaf(x) ==>
                    First(x) < m'))
    {
      if At(w, blks', x) != At(v, blks, x) {
        FirstPrefix(x, s);
        assert Leaf(x) ==> x == s;
      }
    }
    forall b | b in news + more ensures Owns(w, blks', b) {
      if b !in more {
        var x :| Slot(x) && At(v, blks, x) == b;
        assert At(w, blks', x) == b;
      }
    }
    forall b | b !in news + more && !Owns(v0, b0, b) ensures Blk(w, b) == Blk(v0, b) {
      forall q | Slot(q) && b != 0 ensures At(v, blks, q) != b { assert At(v0, b0, q) != b; }
    }
  }

  /** Filling slots below b keeps what is known of leaves, and of all pointers. */
  lemma ExtBelow(v: View, blks: seq<nat>, w: View, blks': seq<nat>, news: set<nat>, m: nat, n: nat, a: nat, b: nat)
    requires Ext(v, blks, w, blks', news, m, n) && a <= b
    ensures LeavesBelow(v, blks, a) && m <= b ==> LeavesBelow(w, blks', b)
    ensures Below(v, blks, a) && n <= b ==> Below(w, blks', b)
  {}

  /** Filling slots keeps the record on disk a part of the inode in memory. */
  lemma ExtBehind(v: View, blks: seq<nat>, w: View, blks': seq<nat>, news: set<nat>, m: nat, n: nat, saved: seq<nat>)
    requires Ext(v, blks, w, blks', news, m, n) && Behind(saved, blks)
    ensures Behind(saved, blks')
  {
    forall k | 0 <= k < NBLKINO ensures saved[k] == 0 || saved[k] == blks'[k] {
      assert Slot([k]) && [k][1..] == [];
      assert At(w, blks', [k]) == blks'[k] && At(v, blks, [k]) == blks[k];
    }
  }

  lemma ExtRefl(v: View, blks: seq<nat>, m: nat, n: nat)
    requires |blks| == NBLKINO
    ensures Ext(v, blks, v, blks, {}, m, n)
  {}

  lemma ExtMono(v: View, blks: seq<nat>, w: View, blks': seq<nat>, news: set<nat>, m: nat, n: nat, m': nat, n': nat)
    requires Ext(v, blks, w, blks', news, m, n) && m <= m' && n <= n'
    ensures Ext(v, blks, w, blks', news, m', n')
  {}

  /** Extensions compose. */
  lemma ExtTrans(u: View, a: seq<nat>, v: View, b: seq<nat>, w: View, c: seq<nat>, news: set<nat>, more: set<nat>,
                 m: nat, n: nat)
    requires Ext(u, a, v, b, news, m, n) && Ext(v, b, w, c, more, m, n) && 0 !in news
    ensures Ext(u, a, w, c, news + more, m, n)
  {
    forall x | Slot(x)
      ensures || At(w, c, x) == At(u, a, x)
              || (At(u, a, x) == 0 && At(w, c, x) in news + more && First(x) < n && (Leaf(x) ==> First(x) < m))
    {
      assert At(v, b, x) == At(u, a, x) || At(v, b, x) in news;
    }
    forall y | y in news + more ensures Owns(w, c, y) {
      if y !in more {
        var x :| Slot(x) && At(v, b, x) == y;
        assert At(w, c, x) == y;
      }
    }
    forall y | y !in news + more && !Owns(u, a, y) ensures Blk(w, y) == Blk(u, y) {
      forall q | Slot(q) && y != 0 ensures At(v, b, q) != y { assert At(u, a, q) != y; }
    }
  }

  // -------------------------------------------------------------- leaf writes

  /** Writing a data block leaves every pointer alone. */
  lemma LeafWriteSlots(v: View, blks: seq<nat>, dom: set<nat>, bn: nat, data: Block, s: seq<nat>)
    requires InodeOk(v, blks, dom) && bn < MaxBlocks() && Slot(s) && Slot(SlotOf(bn)) && At(v, blks, SlotOf(bn)) != 0
    ensures At(v[At(v, blks, SlotOf(bn)) := data], blks, s) == At(v, blks, s)
  {
    SlotOfBlock(bn);
    var b := At(v, blks, SlotOf(bn));
    var w := v[b := data];
    forall q | q < s[1..] && Walk(v, blks[s[0]], q) != 0
      ensures Blk(w, Walk(v, blks[s[0]], q)) == Blk(v, Walk(v, blks[s[0]], q))
    {
      EntrySlot(s[0], q);
      var x := [s[0]] + q;
      assert At(v, blks, x) == Walk(v, blks[s[0]], q);
      assert |x| < |s| <= 1 + Level(s[0]);
      assert x != SlotOf(bn);
    }
    WalkFrame(v, w, blks[s[0]], s[1..]);
  }

  lemma LeafWrite(v: View, blks: seq<nat>, dom: set<nat>, bn: nat, data: Block)
    requires InodeOk(v, blks, dom) && bn < MaxBlocks() && Slot(SlotOf(bn)) && At(v, blks, SlotOf(bn)) != 0
    ensures var w := v[At(v, blks, SlotOf(bn)) := data];
            && InodeOk(w, blks, dom)
            && (forall s :: Slot(s) ==> At(w, blks, s) == At(v, blks, s))
            && (forall k: nat :: k < MaxBlocks() ==>
                  FileBlock(w, blks, k) == if k == bn then data else FileBlock(v, blks, k))
  {
    var w := v[At(v, blks, SlotOf(bn)) := data];
    forall s | Slot(s) ensures At(w, blks, s) == At(v, blks, s) {
      LeafWriteSlots(v, blks, dom, bn, data, s);
    }
    forall k: nat | k < MaxBlocks()
      ensures FileBlock(w, blks, k) == if k == bn then data else FileBlock(v, blks, k)
    {
      SlotOfBlock(k);
      SlotOfBlock(bn);
    }
  }

  lemma ExtLeafWrite(v0: View, b0: seq<nat>, v: View, blks: seq<nat>, dom: set<nat>, news: set<nat>, m: nat, n: nat,
                     bn: nat, data: Block)
    requires InodeOk(v, blks, dom) && bn < MaxBlocks() && Slot(SlotOf(bn)) && At(v, blks, SlotOf(bn)) != 0
    requires Ext(v0, b0, v, blks, news, m, n)
    ensures Ext(v0, b0, v[At(v, blks, SlotOf(bn)) := data], blks, news, m, n)
  {
    var b := At(v, blks, SlotOf(bn));
    var w := v[b := data];
    LeafWrite(v, blks, dom, bn, data);
    forall b | b in news ensures Owns(w, blks, b) {
      var x :| Slot(x) && At(v, blks, x) == b;
      assert At(w, blks, x) == b;
    }
    assert At(v, blks, SlotOf(bn)) == At(v0, b0, SlotOf(bn)) || b in news;
    forall x | Slot(x)
      ensures || At(w, blks, x) == At(v0, b0, x)
              || (At(v0, b0, x) == 0 && At(w, blks, x) in news && First(x) < n && (Leaf(x) ==> First(x) < m))
    {
      assert At(w, blks, x) == At(v, blks, x);
    }
    forall y | y !in news && !Owns(v0, b0, y) ensures Blk(w, y) == Blk(v0, y) {
      assert Blk(v, y) == Blk(v0, y);
    }
  }

  /** Placing bytes in the block of offset off changes exactly the bytes from off on. */
  lemma WriteBytes(v: View, w: View, blks: seq<nat>, off: nat, data: seq<Byte>, x: nat)
    requires |blks| == NBLKINO && x < MaxFileSize() && off < MaxFileSize() && ByteNo(off) + |data| <= BLOCKSIZE
    requires BlockNo(off) < MaxBlocks()
    requires forall k: nat :: k < MaxBlocks() ==>
               FileBlock(w, blks, k) == (if k == BlockNo(off) then Splice(FileBlock(v, blks, k), ByteNo(off), data)
                                         else FileBlock(v, blks, k))
    ensures FileByte(w, blks, x) == if off <= x < off + |data| then data[x - off] else FileByte(v, blks, x)
  {
    InRange(x);
    RangeInBlock(x, off, |data|);
  }

  /** The file changed in exactly the bytes from off on, which became data. */
  ghost predicate Wrote(v: View, blks: seq<nat>, w: View, blks': seq<nat>, off: nat, data: seq<Byte>)
    requires |blks| == |blks'| == NBLKINO
  {
    forall x: nat :: x < MaxFileSize() ==>
      FileByte(w, blks', x) == if off <= x < off + |data| then data[x - off] else FileByte(v, blks, x)
  }

  /** The file did not change in any byte. */
  ghost predicate SameBytes(v: View, blks: seq<nat>, w: View, blks': seq<nat>)
    requires |blks| == |blks'| == NBLKINO
  {
    forall x: nat :: x < MaxFileSize() ==> FileByte(w, blks', x) == FileByte(v, blks, x)
  }

  lemma SameJoin(u: View, a: seq<nat>, v: View, b: seq<nat>, w: View, c: seq<nat>)
    requires |a| == |b| == |c| == NBLKINO && SameBytes(u, a, v, b) && SameBytes(v, b, w, c)
    ensures SameBytes(u, a, w, c)
  {}

  lemma SameWrote(u: View, a: seq<nat>, v: View, b: seq<nat>, w: View, c: seq<nat>, off: nat, data: seq<Byte>)
    requires |a| == |b| == |c| == NBLKINO && SameBytes(u, a, v, b)
    ensures Wrote(v, b, w, c, off, data) ==> Wrote(u, a, w, c, off, data)
    ensures data == [] ==> Wrote(u, a, v, b, off, data)
  {}

  lemma WroteJoin(u: View, a: seq<nat>, v: View, b: seq<nat>, w: View, c: seq<nat>, off: nat, data: seq<Byte>,
                  mid: nat, more: seq<Byte>, all: seq<Byte>)
    requires |a| == |b| == |c| == NBLKINO && mid == off + |data| && all == data + more
    requires Wrote(u, a, v, b, off, data) && Wrote(v, b, w, c, mid, more)
    ensures Wrote(u, a, w, c, off, all)
  {}

  // ------------------------------------------------------ one round of a write

  /** A bmap call changes no byte of the file. */
  lemma MappedBytes(v0: View, b0: seq<nat>, dom: set<nat>, v: View, blks: seq<nat>, news: set<nat>, bn: nat, x: nat)
    requires InodeOk(v0, b0, dom) && news !! dom && 0 !in news && bn < MaxBlocks() && Leaf(SlotOf(bn))
    requires InodeGrown(v0, b0, v, blks, SlotOf(bn), news) && x < MaxFileSize()
    ensures FileByte(v, blks, x) == FileByte(v0, b0, x)
  {
    InRange(x);
    GrownKeepsContents(v0, b0, v, blks, SlotOf(bn), news, dom, BlockNo(x));
  }

  lemma MappedExt(v0: View, b0: seq<nat>, v: View, blks: seq<nat>, news: set<nat>, off: nat, end: nat)
    requires |b0| == NBLKINO && off < end && BlockNo(off) < MaxBlocks() && 0 !in news
    requires Leaf(SlotOf(BlockNo(off))) && InodeGrown(v0, b0, v, blks, SlotOf(BlockNo(off)), news)
    ensures if At(v, blks, SlotOf(BlockNo(off))) == 0 then Ext(v0, b0, v, blks, news, 0, MaxBlocks())
            else Ext(v0, b0, v, blks, news, RoundUp(end), RoundUp(end))
  {
    var bn := BlockNo(off);
    RoundUpCovers(end, off);
    ExtRefl(v0, b0, 0, 0);
    ExtBmap(v0, b0, v0, b0, v, blks, {}, news, 0, 0, bn);
    assert {} + news == news;
    if At(v, blks, SlotOf(bn)) == 0 {
      ExtMono(v0, b0, v, blks, news, 0, bn + 1, 0, MaxBlocks());
    } else {
      ExtMono(v0, b0, v, blks, news, bn + 1, bn + 1, RoundUp(end), RoundUp(end));
    }
  }

  /** After the bmap call of a round, the copy into the leaf. */
  lemma RoundWritten(v0: View, b0: seq<nat>, v: View, blks: seq<nat>, dom: set<nat>, news: set<nat>, m: nat, n: nat,
                     off: nat, data: seq<Byte>, w: View)
    requires InodeOk(v, blks, dom) && off < MaxFileSize() && ByteNo(off) + |data| <= BLOCKSIZE
    requires BlockNo(off) < MaxBlocks() && Slot(SlotOf(BlockNo(off))) && At(v, blks, SlotOf(BlockNo(off))) != 0
    requires Ext(v0, b0, v, blks, news, m, n)
    requires var b := At(v, blks, SlotOf(BlockNo(off))); w == v[b := Splice(Blk(v, b), ByteNo(off), data)]
    ensures InodeOk(w, blks, dom) && Ext(v0, b0, w, blks, news, m, n)
    ensures forall x: nat :: x < MaxFileSize() ==>
              FileByte(w, blks, x) == (if off <= x < off + |data| then data[x - off] else FileByte(v, blks, x))
  {
    var bn := BlockNo(off);
    var b := At(v, blks, SlotOf(bn));
    var blk := Splice(Blk(v, b), ByteNo(off), data);
    LeafWrite(v, blks, dom, bn, blk);
    ExtLeafWrite(v0, b0, v, blks, dom, news, m, n, bn, blk);
    forall x: nat | x < MaxFileSize()
      ensures FileByte(w, blks, x) == (if off <= x < off + |data| then data[x - off] else FileByte(v, blks, x))
    {
      WriteBytes(v, w, blks, off, data, x);
    }
  }

  /** Two extensions compose, each within its own bounds. */
  lemma ExtJoin(u: View, a: seq<nat>, v: View, b: seq<nat>, w: View, c: seq<nat>, news: set<nat>, more: set<nat>,
                m: nat, n: nat, m': nat, n': nat)
    requires Ext(u, a, v, b, news, m, n) && Ext(v, b, w, c, more, m', n') && 0 !in news
    ensures Ext(u, a, w, c, news + more, Max(m, m'), Max(n, n'))
  {
    ExtMono(u, a, v, b, news, m, n, Max(m, m'), Max(n, n'));
    ExtMono(v, b, w, c, more, m', n', Max(m, m'), Max(n, n'));
    ExtTrans(u, a, v, b, w, c, news, more, Max(m, m'), Max(n, n'));
  }

  /** No block is mapped at offset x. */
  ghost predicate Hole(v: View, blks: seq<nat>, x: nat)
    requires |blks| == NBLKINO && x < MaxFileSize()
  {
    InRange(x);
    SlotOfBlock(BlockNo(x));
    At(v, blks, SlotOf(BlockNo(x))) == 0
  }

  /** A hole that is left was there before. */
  lemma HoleBefore(v: View, blks: seq<nat>, w: View, blks': seq<nat>, news: set<nat>, m: nat, n: nat, x: nat)
    requires Ext(v, blks, w, blks', news, m, n) && x < MaxFileSize() && 0 !in news
    ensures Hole(w, blks', x) ==> Hole(v, blks, x)
  {
    InRange(x);
    SlotOfBlock(BlockNo(x));
    assert At(w, blks', SlotOf(BlockNo(x))) == 0 ==> At(v, blks, SlotOf(BlockNo(x))) == 0;
  }

  lemma BlockEnd(off: nat, n: nat)
    requires n == BLOCKSIZE - ByteNo(off)
    ensures ByteNo(off + n) == 0
  {
    QuotRem(off, BLOCKSIZE);
    assert Times(BlockNo(off) + 1, BLOCKSIZE) == BLOCKSIZE + Times(BlockNo(off), BLOCKSIZE);
    Digits(BlockNo(off) + 1, 0, BLOCKSIZE);
  }

  // ------------------------------------------------------------------- reading

  lemma ReadByte(v: View, blks: seq<nat>, off: nat, i: nat)
    requires |blks| == NBLKINO && off + i < MaxFileSize() && ByteNo(off) + i < BLOCKSIZE
    ensures BlockNo(off) < MaxBlocks()
    ensures FileByte(v, blks, off + i) == FileBlock(v, blks, BlockNo(off))[ByteNo(off) + i]
  {
    InRange(off);
    RangeInBlock(off + i, off, i + 1);
  }

  /** The bytes of the file from off on begin with data. */
  ghost predicate Holds(v: View, blks: seq<nat>, off: nat, data: seq<Byte>)
    requires |blks| == NBLKINO && off + |data| <= MaxFileSize()
  {
    forall i: nat :: i < |data| ==> data[i] == FileByte(v, blks, off + i)
  }

  /** What a leaf has from the position of off on is the file from off on. */
  lemma BlockHolds(v: View, blks: seq<nat>, off: nat, n: nat)
    requires |blks| == NBLKINO && off + n <= MaxFileSize() && ByteNo(off) + n <= BLOCKSIZE
    requires BlockNo(off) < MaxBlocks() && Slot(SlotOf(BlockNo(off))) && At(v, blks, SlotOf(BlockNo(off))) != 0
    ensures Holds(v, blks, off, Blk(v, At(v, blks, SlotOf(BlockNo(off))))[ByteNo(off)..ByteNo(off) + n])
  {
    var data := Blk(v, At(v, blks, SlotOf(BlockNo(off))))[ByteNo(off)..ByteNo(off) + n];
    forall i: nat | i < |data| ensures data[i] == FileByte(v, blks, off + i) { ReadByte(v, blks, off, i); }
  }

  lemma HoldsAt(v: View, blks: seq<nat>, off: nat, data: seq<Byte>, x: nat)
    requires |blks| == NBLKINO && off + |data| <= MaxFileSize() && Holds(v, blks, off, data) && off <= x < off + |data|
    ensures data[x - off] == FileByte(v, blks, x)
  {
    assert off + (x - off) == x;
  }

  lemma HoldsJoin(v: View, blks: seq<nat>, off: nat, data: seq<Byte>, mid: nat, more: seq<Byte>)
    requires |blks| == NBLKINO && mid == off + |data| && mid + |more| <= MaxFileSize()
    requires Holds(v, blks, off, data) && Holds(v, blks, mid, more)
    ensures Holds(v, blks, off, data + more)
  {
    forall i: nat | i < |data + more| ensures (data + more)[i] == FileByte(v, blks, off + i) {
      var x := off + i;
      if i < |data| { HoldsAt(v, blks, off, data, x); } else { HoldsAt(v, blks, mid, more, x); }
    }
  }

  /** Reading the unchanged file gives the same bytes. */
  lemma HoldsKept(v: View, blks: seq<nat>, w: View, blks': seq<nat>, off: nat, data: seq<Byte>)
    requires |blks| == |blks'| == NBLKINO && off + |data| <= MaxFileSize()
    requires SameBytes(v, blks, w, blks') && Holds(w, blks', off, data)
    ensures Holds(v, blks, off, data)
  {}

  // ---------------------------------------------------------- runs of rounds

  /** A stretch of Write: its bytes are in place, and the tree was only extended. */
  ghost predicate Stored(v: View, blks: seq<nat>, w: View, blks': seq<nat>, news: set<nat>, off: nat,
                         data: seq<Byte>, m: nat, n: nat) {
    Ext(v, blks, w, blks', news, m, n) && Wrote(v, blks, w, blks', off, data)
  }

  lemma StoredJoin(u: View, a: seq<nat>, v: View, b: seq<nat>, w: View, c: seq<nat>, news: set<nat>, more: set<nat>,
                   off: nat, data: seq<Byte>, mid: nat, rest: seq<Byte>, m: nat, n: nat, m': nat, n': nat)
    requires Stored(u, a, v, b, news, off, data, m, n) && Stored(v, b, w, c, more, mid, rest, m', n')
    requires mid == off + |data| && 0 !in news
    ensures Stored(u, a, w, c, news + more, off, data + rest, Max(m, m'), Max(n, n'))
  {
    ExtJoin(u, a, v, b, w, c, news, more, m, n, m', n');
    WroteJoin(u, a, v, b, w, c, off, data, mid, rest, data + rest);
  }

  /** A write of no bytes leaves the file alone. */
  lemma NothingStored(v: View, blks: seq<nat>, w: View, blks': seq<nat>, news: set<nat>, off: nat, data: seq<Byte>,
                      m: nat, n: nat)
    requires Stored(v, blks, w, blks', news, off, data, m, n) && data == []
    ensures Filled(v, blks, w, blks', news, m, n)
  {}

  /** A stretch of Read: no byte changed, and the tree was only extended. */
  ghost predicate Filled(v: View, blks: seq<nat>, w: View, blks': seq<nat>, news: set<nat>, m: nat, n: nat) {
    Ext(v, blks, w, blks', news, m, n) && SameBytes(v, blks, w, blks')
  }

  lemma FilledJoin(u: View, a: seq<nat>, v: View, b: seq<nat>, w: View, c: seq<nat>, news: set<nat>, more: set<nat>,
                   m: nat, n: nat, m': nat, n': nat)
    requires Filled(u, a, v, b, news, m, n) && Filled(v, b, w, c, more, m', n') && 0 !in news
    ensures Filled(u, a, w, c, news + more, Max(m, m'), Max(n, n'))
  {
    ExtJoin(u, a, v, b, w, c, news, more, m, n, m', n');
    SameJoin(u, a, v, b, w, c);
  }

  /** One more round of Read. */
  lemma ReadJoin(u: View, a: seq<nat>, v: View, b: seq<nat>, news: set<nat>, m: nat, n: nat, off: nat, data: seq<Byte>,
                 mid: nat, more: seq<Byte>)
    requires Filled(u, a, v, b, news, m, n) && mid == off + |data| && mid + |more| <= MaxFileSize()
    requires Holds(u, a, off, data) && Holds(v, b, mid, more)
    ensures Holds(u, a, off, data + more)
  {
    HoldsKept(u, a, v, b, mid, more);
    HoldsJoin(u, a, off, data, mid, more);
  }
}
