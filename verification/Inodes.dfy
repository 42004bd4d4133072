/** The inode object: mapping, reading, writing and resizing a file. */
module Inodes {
  import opened Basics
  import opened Arith
  import opened Bytes
  import opened Tree
  import opened Growth
  import opened Slots
  import opened Files
  import opened AllocTxns

  lemma {:induction false} SquareTooMuch(level: nat, p: nat)
    requires level >= 2 && p >= Span(level)
    ensures p * p > Span(level + 1)
    decreases level
  {
    WideSpan(level);
    TimesIsMul(NBLKBLK, Span(level));
    MulLess(NBLKBLK, Span(level), p);
  }

  lemma MulLess(n: nat, s: nat, p: nat)
    requires n < s <= p
    ensures n * s < p * p
  {
    assert n * s < s * s <= s * p <= p * p;
  }

  lemma {:induction false} WideSpan(level: nat)
    requires level >= 2
    ensures Span(level) > NBLKBLK
  {
    Span1();
    if level > 2 { WideSpan(level - 1); }
    TimesIsMul(NBLKBLK, Span(level - 1));
  }

  /** The number of leaves below an index block of the given level, as far as level 2:
      squaring goes wrong beyond. */
  method Pow(level: nat) returns (p: nat)
    ensures p == Span(level) <==> level <= 2
  {
    if level == 0 { return 1; }
    p := NBLKBLK;
    Span1();
    for i := 1 to level
      invariant i == 1 ==> p == NBLKBLK
      invariant i == 2 ==> p == Span(2)
      invariant i >= 3 ==> p > Span(i)
    {
      if i == 1 { TimesIsMul(p, p); } else { SquareTooMuch(i, p); }
      p := p * p;
    }
  }

  /** The slot o of an index block under which leaf off lies, and its number ind there. */
  method Split(level: nat, off: nat) returns (o: nat, ind: nat)
    requires 0 < level <= 2 && off < Span(level)
    ensures o < NBLKBLK && ind < Span(level - 1) && o == Quot(off, Span(level - 1)) && ind == Rem(off, Span(level - 1))
    ensures PathOf(level, off) == [o] + PathOf(level - 1, ind) && Path(level - 1, PathOf(level - 1, ind))
    ensures off == 0 <==> o == 0 && ind == 0
  {
    var divisor := Pow(level - 1);
    QuotIsDiv(off, divisor);
    QuotBound(off, divisor, NBLKBLK);
    o := off / divisor;
    ind := off % divisor;
    PathOfInRange(level - 1, ind);
    QuotRem(off, divisor);
  }

  lemma KeptJoin(c: bool, d0: map<nat, DInode>, d1: map<nat, DInode>, d2: map<nat, DInode>, b0: seq<nat>,
                 b1: seq<nat>, b2: seq<nat>,
                 i: nat, r1: DInode, r2: DInode)
    requires (d1 == d0 && b1 == b0) || d1 == d0[i := r1]
    requires c ==> (d2 == d1 && b2 == b1) || d2 == d1[i := r2]
    requires b1 == b2 ==> r1 == r2
    ensures c ==> (d2 == d0 && b2 == b0) || d2 == d0[i := r2]
  {}

  /** A round of Write after others, with the books kept. */
  lemma StoredOn(v0: View, b0: seq<nat>, l0: Ledger, v1: View, b1: seq<nat>, l1: Ledger, v2: View, b2: seq<nat>,
                 l2: Ledger,
                 offset: nat, done: seq<Byte>, off: nat, chunk: seq<Byte>, m0: nat, m: nat, k: nat)
    requires l1.Extends(l0) && l2.Extends(l1) && 0 !in l1.Since(l0) && off == offset + |done|
    requires Stored(v0, b0, v1, b1, l1.Since(l0), offset, done, m0, m0)
    requires Stored(v1, b1, v2, b2, l2.Since(l1), off, chunk, m, k)
    ensures l2.Extends(l0) && Stored(v0, b0, v2, b2, l2.Since(l0), offset, done + chunk, Max(m0, m), Max(m0, k))
  {
    ExtendsTrans(l0, l1, l2);
    StoredJoin(v0, b0, v1, b1, v2, b2, l1.Since(l0), l2.Since(l1), offset, done, off, chunk, m0, m0, m, k);
  }

  /** The block of an offset and the position in it. */
  method Locate(off: nat) returns (boff: nat, byteoff: nat)
    ensures boff == BlockNo(off) && byteoff == ByteNo(off)
  {
    QuotIsDiv(off, BLOCKSIZE);
    boff, byteoff := off / BLOCKSIZE, off % BLOCKSIZE;
  }

  class Inode {
    var inum: nat
    var kind: nat
    var nlink: nat
    var gen: nat
    var size: nat
    var shrinkSize: nat
    var blks: seq<nat>

    /** The inode is a well-formed tree of marked data blocks. */
    ghost predicate Ok(atxn: AllocTxn)
      reads this, atxn, atxn.balloc
    {
      atxn.Valid() && InodeOk(atxn.view, blks, atxn.mine)
    }

    /** The root of a tree, a new one where there is none. */
    static method Rooted(atxn: AllocTxn, root_: nat, level: nat) returns (root: nat)
      requires atxn.Valid() && TreeOk(atxn.view, root_, level, atxn.mine)
      modifies atxn`allocBnums, atxn`mine, atxn.balloc
      ensures atxn.Valid() && atxn.Books().Extends(old(atxn.Books()))
      ensures root == 0 <==> atxn.balloc.refused != old(atxn.balloc.refused)
      ensures atxn.Books().Since(old(atxn.Books())) == if root == root_ then {} else {root}
      ensures root != root_ ==> root_ == 0 && Blk(atxn.view, root) == ZeroBlock()
      ensures TreeOk(atxn.view, root, level, atxn.mine)
    {
      root := root_;
      if root == 0 {
        root := atxn.AllocBlock();
        if root != 0 {
          FreshTreeOk(atxn.view, root, level, atxn.mine);
        }
      }
    }

    static method IndBmap(atxn: AllocTxn, root_: nat, level: nat, off: nat) returns (blkno: nat, root: nat)
      requires atxn.Valid() && level <= 2 && off < Span(level)
      requires TreeOk(atxn.view, root_, level, atxn.mine)
      modifies atxn`view, atxn`dirty, atxn`allocBnums, atxn`mine, atxn.balloc
      ensures atxn.Valid() && TreeOk(atxn.view, root, level, atxn.mine)
      ensures atxn.Books().Extends(old(atxn.Books()))
      ensures Grown(old(atxn.view), root_, atxn.view, root, level, PathOf(level, off),
                atxn.Books().Since(old(atxn.Books())))
      ensures blkno == Walk(atxn.view, root, PathOf(level, off))
      ensures blkno == 0 <==> atxn.balloc.refused != old(atxn.balloc.refused)
      decreases level, 1
    {
      ghost var v, l0 := atxn.view, atxn.Books();
      root := Rooted(atxn, root_, level);
      if root == 0 {
        NothingGrown(v, level, PathOf(level, off));
        return root, root;
      }
      ghost var l1 := atxn.Books();
      if level == 0 {
        LeafGrown(v, root_, root, l1.Since(l0));
        return root, root;
      }
      blkno := Descend(atxn, root, level, off);
      assert atxn.Books().Extends(l0) by { ExtendsTrans(l0, l1, atxn.Books()); }
      assert Grown(v, root_, atxn.view, root, level, PathOf(level, off), atxn.Books().Since(l0)) by {
        ExtendsTrans(l0, l1, atxn.Books());
        if root_ == 0 {
          PathOfInRange(level, off);
          FreshRoot(v, root, atxn.view, level, PathOf(level, off), atxn.Books().Since(l1));
        }
      }
    }

    /** Stores a pointer in slot o of a marked index block. */
    static method SetPtr(atxn: AllocTxn, root: nat, o: nat, buf: Block, q: nat)
      requires atxn.Valid() && root in atxn.mine && buf == Blk(atxn.view, root) && o < NBLKBLK
      modifies atxn`view, atxn`dirty
      ensures atxn.Valid() && atxn.Books() == old(atxn.Books())
      ensures atxn.view == old(atxn.view)[root := PtrPut(buf, o, q)]
      ensures atxn.dirty == old(atxn.dirty) + {root}
    {
      atxn.PutBlock(root, PtrPut(buf, o, q));
    }

    /** The part of indbmap below an index block that exists. */
    static method Descend(atxn: AllocTxn, root: nat, level: nat, off: nat) returns (blkno: nat)
      requires atxn.Valid() && 0 < level <= 2 && off < Span(level) && root != 0
      requires TreeOk(atxn.view, root, level, atxn.mine)
      modifies atxn`view, atxn`dirty, atxn`allocBnums, atxn`mine, atxn.balloc
      ensures atxn.Valid() && TreeOk(atxn.view, root, level, atxn.mine)
      ensures atxn.Books().Extends(old(atxn.Books()))
      ensures Grown(old(atxn.view), root, atxn.view, root, level, PathOf(level, off),
                atxn.Books().Since(old(atxn.Books())))
      ensures blkno == Walk(atxn.view, root, PathOf(level, off))
      ensures blkno == 0 <==> atxn.balloc.refused != old(atxn.balloc.refused)
      decreases level, 0
    {
      ghost var v, l0 := atxn.view, atxn.Books();
      var o, ind := Split(level, off);
      assert Path(level, []) && Walk(v, root, []) == root;
      var buf := atxn.ReadBlock(root);
      var nxtroot := PtrGet(buf, o);
      assert TreeOk(v, nxtroot, level - 1, l0.mine) by { ChildOk(v, root, level, o, l0.mine); }
      var newnextroot;
      blkno, newnextroot := IndBmap(atxn, nxtroot, level - 1, ind);
      ValidNodes(atxn, newnextroot, level - 1, PathOf(level - 1, ind));
      assert atxn.super.ValidBlock(newnextroot) && atxn.super.ValidBlock(blkno);
      ghost var w, news := atxn.view, atxn.Books().Since(l0);
      assert l0.mine + news == atxn.mine;
      ghost var k := Link(v, root, level, o, PathOf(level - 1, ind), w, newnextroot, news, l0.mine);
      Relink(atxn, root, o, buf, newnextroot, k);
    }

    /** What a walk finds in a tree of the transaction passes AssertValidBlock. */
    static lemma ValidNodes(atxn: AllocTxn, root: nat, level: nat, p: seq<nat>)
      requires atxn.Valid() && TreeOk(atxn.view, root, level, atxn.mine) && Path(level, p)
      ensures atxn.super.ValidBlock(root) && atxn.super.ValidBlock(Walk(atxn.view, root, p))
    {
      assert Path(level, []) && Walk(atxn.view, root, []) == root;
    }

    /** Stores the new root of a child in the index block above it, if it is new. */
    static method Relink(atxn: AllocTxn, root: nat, o: nat, buf: Block, nxt: nat, ghost k: Link)
      requires atxn.Valid() && k.Ok() && atxn.view == k.w && atxn.mine == k.dom + k.news
      requires root == k.root && o == k.o && nxt == k.nxt && buf == Blk(k.v, root)
      modifies atxn`view, atxn`dirty
      ensures atxn.Valid() && atxn.Books() == old(atxn.Books())
      ensures Grown(k.v, k.root, atxn.view, k.root, k.level, [k.o] + k.t, k.news)
      ensures TreeOk(atxn.view, k.root, k.level, atxn.mine)
      ensures Walk(atxn.view, k.root, [k.o] + k.t) == Walk(k.w, k.nxt, k.t)
    {
      LinkUp(k);
      if nxt != PtrGet(buf, o) {
        SetPtr(atxn, root, o, buf, nxt);
      }
      assert atxn.view == k.Done();
    }

    method BmapDirect(atxn: AllocTxn, bn: nat) returns (blkno: nat, alloc: bool)
      requires Ok(atxn) && bn < NDIRECT
      modifies this`blks, atxn`allocBnums, atxn`mine, atxn.balloc
      ensures Ok(atxn) && atxn.Books().Extends(old(atxn.Books()))
      ensures blkno == At(atxn.view, blks, [bn])
      ensures InodeGrown(old(atxn.view), old(blks), atxn.view, blks, [bn], atxn.Books().Since(old(atxn.Books())))
      ensures alloc <==> blks != old(blks)
      ensures blkno == 0 <==> atxn.balloc.refused != old(atxn.balloc.refused)
    {
      ghost var v, l0, r0 := atxn.view, atxn.Books(), blks[bn];
      alloc := false;
      if blks[bn] == 0 {
        var b := atxn.AllocBlock();
        blks := blks[bn := b];
        if blks[bn] != 0 {
          alloc := true;
        }
      }
      blkno := blks[bn];
      ghost var news := atxn.Books().Since(l0);
      LeafGrown(v, r0, blkno, news);
      ghost var e := Entry(v, old(blks), bn, [], atxn.view, blkno, news, l0.mine);
      EntryOk(v, old(blks), l0.mine, bn);
      GrowEntry(e, atxn.mine);
    }

    /** The call of indbmap for entry k of the inode, before its root is stored. */
    method BmapIndirect(atxn: AllocTxn, k: nat, off: nat, ghost s: seq<nat>) returns (blkno: nat, root: nat)
      requires Ok(atxn) && INDIRECT <= k < NBLKINO && off < Span(Level(k)) && s == [k] + PathOf(Level(k), off)
      modifies atxn`view, atxn`dirty, atxn`allocBnums, atxn`mine, atxn.balloc
      ensures atxn.Valid() && atxn.Books().Extends(old(atxn.Books()))
      ensures InodeOk(atxn.view, blks[k := root], atxn.mine)
      ensures Slot(s) && blkno == At(atxn.view, blks[k := root], s)
      ensures InodeGrown(old(atxn.view), blks, atxn.view, blks[k := root], s, atxn.Books().Since(old(atxn.Books())))
      ensures root != blks[k] ==> root != 0 && root !in old(atxn.mine)
      ensures blkno == 0 <==> atxn.balloc.refused != old(atxn.balloc.refused)
    {
      ghost var v, l0 := atxn.view, atxn.Books();
      EntryOk(v, blks, l0.mine, k);
      PathOfInRange(Level(k), off);
      blkno, root := IndBmap(atxn, blks[k], Level(k), off);
      ghost var e := Entry(v, blks, k, PathOf(Level(k), off), atxn.view, root, atxn.Books().Since(l0), l0.mine);
      GrowEntry(e, atxn.mine);
    }

    /** Maps logical block bn to a block, allocating it and the index blocks above it
        where they are missing. */
    method Bmap(atxn: AllocTxn, bn: nat) returns (blkno: nat, alloc: bool)
      requires Ok(atxn) && bn < MaxBlocks()
      modifies this`blks, atxn`view, atxn`dirty, atxn`allocBnums, atxn`mine, atxn.balloc
      ensures Ok(atxn) && atxn.Books().Extends(old(atxn.Books()))
      ensures Leaf(SlotOf(bn)) && blkno == At(atxn.view, blks, SlotOf(bn))
      ensures InodeGrown(old(atxn.view), old(blks), atxn.view, blks, SlotOf(bn), atxn.Books().Since(old(atxn.Books())))
      ensures blks != old(blks) ==> alloc
      ensures alloc <==> if bn < NDIRECT + NBLKBLK then blks != old(blks) else blks[DINDIRECT] != blks[INDIRECT]
      ensures blkno == 0 <==> atxn.balloc.refused != old(atxn.balloc.refused)
    {
      SlotOfBlock(bn);
      if bn < NDIRECT {
        blkno, alloc := BmapDirect(atxn, bn);
      } else {
        blkno, alloc := BmapIndexed(atxn, bn, SlotOf(bn));
      }
    }

    /** The part of bmap for blocks below the indirect and the double-indirect entry.  Both
        branches compare the new root with the indirect entry, as the source does. */
    method BmapIndexed(atxn: AllocTxn, bn: nat, ghost s: seq<nat>) returns (blkno: nat, alloc: bool)
      requires Ok(atxn) && NDIRECT <= bn < MaxBlocks() && s == SlotOf(bn)
      modifies this`blks, atxn`view, atxn`dirty, atxn`allocBnums, atxn`mine, atxn.balloc
      ensures Ok(atxn) && atxn.Books().Extends(old(atxn.Books()))
      ensures Slot(s) && blkno == At(atxn.view, blks, s)
      ensures InodeGrown(old(atxn.view), old(blks), atxn.view, blks, s, atxn.Books().Since(old(atxn.Books())))
      ensures blks != old(blks) ==> alloc
      ensures alloc <==> if bn < NDIRECT + NBLKBLK then blks != old(blks) else blks[DINDIRECT] != blks[INDIRECT]
      ensures blkno == 0 <==> atxn.balloc.refused != old(atxn.balloc.refused)
    {
      ghost var b0 := blks;
      assert Slot([INDIRECT]) && At(atxn.view, blks, [INDIRECT]) == blks[INDIRECT];
      var off := bn - NDIRECT;
      var root;
      if off < NBLKBLK {
        Span1();
        blkno, root := BmapIndirect(atxn, INDIRECT, off, s);
        alloc := root != blks[INDIRECT];
        if alloc {
          blks := blks[INDIRECT := root];
        }
        assert blks == b0[INDIRECT := root];
      } else {
        off := off - NBLKBLK;
        blkno, root := BmapIndirect(atxn, DINDIRECT, off, s);
        alloc := root != blks[INDIRECT];
        if alloc {
          blks := blks[DINDIRECT := root];
        }
        assert blks == b0[DINDIRECT := root];
      }
    }

    ghost function Record(): DInode
      reads this
    {
      DInode(kind, nlink, gen, size, shrinkSize, blks)
    }

    method WriteInode(atxn: AllocTxn)
      modifies atxn`dirtyInodes
      ensures atxn.dirtyInodes == old(atxn.dirtyInodes)[inum := Record()]
      ensures var r := atxn.dirtyInodes[inum];
              && r.kind == kind && r.nlink == nlink && r.gen == gen && r.size == size
              && r.shrinkSize == shrinkSize && r.blks == blks
    {
      atxn.dirtyInodes := atxn.dirtyInodes[inum := DInode(kind, nlink, gen, size, shrinkSize, blks)];
    }

    /** Copies data into block blkno at byteoff, overwriting the block if it is whole. */
    static method PutBytes(atxn: AllocTxn, blkno: nat, byteoff: nat, nbytes: nat, data: seq<Byte>)
      requires atxn.Valid() && blkno in atxn.mine && byteoff + nbytes <= BLOCKSIZE && nbytes <= |data|
      modifies atxn`view, atxn`dirty
      ensures atxn.Valid() && atxn.Books() == old(atxn.Books())
      ensures atxn.view == old(atxn.view)[blkno := Splice(Blk(old(atxn.view), blkno), byteoff, data[..nbytes])]
    {
      if byteoff == 0 && nbytes == BLOCKSIZE {
        assert data[0..nbytes] == Splice(Blk(atxn.view, blkno), byteoff, data[..nbytes]);
        atxn.PutBlock(blkno, data[0..nbytes]);
      } else {
        var old_ := atxn.ReadBlock(blkno);
        var buffer := old_;
        for b := 0 to nbytes
          invariant |buffer| == BLOCKSIZE
          invariant forall i :: 0 <= i < BLOCKSIZE ==>
                    buffer[i] == if byteoff <= i < byteoff + b then data[i - byteoff] else old_[i]
        {
          buffer := buffer[byteoff + b := data[b]];
        }
        assert buffer == Splice(old_, byteoff, data[..nbytes]);
        atxn.PutBlock(blkno, buffer);
      }
    }

    /** The bmap call of one round of Read or Write, seen as a change of the file. */
    method MapRound(atxn: AllocTxn, off: nat, ghost end: nat)
      returns (blkno: nat, isNew: bool, ghost m: nat, ghost k: nat)
      requires Ok(atxn) && off < MaxFileSize() && off < end
      modifies this`blks, atxn`view, atxn`dirty, atxn`allocBnums, atxn`mine, atxn.balloc
      ensures Ok(atxn) && atxn.Books().Extends(old(atxn.Books()))
      ensures BlockNo(off) < MaxBlocks() && Leaf(SlotOf(BlockNo(off)))
      ensures blkno == At(atxn.view, blks, SlotOf(BlockNo(off))) && (blkno != 0 ==> blkno in atxn.mine)
      ensures blkno == 0 <==> atxn.balloc.refused != old(atxn.balloc.refused)
      ensures SameBytes(old(atxn.view), old(blks), atxn.view, blks)
      ensures blks != old(blks) ==> isNew
      ensures Ext(old(atxn.view), old(blks), atxn.view, blks, atxn.Books().Since(old(atxn.Books())), m, k)
      ensures if blkno == 0 then m == 0 && k == MaxBlocks() else m == k == RoundUp(end)
      ensures blkno == 0 ==> Hole(old(atxn.view), old(blks), off)
    {
      ghost var v0, b0, l0 := atxn.view, blks, atxn.Books();
      InRange(off);
      blkno, isNew := Bmap(atxn, BlockNo(off));
      ghost var v, news := atxn.view, atxn.Books().Since(l0);
      forall x: nat | x < MaxFileSize() ensures FileByte(v, blks, x) == FileByte(v0, b0, x) {
        MappedBytes(v0, b0, l0.mine, v, blks, news, BlockNo(off), x);
      }
      MappedExt(v0, b0, v, blks, news, off, end);
      m, k := if blkno == 0 then 0 else RoundUp(end), if blkno == 0 then MaxBlocks() else RoundUp(end);
      HoleBefore(v0, b0, v, blks, news, m, k, off);
    }

    /** The copy of one round of Write, into the leaf that bmap has found. */
    method StoreBytes(atxn: AllocTxn, blkno: nat, off: nat, byteoff: nat, nbytes: nat, data: seq<Byte>,
                      ghost v0: View, ghost b0: seq<nat>, ghost news: set<nat>, ghost m: nat)
      requires Ok(atxn) && off < MaxFileSize() && byteoff == ByteNo(off) && byteoff + nbytes <= BLOCKSIZE
      requires nbytes <= |data|
      requires BlockNo(off) < MaxBlocks() && Slot(SlotOf(BlockNo(off)))
      requires 0 != blkno == At(atxn.view, blks, SlotOf(BlockNo(off)))
      requires Ext(v0, b0, atxn.view, blks, news, m, m)
      modifies atxn`view, atxn`dirty
      ensures Ok(atxn) && atxn.Books() == old(atxn.Books())
      ensures Ext(v0, b0, atxn.view, blks, news, m, m)
      ensures Wrote(old(atxn.view), blks, atxn.view, blks, off, data[..nbytes])
    {
      ghost var v := atxn.view;
      PutBytes(atxn, blkno, byteoff, nbytes, data);
      RoundWritten(v0, b0, v, blks, atxn.mine, news, m, m, off, data[..nbytes], atxn.view);
    }

    /** One round of Write: the part of the data that falls in the block of offset off. */
    method WriteRound(atxn: AllocTxn, off: nat, n: nat, data: seq<Byte>)
      returns (nbytes: nat, isNew: bool, ghost m: nat, ghost k: nat)
      requires Ok(atxn) && 0 < n <= |data| && off < MaxFileSize()
      modifies this`blks, atxn`view, atxn`dirty, atxn`allocBnums, atxn`mine, atxn.balloc
      ensures Ok(atxn) && atxn.Books().Extends(old(atxn.Books()))
      ensures nbytes <= n
      ensures nbytes == 0 || nbytes == n || ByteNo(off + nbytes) == 0
      ensures nbytes == 0 ==> Hole(old(atxn.view), old(blks), off)
      ensures nbytes == 0 <==> atxn.balloc.refused != old(atxn.balloc.refused)
      ensures Stored(old(atxn.view), old(blks), atxn.view, blks, atxn.Books().Since(old(atxn.Books())), off,
                data[..nbytes], m, k)
      ensures blks != old(blks) ==> isNew
      ensures if nbytes == 0 then m == 0 && k == MaxBlocks() else m == k == RoundUp(off + nbytes)
    {
      ghost var v0, b0, l0 := atxn.view, blks, atxn.Books();
      var boff, byteoff := Locate(off);
      nbytes := BLOCKSIZE - byteoff;
      BlockEnd(off, nbytes);
      if n < nbytes {
        nbytes := n;
      }
      var blkno;
      blkno, isNew, m, k := MapRound(atxn, off, off + nbytes);
      ghost var v1 := atxn.view;
      if blkno == 0 {
        SameWrote(v0, b0, v1, blks, v1, blks, off, []);
        nbytes := 0;
        assert data[..nbytes] == [];
        return;
      }
      StoreBytes(atxn, blkno, off, byteoff, nbytes, data, v0, b0, atxn.Books().Since(l0), m);
      SameWrote(v0, b0, v1, blks, atxn.view, blks, off, data[..nbytes]);
    }

    /** Since view v0, pointers b0 and books l0, the bytes in done were stored from offset on. */
    ghost predicate StoredSince(atxn: AllocTxn, v0: View, b0: seq<nat>, l0: Ledger, offset: nat, done: seq<Byte>,
                                m: nat, k: nat)
      reads this, atxn, atxn.balloc
    {
      && Ok(atxn) && atxn.Books().Extends(l0)
      && Stored(v0, b0, atxn.view, blks, atxn.Books().Since(l0), offset, done, m, k)
    }

    /** A round of Write after others that have stored the bytes in done from offset on. */
    method WriteNext(atxn: AllocTxn, off: nat, n: nat, data: seq<Byte>, ghost v0: View, ghost b0: seq<nat>,
                     ghost l0: Ledger,
                     ghost offset: nat, ghost done: seq<Byte>, ghost m0: nat)
      returns (nbytes: nat, isNew: bool, ghost m: nat, ghost k: nat)
      requires 0 < n <= |data| && off < MaxFileSize() && off == offset + |done| && m0 <= RoundUp(off) && |b0| == NBLKINO
      requires StoredSince(atxn, v0, b0, l0, offset, done, m0, m0)
      modifies this`blks, atxn`view, atxn`dirty, atxn`allocBnums, atxn`mine, atxn.balloc
      ensures nbytes <= n && StoredSince(atxn, v0, b0, l0, offset, done + data[..nbytes], m, k)
      ensures nbytes == 0 <==> atxn.balloc.refused != old(atxn.balloc.refused)
      ensures nbytes == 0 || nbytes == n || ByteNo(off + nbytes) == 0
      ensures nbytes == 0 ==> Hole(v0, b0, off)
      ensures blks != old(blks) ==> isNew
      ensures m <= RoundUp(off + nbytes) && (nbytes > 0 ==> m == k) && (nbytes == 0 ==> m == m0)
    {
      ghost var v1, b1, l1 := atxn.view, blks, atxn.Books();
      ghost var m', k';
      nbytes, isNew, m', k' := WriteRound(atxn, off, n, data);
      m, k := Max(m0, m'), Max(m0, k');
      assert nbytes == 0 ==> Hole(v0, b0, off) by { HoleBefore(v0, b0, v1, b1, l1.Since(l0), m0, m0, off); }
      assert m <= RoundUp(off + nbytes) by { RoundUpMono(off, off + nbytes); }
      assert StoredSince(atxn, v0, b0, l0, offset, done + data[..nbytes], m, k) by {
        StoredOn(v0, b0, l0, v1, b1, l1, atxn.view, blks, atxn.Books(), offset, done, off, data[..nbytes], m0, m', k');
      }
    }

    /** The loop of Write: block by block until the data is stored or no block is left. */
    method WriteLoop(atxn: AllocTxn, offset: nat, count: nat, dataBuf: seq<Byte>)
      returns (cnt: nat, alloc: bool, ok: bool, ghost m: nat, ghost k: nat)
      requires Ok(atxn) && count <= |dataBuf| && offset + count <= MaxFileSize()
      modifies this`blks, atxn`view, atxn`dirty, atxn`allocBnums, atxn`mine, atxn.balloc
      ensures cnt <= count && (alloc ==> cnt > 0) && (ok <==> cnt == count)
      ensures ok <==> atxn.balloc.refused == old(atxn.balloc.refused)
      ensures ok || cnt == 0 || ByteNo(offset + cnt) == 0
      ensures !ok ==> Hole(old(atxn.view), old(blks), offset + cnt)
      ensures StoredSince(atxn, old(atxn.view), old(blks), old(atxn.Books()), offset, dataBuf[..cnt], m, k)
      ensures ok && blks != old(blks) ==> alloc
      ensures m <= RoundUp(offset + cnt) && (ok ==> k == m) && (cnt == 0 ==> m == 0)
    {
      ghost var v0, b0, l0 := atxn.view, blks, atxn.Books();
      m, k := 0, 0;
      ExtRefl(v0, b0, 0, 0);
      ghost var done := [];
      cnt, ok, alloc := 0, true, false;
      var off := offset;
      var n := count;
      var data := dataBuf;
      while n > 0
        invariant cnt + n == count && off == offset + cnt && data == dataBuf[cnt..]
        invariant atxn.balloc.refused == old(atxn.balloc.refused) && ok
        invariant (blks != b0 ==> alloc) && (alloc ==> cnt > 0)
        invariant done == dataBuf[..cnt] && StoredSince(atxn, v0, b0, l0, offset, done, m, k)
        invariant m == k && m <= RoundUp(off) && (cnt == 0 ==> m == 0)
        invariant n == 0 || cnt == 0 || ByteNo(off) == 0
      {
        var nbytes, isNew;
        nbytes, isNew, m, k := WriteNext(atxn, off, n, data, v0, b0, l0, offset, done, m);
        TakeMore(dataBuf, cnt, nbytes);
        done := done + data[..nbytes];
        if nbytes == 0 {
          ok := false;
          break;
        }
        if isNew {
          alloc := true;
        }
        n := n - nbytes;
        data := data[nbytes..];
        off := off + nbytes;
        cnt := cnt + nbytes;
      }
    }

    method Write(atxn: AllocTxn, offset: nat, count: nat, dataBuf: seq<Byte>)
      returns (cnt: nat, ok: bool, ghost m: nat, ghost k: nat)
      requires Ok(atxn) && count <= |dataBuf| && offset + count < U64
      modifies this`blks, this`size, atxn`view, atxn`dirty, atxn`dirtyInodes, atxn`allocBnums, atxn`mine, atxn.balloc
      ensures Ok(atxn) && atxn.Books().Extends(old(atxn.Books()))
      ensures offset + count > MaxFileSize() ==> cnt == 0 && !ok && blks == old(blks) && atxn.view == old(atxn.view)
      ensures cnt <= count && (ok <==> cnt > 0 || (count == 0 && offset <= MaxFileSize()))
      ensures offset + count <= MaxFileSize() ==> (cnt == count <==> atxn.balloc.refused == old(atxn.balloc.refused))
      ensures count > 0 && BlockNo(offset + count - 1) < NDIRECT + NBLKBLK * NBLKBLK ==>
                (cnt == count && ok <==> atxn.balloc.refused == old(atxn.balloc.refused))
      ensures count > 0 && BlockNo(offset + count - 1) >= NDIRECT + NBLKBLK * NBLKBLK ==> cnt == 0 && !ok
      ensures cnt == count || cnt == 0 || ByteNo(offset + cnt) == 0
      ensures cnt < count && offset + count <= MaxFileSize() ==> Hole(old(atxn.view), old(blks), offset + cnt)
      ensures Wrote(old(atxn.view), old(blks), atxn.view, blks, offset, dataBuf[..cnt])
      ensures size == if cnt > 0 then Max(old(size), offset + cnt) else old(size)
      ensures atxn.dirtyInodes == if cnt > 0 then old(atxn.dirtyInodes)[inum := Record()] else old(atxn.dirtyInodes)
      ensures atxn.balloc.refused == old(atxn.balloc.refused) && cnt == 0 ==> blks == old(blks)
      ensures Ext(old(atxn.view), old(blks), atxn.view, blks, atxn.Books().Since(old(atxn.Books())), m, k)
      ensures m <= RoundUp(offset + cnt) && (cnt == 0 ==> m == 0)
      ensures atxn.balloc.refused == old(atxn.balloc.refused) ==> k == m
    {
      if count > 0 { MaxFileSizeIff(offset + count - 1); }
      if offset + count > MaxFileSize() {
        ExtRefl(atxn.view, blks, 0, 0);
        return 0, false, 0, 0;
      }
      cnt, ok, m, k := WriteFits(atxn, offset, count, dataBuf);
    }

    /** The part of Write for data below MaxFileSize. */
    method WriteFits(atxn: AllocTxn, offset: nat, count: nat, dataBuf: seq<Byte>)
      returns (cnt: nat, ok: bool, ghost m: nat, ghost k: nat)
      requires Ok(atxn) && count <= |dataBuf| && offset + count <= MaxFileSize()
      modifies this`blks, this`size, atxn`view, atxn`dirty, atxn`dirtyInodes, atxn`allocBnums, atxn`mine, atxn.balloc
      ensures cnt <= count && (ok <==> cnt > 0 || count == 0)
      ensures cnt == count <==> atxn.balloc.refused == old(atxn.balloc.refused)
      ensures cnt == count || cnt == 0 || ByteNo(offset + cnt) == 0
      ensures cnt < count ==> Hole(old(atxn.view), old(blks), offset + cnt)
      ensures StoredSince(atxn, old(atxn.view), old(blks), old(atxn.Books()), offset, dataBuf[..cnt], m, k)
      ensures size == if cnt > 0 then Max(old(size), offset + cnt) else old(size)
      ensures atxn.dirtyInodes == if cnt > 0 then old(atxn.dirtyInodes)[inum := Record()] else old(atxn.dirtyInodes)
      ensures cnt == count == 0 ==> blks == old(blks)
      ensures m <= RoundUp(offset + cnt) && (cnt == count ==> k == m) && (cnt == 0 ==> m == 0)
    {
      var alloc;
      cnt, alloc, ok, m, k := WriteLoop(atxn, offset, count, dataBuf);
      if alloc || cnt > 0 {
        if offset + cnt > size {
          size := offset + cnt;
        }
        WriteInode(atxn);
        ok := true;
      }
    }

    /** Copies nbytes bytes of block blkno from byteoff on. */
    method GetBytes(atxn: AllocTxn, blkno: nat, off: nat, byteoff: nat, nbytes: nat) returns (data: seq<Byte>)
      requires Ok(atxn) && off + nbytes <= MaxFileSize() && byteoff == ByteNo(off) && byteoff + nbytes <= BLOCKSIZE
      requires BlockNo(off) < MaxBlocks() && Slot(SlotOf(BlockNo(off)))
      requires 0 != blkno == At(atxn.view, blks, SlotOf(BlockNo(off)))
      ensures |data| == nbytes && Holds(atxn.view, blks, off, data)
    {
      var buf := atxn.ReadBlock(blkno);
      data := [];
      for b := 0 to nbytes
        invariant data == buf[byteoff..byteoff + b]
      {
        data := data + [buf[byteoff + b]];
      }
      BlockHolds(atxn.view, blks, off, nbytes);
    }

    /** One round of Read: the bytes in the block of offset off. */
    method ReadRound(atxn: AllocTxn, off: nat, n: nat) returns (data: seq<Byte>, ghost m: nat, ghost k: nat)
      requires Ok(atxn) && 0 < n && off + n <= MaxFileSize()
      modifies this`blks, atxn`view, atxn`dirty, atxn`dirtyInodes, atxn`allocBnums, atxn`mine, atxn.balloc
      ensures Ok(atxn) && atxn.Books().Extends(old(atxn.Books()))
      ensures Filled(old(atxn.view), old(blks), atxn.view, blks, atxn.Books().Since(old(atxn.Books())), m, k)
      ensures |data| <= n && (data == [] <==> atxn.balloc.refused != old(atxn.balloc.refused))
      ensures Holds(old(atxn.view), old(blks), off, data)
      ensures data == [] ==> Hole(old(atxn.view), old(blks), off)
      ensures if data == [] then m == 0 && k == MaxBlocks() else m == k == RoundUp(off + n)
      ensures data == [] ==> atxn.dirtyInodes == old(atxn.dirtyInodes)
      ensures data != [] ==> RecordKept(atxn, old(atxn.dirtyInodes), old(blks))
    {
      ghost var v0, b0 := atxn.view, blks;
      var boff, byteoff := Locate(off);
      var nbytes := if BLOCKSIZE - byteoff < n then BLOCKSIZE - byteoff else n;
      var blkno, alloc;
      blkno, alloc, m, k := MapRound(atxn, off, off + n);
      if blkno == 0 {
        return [], m, k;
      }
      if alloc {
        WriteInode(atxn);
      }
      data := GetBytes(atxn, blkno, off, byteoff, nbytes);
      HoldsKept(v0, b0, atxn.view, blks, off, data);
    }

    /** Since view v0, pointers b0 and books l0, the bytes in data were read from offset on. */
    ghost predicate ReadSince(atxn: AllocTxn, v0: View, b0: seq<nat>, l0: Ledger, offset: nat, data: seq<Byte>,
                              m: nat, k: nat)
      requires |b0| == NBLKINO && offset + |data| <= MaxFileSize()
      reads this, atxn, atxn.balloc
    {
      && Ok(atxn) && atxn.Books().Extends(l0) && Holds(v0, b0, offset, data)
      && Filled(v0, b0, atxn.view, blks, atxn.Books().Since(l0), m, k)
    }

    /** A round of Read after others that have read the bytes in done. */
    method ReadNext(atxn: AllocTxn, off: nat, n: nat, done: seq<Byte>, ghost v0: View, ghost b0: seq<nat>,
                    ghost l0: Ledger,
                    ghost d0: map<nat, DInode>, ghost offset: nat, ghost m0: nat)
      returns (data: seq<Byte>, chunk: seq<Byte>, ghost m: nat, ghost k: nat)
      requires 0 < n && off + n <= MaxFileSize() && off == offset + |done| && |b0| == NBLKINO
      requires ReadSince(atxn, v0, b0, l0, offset, done, m0, m0) && RecordKept(atxn, d0, b0)
      modifies this`blks, atxn`view, atxn`dirty, atxn`dirtyInodes, atxn`allocBnums, atxn`mine, atxn.balloc
      ensures |chunk| <= n && data == done + chunk
      ensures ReadSince(atxn, v0, b0, l0, offset, data, m, k)
      ensures chunk == [] <==> atxn.balloc.refused != old(atxn.balloc.refused)
      ensures chunk == [] ==> Hole(v0, b0, off)
      ensures if chunk == [] then m <= m0 else m == k <= Max(m0, RoundUp(off + n))
      ensures chunk != [] ==> RecordKept(atxn, d0, b0)
      ensures chunk == [] ==> RecordPart(atxn, d0)
    {
      ghost var v1, b1, l1 := atxn.view, blks, atxn.Books();
      ghost var d1, r1 := atxn.dirtyInodes, Record();
      HoleBefore(v0, b0, v1, b1, l1.Since(l0), m0, m0, off);
      ghost var m', k';
      chunk, m', k' := ReadRound(atxn, off, n);
      FilledJoin(v0, b0, v1, b1, atxn.view, blks, l1.Since(l0), atxn.Books().Since(l1), m0, m0, m', k');
      ExtendsTrans(l0, l1, atxn.Books());
      ReadJoin(v0, b0, v1, b1, l1.Since(l0), m0, m0, offset, done, off, chunk);
      m, k := Max(m0, m'), Max(m0, k');
      data := done + chunk;
      KeptJoin(chunk != [], d0, d1, atxn.dirtyInodes, b0, b1, blks, inum, r1, Record());
      ExtBehind(v1, b1, atxn.view, blks, atxn.Books().Since(l1), m', k', b1);
    }

    /** The loop of Read: count bytes block by block, or as many as can be mapped. */
    method ReadLoop(atxn: AllocTxn, offset: nat, count: nat) returns (data: seq<Byte>, ghost m: nat, ghost k: nat)
      requires Ok(atxn) && offset + count <= MaxFileSize()
      modifies this`blks, atxn`view, atxn`dirty, atxn`dirtyInodes, atxn`allocBnums, atxn`mine, atxn.balloc
      ensures |data| <= count
      ensures ReadSince(atxn, old(atxn.view), old(blks), old(atxn.Books()), offset, data, m, k)
      ensures |data| == count <==> atxn.balloc.refused == old(atxn.balloc.refused)
      ensures |data| < count ==> Hole(old(atxn.view), old(blks), offset + |data|)
      ensures m <= RoundUp(offset + count) && (|data| == count ==> k == m)
      ensures |data| == count ==> RecordKept(atxn, old(atxn.dirtyInodes), old(blks))
      ensures RecordPart(atxn, old(atxn.dirtyInodes))
    {
      ghost var v0, b0, l0, d0 := atxn.view, blks, atxn.Books(), atxn.dirtyInodes;
      m, k := 0, 0;
      ExtRefl(v0, b0, 0, 0);
      data := [];
      var off := offset;
      while |data| < count
        invariant |data| <= count && off == offset + |data|
        invariant ReadSince(atxn, v0, b0, l0, offset, data, m, k)
        invariant atxn.balloc.refused == old(atxn.balloc.refused)
        invariant m == k && m <= RoundUp(offset + count)
        invariant RecordKept(atxn, d0, b0)
      {
        var chunk;
        data, chunk, m, k := ReadNext(atxn, off, count - |data|, data, v0, b0, l0, d0, offset, m);
        if chunk == [] {
          break;
        }
        off := off + |chunk|;
      }
    }

    /** The inode's pointers are as before and so is the record, or the record is up to date. */
    ghost predicate RecordKept(atxn: AllocTxn, d0: map<nat, DInode>, b0: seq<nat>)
      reads this, atxn
    {
      (atxn.dirtyInodes == d0 && blks == b0) || atxn.dirtyInodes == d0[inum := Record()]
    }

    /** The record is as before, or it has been written and lacks at most some pointers. */
    ghost predicate RecordPart(atxn: AllocTxn, d0: map<nat, DInode>)
      reads this, atxn
    {
      var d := atxn.dirtyInodes;
      d == d0 || (inum in d && d == d0[inum := d[inum]] && Behind(d[inum].blks, blks))
    }

    /** Reads up to bytesToRead bytes; a hole on the way is filled, which changes no byte. */
    method Read(atxn: AllocTxn, offset: nat, bytesToRead: nat)
      returns (data: seq<Byte>, eof: bool, ghost m: nat, ghost k: nat)
      requires Ok(atxn) && size <= MaxFileSize() && offset + bytesToRead < U64
      modifies this`blks, atxn`view, atxn`dirty, atxn`dirtyInodes, atxn`allocBnums, atxn`mine, atxn.balloc
      ensures Ok(atxn) && atxn.Books().Extends(old(atxn.Books()))
      ensures SameBytes(old(atxn.view), old(blks), atxn.view, blks)
      ensures eof <==> offset >= size
      ensures eof ==> data == []
      ensures !eof ==> |data| <= Min(bytesToRead, size - offset) && Holds(old(atxn.view), old(blks), offset, data)
      ensures (eof || |data| == Min(bytesToRead, size - offset)) <==> atxn.balloc.refused == old(atxn.balloc.refused)
      ensures !eof && |data| < Min(bytesToRead, size - offset) ==> Hole(old(atxn.view), old(blks), offset + |data|)
      ensures Ext(old(atxn.view), old(blks), atxn.view, blks, atxn.Books().Since(old(atxn.Books())), m, k)
      ensures m <= RoundUp(size)
      ensures atxn.balloc.refused == old(atxn.balloc.refused) ==>
                k == m && RecordKept(atxn, old(atxn.dirtyInodes), old(blks))
      ensures RecordPart(atxn, old(atxn.dirtyInodes))
    {
      if offset >= size {
        ExtRefl(atxn.view, blks, 0, 0);
        return [], true, 0, 0;
      }
      var count := bytesToRead;
      if offset + count >= size {
        count := size - offset;
      }
      eof := false;
      data, m, k := ReadLoop(atxn, offset, count);
      RoundUpMono(offset + count, size);
    }
  }
}
