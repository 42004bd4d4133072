/** Transactions with allocation: a private overlay on the committed disk, and the
    numbers the transaction has taken from and given back to the allocators. */
module AllocTxns {
  import opened Basics
  import opened Bytes
  import opened Super
  import opened Tree

  /** The on-disk part of an inode, without its times. */
  datatype DInode = DInode(kind: nat, nlink: nat, gen: nat, size: nat, shrinkSize: nat, blks: seq<nat>)

  /** An in-memory allocator over the numbers below size.  The numbers that mkfs marked
      once and for all are kept apart in reserved. */
  class Alloc {
    const size: nat
    const reserved: set<nat>
    var used: set<nat>
    /** How many requests have been refused. */
    ghost var refused: nat

    constructor (size: nat, reserved: set<nat>, used: set<nat>)
      ensures this.size == size && this.reserved == reserved && this.used == used && refused == 0
    {
      this.size, this.reserved, this.used, this.refused := size, reserved, used, 0;
    }

    /** Returns 0, or a number that was not marked, which it marks. */
    method AllocNum() returns (n: nat)
      modifies this
      ensures n == 0 ==> used == old(used) && refused == old(refused) + 1
      ensures n != 0 ==>
                n < size && n !in reserved && n !in old(used) && used == old(used) + {n} && refused == old(refused)
    {
      if j: nat :| 0 < j < size && j !in reserved && j !in used {
        n, used := j, used + {j};
      } else {
        n, refused := 0, refused + 1;
      }
    }

    method FreeNum(n: nat)
      modifies this
      ensures used == old(used) - {n} && refused == old(refused)
    {
      used := used - {n};
    }
  }

  /** The allocation state: the blocks the transaction may write, the blocks marked in
      memory, and the blocks it has taken. */
  datatype Ledger = Ledger(mine: set<nat>, marked: set<nat>, taken: seq<nat>)
  {
    /** The blocks taken since an earlier state. */
    ghost function Since(old_: Ledger): set<nat> { mine - old_.mine }

    /** Since an earlier state blocks were only taken, and none that was marked then. */
    ghost predicate Extends(old_: Ledger) {
      && old_.mine <= mine && Since(old_) !! old_.marked && marked == old_.marked + Since(old_)
      && old_.taken <= taken && ToSet(taken) == ToSet(old_.taken) + Since(old_)
    }
  }

  lemma ExtendsTrans(a: Ledger, b: Ledger, c: Ledger)
    requires b.Extends(a) && c.Extends(b)
    ensures c.Extends(a) && c.Since(a) == b.Since(a) + c.Since(b)
  {
    assert c.Since(a) == b.Since(a) + c.Since(b);
  }

  /** A transaction with this view, these dirty blocks and blocks of its own fits the disk
      and the marks in memory. */
  ghost predicate TxnFits(super: FsSuper, used: set<nat>, disk: View, view: View, dirty: set<nat>, mine: set<nat>) {
    && super.Valid() && dirty <= mine <= used
    && (forall b: nat :: b in used ==> super.Data(b))
    && (forall b: nat :: super.Data(b) && b !in used ==> Blk(view, b) == ZeroBlock())
    && (forall b: nat :: b !in dirty ==> Blk(view, b) == Blk(disk, b))
  }

  class AllocTxn {
    const super: FsSuper
    /** The committed disk and inodes. */
    const disk: View
    const inodes: map<nat, DInode>
    const balloc: Alloc

    /** The blocks as the transaction sees them, and which of them it has written. */
    var view: View
    var dirty: set<nat>
    /** The inodes it has written. */
    var dirtyInodes: map<nat, DInode>
    var allocBnums: seq<nat>
    var freeBnums: seq<nat>
    /** The blocks it may write: those of the inodes it has locked, and those it has taken. */
    ghost var mine: set<nat>

    constructor (super: FsSuper, disk: View, inodes: map<nat, DInode>, balloc: Alloc, ghost mine: set<nat>)
      ensures this.mine == mine
      ensures this.super == super && this.disk == disk && this.inodes == inodes && this.balloc == balloc
      ensures view == disk && dirty == {} && dirtyInodes == map[] && allocBnums == [] && freeBnums == []
    {
      this.super, this.disk, this.inodes, this.balloc := super, disk, inodes, balloc;
      view, dirty, dirtyInodes, allocBnums, freeBnums := disk, {}, map[], [], [];
      this.mine := mine;
    }

    ghost function Books(): Ledger
      reads this, balloc
    {
      Ledger(mine, balloc.used, allocBnums)
    }

    /** The allocator hands out data blocks only, an unmarked data block is zero, and
        the transaction has written only blocks of its own. */
    ghost predicate Valid()
      reads this, balloc
    {
      && (forall n: nat :: 0 < n < balloc.size && n !in balloc.reserved ==> super.Data(n))
      && TxnFits(super, balloc.used, disk, view, dirty, mine)
    }

    function NDirty(): nat
      reads this
    {
      |dirty| + |dirtyInodes|
    }

    method AllocBlock() returns (bn: nat)
      requires Valid()
      modifies this`allocBnums, this`mine, balloc
      ensures Valid() && Books().Extends(old(Books()))
      ensures balloc.refused == if bn == 0 then old(balloc.refused) + 1 else old(balloc.refused)
      ensures Books().Since(old(Books())) == if bn == 0 then {} else {bn}
      ensures bn != 0 ==> super.Data(bn) && Blk(view, bn) == ZeroBlock()
    {
      bn := balloc.AllocNum();
      assert super.ValidBlock(bn);
      if bn != 0 {
        allocBnums, mine := allocBnums + [bn], mine + {bn};
        ToSetAppend(old(allocBnums), bn);
      }
    }

    method ReadBlock(b: nat) returns (blk: Block)
      requires super.ValidBlock(b)
      ensures blk == Blk(view, b)
    {
      blk := Blk(view, b);
    }

    /** Gives block b new contents and marks its buffer dirty. */
    method PutBlock(b: nat, blk: Block)
      requires Valid() && b in mine
      modifies this`view, this`dirty
      ensures Valid() && view == old(view)[b := blk] && dirty == old(dirty) + {b}
    {
      view, dirty := view[b := blk], dirty + {b};
    }

    method ZeroBlockAt(b: nat)
      requires Valid() && b in mine
      modifies this`view, this`dirty
      ensures Valid() && view == old(view)[b := ZeroBlock()] && dirty == old(dirty) + {b}
    {
      var data := ReadBlock(b);
      for i := 0 to |data|
        invariant |data| == BLOCKSIZE
        invariant forall j :: 0 <= j < i ==> data[j] == 0
      {
        data := data[i := 0];
      }
      assert data == ZeroBlock();
      PutBlock(b, data);
    }

    method FreeBlock(b: nat)
      requires Valid() && (b == 0 || b in mine)
      modifies this`view, this`dirty, this`freeBnums
      ensures Valid()
      ensures b == 0 ==> view == old(view) && dirty == old(dirty) && freeBnums == old(freeBnums)
      ensures b != 0 ==>
                view == old(view)[b := ZeroBlock()] && dirty == old(dirty) + {b} && freeBnums == old(freeBnums) + [b]
    {
      assert super.ValidBlock(b);
      if b != 0 {
        ZeroBlockAt(b);
        freeBnums := freeBnums + [b];
      }
    }
  }
}
