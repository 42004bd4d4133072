/** The shrinker: one transaction after another until an inode has its size. */
module Shrinker {
  import opened Basics
  import opened Bytes
  import opened Super
  import opened Tree
  import opened Slots
  import opened Files
  import opened Shrinking
  import opened AllocTxns
  import opened Inodes
  import opened Shrinks

  /** The committed disk and the block allocator in memory. */
  class FsState {
    const super: FsSuper
    const balloc: Alloc
    var disk: View
    var inodes: map<nat, DInode>

    /** The state after a reboot: the allocator starts from the numbers on disk. */
    constructor (super: FsSuper, balloc: Alloc, disk: View, inodes: map<nat, DInode>)
      ensures this.super == super && this.balloc == balloc && this.disk == disk && this.inodes == inodes
    {
      this.super, this.balloc, this.disk, this.inodes := super, balloc, disk, inodes;
    }

    ghost predicate Valid()
      reads this, balloc
    {
      && super.Valid()
      && (forall n: nat :: 0 < n < balloc.size && n !in balloc.reserved ==> super.Data(n))
      && (forall b: nat :: b in balloc.used ==> super.Data(b))
      && (forall b: nat :: super.Data(b) && b !in balloc.used ==> Blk(disk, b) == ZeroBlock())
    }

    /** Installs a transaction that allocated nothing, then lets go of what it freed. */
    method Commit(op: AllocTxn)
      requires op.super == super && op.balloc == balloc && op.disk == disk && op.Valid()
      requires forall b :: b in op.freeBnums ==> Blk(op.view, b) == ZeroBlock()
      modifies this`disk, this`inodes, balloc
      ensures Valid() && disk == op.view && inodes == old(inodes) + op.dirtyInodes
      ensures balloc.used == old(balloc.used) - ToSet(op.freeBnums)
    {
      disk := op.view;
      inodes := inodes + op.dirtyInodes;
      for i := 0 to |op.freeBnums|
        invariant balloc.used == old(balloc.used) - ToSet(op.freeBnums[..i])
        invariant disk == op.view && inodes == old(inodes) + op.dirtyInodes
      {
        balloc.FreeNum(op.freeBnums[i]);
        assert op.freeBnums[..i + 1] == op.freeBnums[..i] + [op.freeBnums[i]];
      }
      assert op.freeBnums[..|op.freeBnums|] == op.freeBnums;
    }
  }

  /** The inode object is well formed on the committed disk and agrees with its record. */
  ghost predicate Settled(st: FsState, ip: Inode)
    reads st, st.balloc, ip
  {
    && st.Valid() && InodeOk(st.disk, ip.blks, st.balloc.used) && ip.shrinkSize <= MaxBlocks()
    && ip.inum in st.inodes && st.inodes[ip.inum] == ip.Record()
  }

  ghost function OnDisk(st: FsState, ip: Inode): Snap
    reads st, ip
  {
    Snap(st.disk, ip.blks, ip.size, ip.shrinkSize)
  }

  /** Blocks that were freed are not needed by what is left of the inode. */
  lemma FreedNotNeeded(v: View, blks: seq<nat>, w: View, blks': seq<nat>, freed: seq<nat>, dom: set<nat>)
    requires InodeOk(w, blks', dom) && Shed(v, blks, w, blks', freed)
    ensures InodeOk(w, blks', dom - ToSet(freed))
  {
    forall s | Slot(s) && At(w, blks', s) != 0 ensures At(w, blks', s) !in freed {
      assert Owns(w, blks', At(w, blks', s));
    }
  }

  /** Shrinks in one transaction after another until nothing is left to free, or until it
      finds after a transaction that the system is told to stop, which it is from the
      stopAfter-th on; terminates because each fresh transaction frees something. */
  method DoShrink(st: FsState, ip: Inode, stopAfter: nat) returns (n: nat, ghost freed: seq<nat>)
    requires Settled(st, ip) && stopAfter > 0
    modifies st`disk, st`inodes, st.balloc, ip`blks, ip`shrinkSize
    ensures Settled(st, ip)
    ensures Shrank(old(OnDisk(st, ip)), OnDisk(st, ip), freed)
    ensures st.balloc.used == old(st.balloc.used) - ToSet(freed)
    ensures 0 < n <= stopAfter && (ip.shrinkSize <= RoundUp(ip.size) || n == stopAfter)
    ensures n > 1 ==> ip.shrinkSize < old(ip.shrinkSize)
  {
    ghost var s0 := OnDisk(st, ip);
    ShrankNothing(s0);
    freed, n := [], 0;
    var more := true;
    while more
      invariant Settled(st, ip) && Shrank(s0, OnDisk(st, ip), freed) && InodeOk(s0.v, s0.blks, old(st.balloc.used))
      invariant st.balloc.used == old(st.balloc.used) - ToSet(freed)
      invariant if n == 0 then more else more == (ip.shrinkSize > RoundUp(ip.size))
      invariant n < stopAfter && (n > 0 && more ==> ip.shrinkSize < s0.shrinkSize)
      invariant n > 1 ==> ip.shrinkSize < s0.shrinkSize
      decreases more, ip.shrinkSize
    {
      ghost var s1 := OnDisk(st, ip);
      ghost var f;
      more, f := ShrinkTxn(st, ip);
      ShrankJoin(s0, s1, OnDisk(st, ip), freed, f, old(st.balloc.used));
      freed, n := freed + f, n + 1;
      if n == stopAfter {
        break;
      }
    }
  }

  /** One transaction of the shrinker. */
  method ShrinkTxn(st: FsState, ip: Inode) returns (more: bool, ghost freed: seq<nat>)
    requires Settled(st, ip)
    modifies st`disk, st`inodes, st.balloc, ip`blks, ip`shrinkSize
    ensures Settled(st, ip) && (more <==> ip.shrinkSize > RoundUp(ip.size))
    ensures Shrank(old(OnDisk(st, ip)), OnDisk(st, ip), freed)
    ensures st.balloc.used == old(st.balloc.used) - ToSet(freed)
    ensures more ==> ip.shrinkSize < old(ip.shrinkSize)
  {
    var op := new AllocTxn(st.super, st.disk, st.inodes, st.balloc, st.balloc.used);
    more, freed := Shrink(ip, op);
    FreedNotNeeded(old(st.disk), old(ip.blks), op.view, ip.blks, freed, st.balloc.used);
    assert op.freeBnums == freed;
    st.Commit(op);
  }
}
