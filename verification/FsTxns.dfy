/** File-system transactions: the inodes a transaction has locked, handle checks, and
    locking several inodes in order. */
module FsTxns {
  import opened Basics
  import opened Bytes
  import opened Handles
  import opened LockOrder
  import L = Locks

  /** The lock map all transactions share. */
  class LockMap {
    var held: set<nat>

    constructor ()
      ensures held == {}
    {
      held := {};
    }

    /** Returns when nobody holds the lock. */
    method Acquire(inum: nat)
      requires inum !in held
      modifies this
      ensures held == old(held) + {inum}
    {
      held := held + {inum};
    }

    method Release(inum: nat)
      requires inum in held
      modifies this
      ensures held == old(held) - {inum}
    {
      held := held - {inum};
    }
  }

  /** A transaction; table is what the inode cache and the disk behind it hold. */
  class FsTxn {
    const lockmap: LockMap
    const table: Table
    var inodes: map<nat, Ino>
    /** The locks held, in the order they were acquired. */
    ghost var order: seq<nat>

    constructor (lockmap: LockMap, table: Table)
      ensures Ok() && inodes == map[] && order == [] && this.lockmap == lockmap && this.table == table
    {
      this.lockmap, this.table, this.inodes, this.order := lockmap, table, map[], [];
    }

    ghost predicate Ok()
      reads this, lockmap
    {
      && inodes.Keys <= lockmap.held && ToSet(order) == inodes.Keys
      && forall i :: i in inodes ==> i in table && inodes[i] == table[i]
    }

    /** The transaction may lock these inodes now. */
    ghost predicate Free(inums: set<nat>)
      reads this, lockmap
    {
      inums !! lockmap.held && inums <= table.Keys
    }

    method ReleaseInode(inum: nat)
      requires Ok() && inum in inodes
      modifies this, lockmap
      ensures Ok() && inodes == old(inodes) - {inum} && order == Without(old(order), inum)
      ensures lockmap.held == old(lockmap.held) - {inum}
    {
      inodes := inodes - {inum};
      lockmap.Release(inum);
      WithoutSet(order, inum);
      order := Without(order, inum);
    }

    method GetInodeLocked(inum: nat) returns (ip: Ino)
      requires Ok() && Free({inum})
      modifies this, lockmap
      ensures Ok() && ip == table[inum] && inodes == old(inodes)[inum := ip] && order == old(order) + [inum]
      ensures lockmap.held == old(lockmap.held) + {inum}
    {
      lockmap.Acquire(inum);
      ip := table[inum];
      inodes := inodes[inum := ip];
      order := order + [inum];
    }

    /** Locks an inode that is in use; a free one is let go again. */
    method GetInodeInum(inum: nat) returns (ip: Option<Ino>)
      requires Ok() && Free({inum})
      modifies this, lockmap
      ensures Ok() && ip == (if table[inum].kind == FREE then None else Some(table[inum]))
      ensures ip == None ==> inodes == old(inodes) && order == old(order) && lockmap.held == old(lockmap.held)
      ensures ip != None ==> inodes == old(inodes)[inum := table[inum]] && order == old(order) + [inum]
      ensures ip != None ==> lockmap.held == old(lockmap.held) + {inum}
    {
      var got := GetInodeLocked(inum);
      ip := Some(got);
      if got.kind == FREE {
        assert inum !in ToSet(old(order));
        WithoutLast(old(order), inum);
        ReleaseInode(inum);
        assert inodes == old(inodes);
        ip := None;
      }
    }

    /** Locks the inode of a handle, and only the incarnation the handle was issued for. */
    method GetInodeFh(fh3: seq<Byte>) returns (ip: Option<Ino>)
      requires |fh3| >= 16 && Ok() && Free({MakeFh(fh3).ino})
      modifies this, lockmap
      ensures Ok() && (ip != None <==> Resolves(table, MakeFh(fh3)))
      ensures ip == None ==> inodes == old(inodes) && order == old(order) && lockmap.held == old(lockmap.held)
      ensures ip != None ==>
                inodes == old(inodes)[MakeFh(fh3).ino := ip.value] && order == old(order) + [MakeFh(fh3).ino]
      ensures ip != None ==> lockmap.held == old(lockmap.held) + {MakeFh(fh3).ino}
    {
      var fh := MakeFh(fh3);
      ip := GetInodeInum(fh.ino);
      if ip == None {
        return;
      }
      if ip.value.gen != fh.gen {
        assert fh.ino !in ToSet(old(order));
        WithoutLast(old(order), fh.ino);
        ReleaseInode(fh.ino);
        assert inodes == old(inodes);
        ip := None;
      }
    }

    /** Releases every lock. */
    method Abort()
      requires Ok()
      modifies this, lockmap
      ensures Ok() && inodes == map[] && order == [] && lockmap.held == old(lockmap.held) - old(inodes.Keys)
    {
      ghost var mine := inodes.Keys;
      order := [];
      while inodes != map[]
        invariant order == [] && inodes.Keys <= mine && inodes.Keys <= lockmap.held && mine <= old(lockmap.held)
        invariant lockmap.held == old(lockmap.held) - (mine - inodes.Keys)
        decreases inodes.Keys
      {
        var inum :| inum in inodes;
        inodes := inodes - {inum};
        lockmap.Release(inum);
      }
    }

    /** Where inm is in inums. */
    method Position(inums: seq<nat>, inm: nat) returns (pos: nat)
      requires inm in inums
      ensures pos < |inums| && inums[pos] == inm
    {
      pos := 0;
      while inums[pos] != inm
        invariant pos < |inums| && inm in inums[pos..]
        decreases |inums| - pos
      {
        pos := pos + 1;
      }
    }

    /** Locks inodes in the order of the sort, and returns them in the order of the caller;
        fails, with no lock left, if and only if one of them is free. */
    method LockInodes(inums: seq<nat>) returns (ips: Option<seq<Ino>>)
      requires Ok() && inodes == map[] && Distinct(inums) && Free(ToSet(inums))
      modifies this, lockmap
      ensures Ok() && (ips == None <==> exists k :: 0 <= k < |inums| && table[inums[k]].kind == FREE)
      ensures ips == None ==> inodes == map[] && lockmap.held == old(lockmap.held)
      ensures ips != None ==> order == Order(inums) && inodes.Keys == ToSet(inums)
      ensures ips != None ==> lockmap.held == old(lockmap.held) + ToSet(inums)
      ensures ips != None ==> ips.value == seq(|inums|, k requires 0 <= k < |inums| => table[inums[k]])
    {
      NoElems(order);
      var sorted := SortByOriginal(inums);
      SameElems(inums, sorted[..]);
      var got: seq<Ino> := seq(|inums|, _ => Ino(FREE, 0));
      var n := 0;
      while n < sorted.Length
        invariant n <= sorted.Length && sorted[..] == Order(inums) && |got| == |inums|
        invariant Ok() && order == sorted[..n] && lockmap.held == old(lockmap.held) + ToSet(sorted[..n])
        invariant Placed(table, inums, sorted[..n], got)
      {
        var inm := sorted[n];
        assert inm in sorted[..];
        NotYet(sorted[..], n);
        var ip := GetInodeInum(inm);
        var pos := Position(inums, inm);
        if ip == None {
          Abort();
          return None;
        }
        assert sorted[..n + 1] == sorted[..n] + [inm];
        PlaceNext(table, inums, sorted[..n], got, pos);
        got := got[pos := ip.value];
        n := n + 1;
      }
      assert sorted[..n] == sorted[..];
      forall k | 0 <= k < |inums| ensures got[k] == table[inums[k]] && got[k].kind != FREE {
        assert inums[k] in sorted[..n];
      }
      ips := Some(got);
    }

    /** Locks a child and its parent, then checks that the parent is the one the handle was
        issued for and that the name, looked up again, still means the child. */
    method LookupOrdered(parent: Fh, inm: nat, child: nat) returns (ips: Option<seq<Ino>>)
      requires Ok() && inodes == map[] && inm != parent.ino && Free({inm, parent.ino})
      modifies this, lockmap
      ensures Ok() && (ips != None <==> Resolves(table, parent) && table[inm].kind != FREE && child == inm != 0)
      ensures ips == None ==> inodes == map[] && lockmap.held == old(lockmap.held)
      ensures ips != None ==> ips.value == [table[inm], table[parent.ino]] && inodes.Keys == {inm, parent.ino}
      ensures ips != None ==> order == if inm < parent.ino then [inm, parent.ino] else [parent.ino, inm]
      ensures ips != None ==> lockmap.held == old(lockmap.held) + {inm, parent.ino}
    {
      var two := [inm, parent.ino];
      assert ToSet(two) == {inm, parent.ino};
      assert two[0] == inm && two[1] == parent.ino;
      TwoOrdered(inm, parent.ino);
      ips := LockInodes(two);
      if ips == None {
        return;
      }
      assert |ips.value| == 2 && ips.value[0] == table[inm] && ips.value[1] == table[parent.ino];
      var dip := ips.value[1];
      if dip.gen != parent.gen || child == 0 || child != inm {
        Abort();
        assert lockmap.held == old(lockmap.held);
        ips := None;
      }
    }
  }

  /** The inodes locked so far are at the positions of their numbers. */
  ghost predicate Placed(table: Table, inums: seq<nat>, done: seq<nat>, got: seq<Ino>) {
    |got| == |inums| && forall k :: 0 <= k < |inums| && inums[k] in done ==>
        inums[k] in table && got[k] == table[inums[k]] && got[k].kind != FREE
  }

  lemma PlaceNext(table: Table, inums: seq<nat>, done: seq<nat>, got: seq<Ino>, pos: nat)
    requires Placed(table, inums, done, got) && pos < |inums| && Distinct(inums) && inums[pos] in table
    requires table[inums[pos]].kind != FREE
    ensures Placed(table, inums, done + [inums[pos]], got[pos := table[inums[pos]]])
  {}

  /** The sort neither drops nor repeats an inode. */
  lemma SameElems(inums: seq<nat>, sorted: seq<nat>)
    requires sorted == Order(inums) && Distinct(inums)
    ensures Distinct(sorted) && ToSet(sorted) == ToSet(inums) && forall i :: i in sorted <==> i in inums
  {
    FlippedSame(inums, |inums|);
    assert inums[..|inums|] == inums;
    L.DistinctSame(sorted, inums);
    forall i ensures i in sorted <==> i in inums {
      if i in sorted { SameMembers(sorted, inums, i); }
      if i in inums { SameMembers(inums, sorted, i); }
    }
  }

  lemma NoElems(s: seq<nat>)
    ensures ToSet(s) == {} ==> s == []
  {
    if s != [] { assert s[0] in ToSet(s); }
  }

  lemma NotYet(s: seq<nat>, n: nat)
    requires Distinct(s) && n < |s|
    ensures s[n] !in s[..n]
  {}
}
