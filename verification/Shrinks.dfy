/** Resizing an inode and freeing its blocks, from the top down. */
module Shrinks {
  import opened Basics
  import opened Arith
  import opened Bytes
  import opened Tree
  import opened Growth
  import opened Slots
  import opened Files
  import opened Cutting
  import opened Pruning
  import opened Shrinking
  import opened AllocTxns
  import opened Inodes

  type LogCapacity = n: nat | n > 5 witness 511

  /** How many dirty objects fit in one transaction. */
  const LOGBLOCKS: LogCapacity

  predicate ShrinkFits(op: AllocTxn, nblk: nat)
    reads op
  {
    op.NDirty() + nblk < LOGBLOCKS
  }

  predicate IsShrinking(ip: Inode)
    reads ip
  {
    ip.shrinkSize > RoundUp(ip.size)
  }

  /** Frees the node at leaf bn below root, and the index blocks that start there; returns
      the root itself if the caller is to free it. */
  method IndShrink(op: AllocTxn, root: nat, level: nat, bn: nat) returns (freeroot: nat, ghost freed: seq<nat>)
    requires op.Valid() && level <= 2 && bn < Span(level) && TreeOk(op.view, root, level, op.mine)
    modifies op`view, op`dirty, op`freeBnums
    ensures op.Valid() && freeroot == (if bn == 0 then root else 0)
    ensures Shrunk(old(op.view), root, op.view, level, bn, freed)
    ensures op.freeBnums == old(op.freeBnums) + freed
    ensures forall b :: b in op.dirty ==> b in old(op.dirty) || Along(old(op.view), root, PathOf(level, bn), b)
    decreases level, 1
  {
    if root == 0 {
      NothingCut(op.view, root, level, bn);
      return 0, [];
    }
    if level == 0 {
      NothingCut(op.view, root, level, bn);
      return root, [];
    }
    var off, ind := Split(level, bn);
    assert Path(level, []) && Walk(op.view, root, []) == root;
    var b := op.ReadBlock(root);
    var nxtroot := PtrGet(b, off);
    freed := [];
    if nxtroot != 0 {
      freed := ShrinkChild(op, root, level, bn, off, ind, b);
    } else {
      NothingCut(op.view, root, level, bn);
    }
    freeroot := if off == 0 && ind == 0 then root else 0;
  }

  /** The part of indshrink for a child that is there. */
  method ShrinkChild(op: AllocTxn, root: nat, level: nat, ghost bn: nat, off: nat, ind: nat, b: Block)
    returns (ghost freed: seq<nat>)
    requires op.Valid() && 0 < level <= 2 && root != 0 && bn < Span(level) && TreeOk(op.view, root, level, op.mine)
    requires off == Quot(bn, Span(level - 1)) < NBLKBLK && ind == Rem(bn, Span(level - 1))
    requires PathOf(level, bn) == [off] + PathOf(level - 1, ind) && Path(level - 1, PathOf(level - 1, ind))
    requires b == Blk(op.view, root) && PtrGet(b, off) != 0
    modifies op`view, op`dirty, op`freeBnums
    ensures op.Valid() && Shrunk(old(op.view), root, op.view, level, bn, freed)
    ensures op.freeBnums == old(op.freeBnums) + freed
    ensures forall b :: b in op.dirty ==> b in old(op.dirty) || Along(old(op.view), root, PathOf(level, bn), b)
    decreases level, 0
  {
    ghost var v, d0 := op.view, op.dirty;
    var nxtroot := PtrGet(b, off);
    ChildOk(v, root, level, off, op.mine);
    assert Path(level - 1, []) && Walk(v, nxtroot, []) == nxtroot;
    assert op.super.ValidBlock(nxtroot);
    var sub;
    sub, freed := IndShrink(op, nxtroot, level - 1, ind);
    ghost var k := Trim(v, root, level, bn, op.view, freed, op.mine);
    TrimRoot(k);
    if sub != 0 {
      Unlink(op, root, off, b, sub);
      freed := freed + [sub];
    }
    assert Shrunk(v, root, op.view, level, bn, freed) by { TrimStep(k); }
    assert forall x :: x in op.dirty && x !in d0 ==> Along(v, root, PathOf(level, bn), x) by {
      AlongTop(v, nxtroot, PathOf(level - 1, ind));
      forall x | x in op.dirty && x !in d0 ensures Along(v, root, PathOf(level, bn), x) {
        AlongChild(v, root, level, bn, off, ind, x);
      }
    }
  }

  /** Clears slot off of an index block and frees the block it pointed to. */
  method Unlink(op: AllocTxn, root: nat, off: nat, b: Block, sub: nat)
    requires op.Valid() && root in op.mine && sub in op.mine && sub != 0 && b == Blk(op.view, root) && off < NBLKBLK
    modifies op`view, op`dirty, op`freeBnums
    ensures op.Valid() && op.view == old(op.view)[root := PtrPut(b, off, 0)][sub := ZeroBlock()]
    ensures op.dirty == old(op.dirty) + {root, sub} && op.freeBnums == old(op.freeBnums) + [sub]
  {
    Inode.SetPtr(op, root, off, b, 0);
    op.FreeBlock(sub);
  }

  /** freeIndex: frees the block of an inode entry and clears the entry. */
  method FreeIndex(ip: Inode, op: AllocTxn, index: nat)
    requires op.Valid() && |ip.blks| == NBLKINO && index < NBLKINO
    requires ip.blks[index] == 0 || ip.blks[index] in op.mine
    modifies ip`blks, op`view, op`dirty, op`freeBnums
    ensures op.Valid() && ip.blks == old(ip.blks)[index := 0]
    ensures var b := old(ip.blks)[index];
            && op.view == (if b == 0 then old(op.view) else old(op.view)[b := ZeroBlock()])
            && op.dirty == (if b == 0 then old(op.dirty) else old(op.dirty) + {b})
            && op.freeBnums == (if b == 0 then old(op.freeBnums) else old(op.freeBnums) + [b])
  {
    op.FreeBlock(ip.blks[index]);
    ip.blks := ip.blks[index := 0];
  }

  /** The body of the loop in Shrink, at cursor c. */
  method ShrinkAt(ip: Inode, op: AllocTxn, c: nat) returns (ghost freed: seq<nat>)
    requires ip.Ok(op) && c < MaxBlocks()
    modifies ip`blks, op`view, op`dirty, op`freeBnums
    ensures ip.Ok(op) && Pruned(old(op.view), old(ip.blks), op.view, ip.blks, c, freed)
    ensures op.freeBnums == old(op.freeBnums) + freed
    ensures forall b :: b in op.dirty ==> b in old(op.dirty) || AtOrAbove(old(op.view), old(ip.blks), c, b)
  {
    EntryOfBlock(c);
    if c < NDIRECT {
      freed := PruneDirect(ip, op, c);
    } else {
      var off := c - NDIRECT;
      if off < NBLKBLK {
        freed := PruneEntry(ip, op, c, INDIRECT, off);
      } else {
        off := off - NBLKBLK;
        freed := PruneEntry(ip, op, c, DINDIRECT, off);
      }
    }
  }

  method PruneDirect(ip: Inode, op: AllocTxn, c: nat) returns (ghost freed: seq<nat>)
    requires ip.Ok(op) && c < NDIRECT && EntryOf(c) == c
    modifies ip`blks, op`view, op`dirty, op`freeBnums
    ensures ip.Ok(op) && Pruned(old(op.view), old(ip.blks), op.view, ip.blks, c, freed)
    ensures op.freeBnums == old(op.freeBnums) + freed
    ensures forall b :: b in op.dirty ==> b in old(op.dirty) || AtOrAbove(old(op.view), old(ip.blks), c, b)
  {
    ghost var v, blks, d0 := op.view, ip.blks, op.dirty;
    NothingCut(v, blks[c], 0, 0);
    ghost var e := Prune(v, blks, c, v, [], op.mine);
    PruneStep(e);
    if ip.blks[c] != 0 { PruneRoot(e); PruneDirty(e, ip.blks[c]); }
    FreeIndex(ip, op, c);
    freed := if blks[c] == 0 then [] else [blks[c]];
    assert freed == e.Freed();
    PrunedShed(v, blks, op.view, ip.blks, c, freed, op.mine);
    ShedOk(v, blks, op.view, ip.blks, freed, op.mine);
  }

  /** Cuts the tree below entry k at leaf off, and frees the entry if it starts there. */
  method PruneEntry(ip: Inode, op: AllocTxn, ghost c: nat, k: nat, off: nat) returns (ghost freed: seq<nat>)
    requires ip.Ok(op) && c < MaxBlocks() && k == EntryOf(c) < NBLKINO && c == Base(k) + off && off < Span(Level(k))
    requires SlotOf(c) == [k] + PathOf(Level(k), off)
    modifies ip`blks, op`view, op`dirty, op`freeBnums
    ensures ip.Ok(op) && Pruned(old(op.view), old(ip.blks), op.view, ip.blks, c, freed)
    ensures op.freeBnums == old(op.freeBnums) + freed
    ensures forall b :: b in op.dirty ==> b in old(op.dirty) || AtOrAbove(old(op.view), old(ip.blks), c, b)
  {
    ghost var v, blks, d0 := op.view, ip.blks, op.dirty;
    EntryOk(v, blks, op.mine, k);
    var freeroot;
    freeroot, freed := IndShrink(op, ip.blks[k], Level(k), off);
    ghost var e := Prune(v, blks, c, op.view, freed, op.mine);
    PruneStep(e);
    if freeroot != 0 {
      PruneRoot(e);
      FreeIndex(ip, op, k);
      freed := freed + [freeroot];
    }
    assert ip.blks == e.Blks();
    PrunedShed(v, blks, op.view, ip.blks, c, freed, op.mine);
    ShedOk(v, blks, op.view, ip.blks, freed, op.mine);
    forall b | b in op.dirty && b !in d0 ensures AtOrAbove(v, blks, c, b) {
      PruneDirty(e, b);
    }
  }

  /** What one call of Shrink does to the inode: view, pointers and cursor before and after. */
  datatype Snap = Snap(v: View, blks: seq<nat>, size: nat, shrinkSize: nat)
  {
    /** No pointer of a well-kept inode starts at or above this block. */
    function Top(): nat { Max(shrinkSize, RoundUp(size)) }
  }

  ghost function Snapshot(ip: Inode, op: AllocTxn): Snap
    reads ip, op
  {
    Snap(op.view, ip.blks, ip.size, ip.shrinkSize)
  }

  /** From s to t the cursor only moved down, never past the size, and exactly what starts
      between the two cursors was freed; with it went what hung below.  If every pointer
      started below the cursor, then what is left is the file up to the new one. */
  ghost predicate Shrank(s: Snap, t: Snap, freed: seq<nat>) {
    && t.size == s.size && t.shrinkSize <= s.shrinkSize && (t.shrinkSize < s.shrinkSize ==>
          RoundUp(t.size) <= t.shrinkSize)
    && Shed(s.v, s.blks, t.v, t.blks, freed) && Cleared(s.v, s.blks, t.v, t.blks, t.shrinkSize, s.shrinkSize, freed)
    && (LeavesBelow(s.v, s.blks, s.Top()) ==> LeavesBelow(t.v, t.blks, t.Top()))
    && (Below(s.v, s.blks, s.Top()) ==>
          ShrunkTo(s.v, s.blks, t.v, t.blks, t.Top(), freed) && Below(t.v, t.blks, t.Top()))
  }

  lemma ShrankNothing(s: Snap)
    requires |s.blks| == NBLKINO
    ensures Shrank(s, s, [])
  {
    ShedNothing(s.v, s.blks);
    ClearedNothing(s.v, s.blks, s.shrinkSize);
    if Below(s.v, s.blks, s.Top()) { ShrunkNothing(s.v, s.blks, s.Top()); }
  }

  lemma ShrankJoin(s: Snap, t: Snap, u: Snap, f: seq<nat>, g: seq<nat>, dom: set<nat>)
    requires InodeOk(s.v, s.blks, dom) && Shrank(s, t, f) && Shrank(t, u, g)
    ensures Shrank(s, u, f + g)
  {
    ShedJoin(s.v, s.blks, t.v, t.blks, u.v, u.blks, f, g);
    ClearedJoin(s.v, s.blks, t.v, t.blks, u.v, u.blks, u.shrinkSize, t.shrinkSize, s.shrinkSize, f, g);
    if Below(s.v, s.blks, s.Top()) {
      ShrunkJoin(s.v, s.blks, t.v, t.blks, u.v, u.blks, t.Top(), u.Top(), f, g, dom);
    }
  }

  /** One step at cursor c = shrinkSize - 1. */
  lemma ShrankStep(s: Snap, t: Snap, freed: seq<nat>, dom: set<nat>)
    requires InodeOk(s.v, s.blks, dom) && RoundUp(s.size) < s.shrinkSize <= MaxBlocks()
    requires t.size == s.size && t.shrinkSize == s.shrinkSize - 1
    requires Pruned(s.v, s.blks, t.v, t.blks, t.shrinkSize, freed)
    ensures Shrank(s, t, freed)
  {
    PrunedShed(s.v, s.blks, t.v, t.blks, t.shrinkSize, freed, dom);
    ClearedStep(s.v, s.blks, t.v, t.blks, t.shrinkSize, freed);
    if LeavesBelow(s.v, s.blks, s.Top()) { PrunedLeaves(s.v, s.blks, t.v, t.blks, t.shrinkSize, freed); }
    if Below(s.v, s.blks, s.Top()) { PrunedTo(s.v, s.blks, t.v, t.blks, t.shrinkSize, freed, dom); }
  }

  /** One round of the loop in Shrink: the cursor moves down by one block. */
  method ShrinkOnce(ip: Inode, op: AllocTxn) returns (ghost freed: seq<nat>)
    requires ip.Ok(op) && IsShrinking(ip) && ip.shrinkSize <= MaxBlocks()
    modifies ip`blks, ip`shrinkSize, op`view, op`dirty, op`freeBnums
    ensures ip.Ok(op) && ip.shrinkSize == old(ip.shrinkSize) - 1
    ensures Shrank(old(Snapshot(ip, op)), Snapshot(ip, op), freed)
    ensures op.freeBnums == old(op.freeBnums) + freed
    ensures |op.dirty| <= old(|op.dirty|) + 3
  {
    ghost var s1, d1 := Snapshot(ip, op), op.dirty;
    ip.shrinkSize := ip.shrinkSize - 1;
    freed := ShrinkAt(ip, op, ip.shrinkSize);
    ShrankStep(s1, Snapshot(ip, op), freed, op.mine);
    AtMostThree(s1.v, s1.blks, ip.shrinkSize, d1, op.dirty);
  }

  /** Frees blocks from the cursor down while the transaction has room, and says whether
      there is more to free. */
  method Shrink(ip: Inode, op: AllocTxn) returns (more: bool, ghost freed: seq<nat>)
    requires ip.Ok(op) && ip.shrinkSize <= MaxBlocks()
    modifies ip`blks, ip`shrinkSize, op`view, op`dirty, op`freeBnums, op`dirtyInodes
    ensures ip.Ok(op) && (more <==> ip.shrinkSize > RoundUp(ip.size))
    ensures Shrank(old(Snapshot(ip, op)), Snapshot(ip, op), freed)
    ensures op.freeBnums == old(op.freeBnums) + freed
    ensures op.dirtyInodes == old(op.dirtyInodes)[ip.inum := ip.Record()]
    ensures |op.dirty| + |op.dirtyInodes| <= Max(old(|op.dirty| + |op.dirtyInodes|), LOGBLOCKS - 3) + 1
    ensures more ==> |op.dirty| + old(|op.dirtyInodes|) + 5 >= LOGBLOCKS
    ensures old(ip.shrinkSize > RoundUp(ip.size) && |op.dirty| + |op.dirtyInodes| + 5 < LOGBLOCKS) ==>
              ip.shrinkSize < old(ip.shrinkSize)
  {
    freed := ShrinkLoop(ip, op);
    ip.WriteInode(op);
    more := IsShrinking(ip);
  }

  method ShrinkLoop(ip: Inode, op: AllocTxn) returns (ghost freed: seq<nat>)
    requires ip.Ok(op) && ip.shrinkSize <= MaxBlocks()
    modifies ip`blks, ip`shrinkSize, op`view, op`dirty, op`freeBnums
    ensures ip.Ok(op) && Shrank(old(Snapshot(ip, op)), Snapshot(ip, op), freed)
    ensures op.freeBnums == old(op.freeBnums) + freed
    ensures op.NDirty() <= Max(old(op.NDirty()), LOGBLOCKS - 3)
    ensures !(IsShrinking(ip) && ShrinkFits(op, 5))
    ensures old(IsShrinking(ip) && ShrinkFits(op, 5)) ==> ip.shrinkSize < old(ip.shrinkSize)
  {
    ghost var s0, fb0 := Snapshot(ip, op), op.freeBnums;
    freed := [];
    assert Shrank(s0, s0, freed) by { ShrankNothing(s0); }
    while IsShrinking(ip) && ShrinkFits(op, 5)
      invariant ip.Ok(op) && ip.shrinkSize <= s0.shrinkSize
      invariant Shrank(s0, Snapshot(ip, op), freed)
      invariant op.freeBnums == fb0 + freed
      invariant op.NDirty() <= Max(old(op.NDirty()), LOGBLOCKS - 3)
      invariant ip.shrinkSize == s0.shrinkSize ==> op.dirty == old(op.dirty)
      decreases ip.shrinkSize
    {
      freed := ShrinkMore(ip, op, s0, fb0, freed);
    }
  }

  /** One more step after those since s0. */
  method ShrinkMore(ip: Inode, op: AllocTxn, ghost s0: Snap, ghost fb0: seq<nat>, ghost f0: seq<nat>)
    returns (ghost freed: seq<nat>)
    requires ip.Ok(op) && IsShrinking(ip) && ip.shrinkSize <= MaxBlocks() && ShrinkFits(op, 5)
    requires InodeOk(s0.v, s0.blks, op.mine) && Shrank(s0, Snapshot(ip, op), f0) && op.freeBnums == fb0 + f0
    modifies ip`blks, ip`shrinkSize, op`view, op`dirty, op`freeBnums
    ensures ip.Ok(op) && ip.shrinkSize == old(ip.shrinkSize) - 1
    ensures Shrank(s0, Snapshot(ip, op), freed)
    ensures op.freeBnums == fb0 + freed
    ensures op.NDirty() <= LOGBLOCKS - 3
  {
    ghost var s1 := Snapshot(ip, op);
    ghost var f := ShrinkOnce(ip, op);
    assert Shrank(s0, Snapshot(ip, op), f0 + f) by { ShrankJoin(s0, s1, Snapshot(ip, op), f0, f, op.mine); }
    freed := f0 + f;
  }

  /** Sets the size; a file that gets shorter starts to shrink, here and now if that fits
      in the transaction, else the caller is told to start a shrinker. */
  method Resize(ip: Inode, atxn: AllocTxn, sz: nat) returns (doshrink: bool, ghost freed: seq<nat>)
    requires ip.Ok(atxn) && ip.size <= MaxFileSize() && sz <= MaxFileSize()
    modifies ip`size, ip`blks, ip`shrinkSize, atxn`view, atxn`dirty, atxn`freeBnums, atxn`dirtyInodes
    ensures ip.Ok(atxn) && ip.size == sz && ip.shrinkSize <= MaxBlocks()
    ensures Shrank(Snap(old(atxn.view), old(ip.blks), sz, Max(RoundUp(old(ip.size)), RoundUp(sz))),
                   Snapshot(ip, atxn), freed)
    ensures atxn.freeBnums == old(atxn.freeBnums) + freed
    ensures atxn.dirtyInodes == old(atxn.dirtyInodes)[ip.inum := ip.Record()]
    ensures RoundUp(sz) >= RoundUp(old(ip.size)) ==>
              !doshrink && freed == [] && ip.blks == old(ip.blks) && atxn.view == old(atxn.view)
    ensures doshrink <==>
              var n, m := RoundUp(old(ip.size)), RoundUp(sz);
              m < n && old(|atxn.dirty|) + |old(atxn.dirtyInodes).Keys + {ip.inum}| + (n - m) >= LOGBLOCKS
    ensures doshrink ==> freed == [] && ip.shrinkSize == RoundUp(old(ip.size)) > RoundUp(sz)
    ensures ip.shrinkSize > RoundUp(sz) ==> doshrink || |atxn.dirty| + |atxn.dirtyInodes| + 5 >= LOGBLOCKS
  {
    doshrink, freed := false, [];
    var oldsz, newSz := SetSize(ip, atxn, sz);
    if newSz < oldsz {
      doshrink, freed := ShrinkNow(ip, atxn, oldsz - newSz);
    } else {
      ShrankNothing(Snapshot(ip, atxn));
    }
  }

  /** Shrinks here and now if nblk more dirty blocks fit in the transaction. */
  method ShrinkNow(ip: Inode, atxn: AllocTxn, nblk: nat) returns (doshrink: bool, ghost freed: seq<nat>)
    requires ip.Ok(atxn) && ip.shrinkSize <= MaxBlocks()
    requires ip.inum in atxn.dirtyInodes && atxn.dirtyInodes[ip.inum] == ip.Record()
    modifies ip`blks, ip`shrinkSize, atxn`view, atxn`dirty, atxn`freeBnums, atxn`dirtyInodes
    ensures ip.Ok(atxn) && Shrank(old(Snapshot(ip, atxn)), Snapshot(ip, atxn), freed)
    ensures atxn.freeBnums == old(atxn.freeBnums) + freed
    ensures atxn.dirtyInodes == old(atxn.dirtyInodes)[ip.inum := ip.Record()]
    ensures doshrink <==> old(|atxn.dirty| + |atxn.dirtyInodes|) + nblk >= LOGBLOCKS
    ensures doshrink ==> freed == [] && ip.shrinkSize == old(ip.shrinkSize)
    ensures ip.shrinkSize > RoundUp(ip.size) ==> doshrink || |atxn.dirty| + |atxn.dirtyInodes| + 5 >= LOGBLOCKS
  {
    doshrink, freed := false, [];
    if ShrinkFits(atxn, nblk) {
      var more;
      more, freed := Shrink(ip, atxn);
    } else {
      ShrankNothing(Snapshot(ip, atxn));
      doshrink := true;
    }
  }

  /** The first part of Resize: size and cursor, written back. */
  method SetSize(ip: Inode, atxn: AllocTxn, sz: nat) returns (oldsz: nat, newSz: nat)
    requires ip.Ok(atxn) && ip.size <= MaxFileSize() && sz <= MaxFileSize()
    modifies ip`size, ip`shrinkSize, atxn`dirtyInodes
    ensures ip.Ok(atxn) && ip.size == sz && oldsz == RoundUp(old(ip.size)) && newSz == RoundUp(sz)
    ensures ip.shrinkSize == Max(oldsz, newSz) <= MaxBlocks()
    ensures atxn.dirtyInodes == old(atxn.dirtyInodes)[ip.inum := ip.Record()]
    ensures |atxn.dirtyInodes| == |old(atxn.dirtyInodes).Keys + {ip.inum}|
  {
    RoundUpInRange(ip.size);
    RoundUpInRange(sz);
    oldsz := RoundUp(ip.size);
    ip.size := sz;
    newSz := RoundUp(sz);
    if newSz < oldsz {
      ip.shrinkSize := oldsz;
    } else {
      ip.shrinkSize := newSz;
    }
    ip.WriteInode(atxn);
    assert atxn.dirtyInodes.Keys == old(atxn.dirtyInodes).Keys + {ip.inum};
  }

  /** Shrink exactness: an inode without stray pointers, resized and then shrunk to the
      end, has lost exactly what starts at or above its new size. */
  lemma ResizedAndShrunk(v: View, blks: seq<nat>, dom: set<nat>, size: nat, sz: nat, mid: Snap, end: Snap,
                         f: seq<nat>, g: seq<nat>)
    requires InodeOk(v, blks, dom) && Below(v, blks, RoundUp(size))
    requires Shrank(Snap(v, blks, sz, Max(RoundUp(size), RoundUp(sz))), mid, f) && Shrank(mid, end, g)
    requires end.shrinkSize <= RoundUp(end.size)
    ensures end.size == sz && ShrunkTo(v, blks, end.v, end.blks, RoundUp(sz), f + g)
    ensures Below(end.v, end.blks, RoundUp(sz))
  {
    var s := Snap(v, blks, sz, Max(RoundUp(size), RoundUp(sz)));
    ShrankJoin(s, mid, end, f, g, dom);
  }

  /** All the blocks that a run of shrink transactions frees. */
  function Flat(fs: seq<seq<nat>>): seq<nat> {
    if fs == [] then [] else Flat(fs[..|fs| - 1]) + fs[|fs| - 1]
  }

  /** Any run of shrink transactions, with crashes in between that lose nothing but the
      transaction in flight, does what one long one would. */
  lemma {:induction false} ShrinkRun(run: seq<Snap>, fs: seq<seq<nat>>, dom: set<nat>)
    requires |run| == |fs| + 1 && InodeOk(run[0].v, run[0].blks, dom)
    requires forall i :: 0 <= i < |fs| ==> Shrank(run[i], run[i + 1], fs[i])
    ensures Shrank(run[0], run[|fs|], Flat(fs))
    decreases |fs|
  {
    if fs == [] {
      ShrankNothing(run[0]);
    } else {
      var n := |fs| - 1;
      ShrinkRun(run[..n + 1], fs[..n], dom);
      assert Shrank(run[n], run[n + 1], fs[n]);
      ShrankJoin(run[0], run[n], run[n + 1], Flat(fs[..n]), fs[n], dom);
    }
  }
}
