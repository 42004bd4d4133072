/** Shrinking a file over many steps and many transactions. */
module Shrinking {
  import opened Basics
  import opened Bytes
  import opened Tree
  import opened Slots
  import opened Pruning

  /** Block b is in a slot that starts at or above logical block n. */
  ghost predicate FromOn(v: View, blks: seq<nat>, n: nat, b: nat)
    requires |blks| == NBLKINO
  {
    b != 0 && exists s :: Slot(s) && First(s) >= n && At(v, blks, s) == b
  }

  /** The inode lost exactly the pointers that start at or above n; exactly their blocks
      were freed, each once; the file below n is untouched. */
  ghost predicate ShrunkTo(v: View, blks: seq<nat>, w: View, blks': seq<nat>, n: nat, freed: seq<nat>) {
    && |blks| == NBLKINO && |blks'| == NBLKINO
    && (forall s {:trigger At(w, blks', s)} :: Slot(s) ==>
          At(w, blks', s) == if First(s) >= n then 0 else At(v, blks, s))
    && (forall b :: b in freed <==> FromOn(v, blks, n, b))
    && (forall b :: b in freed ==> Blk(w, b) == ZeroBlock())
    && Distinct(freed)
    && (forall b {:trigger Blk(w, b)} :: !Owns(v, blks, b) ==> Blk(w, b) == Blk(v, b))
    && (forall k: nat :: k < n && k < MaxBlocks() ==> FileBlock(w, blks', k) == FileBlock(v, blks, k))
  }

  /** Where nothing is mapped, nothing is to be done. */
  lemma ShrunkNothing(v: View, blks: seq<nat>, n: nat)
    requires Below(v, blks, n)
    ensures ShrunkTo(v, blks, v, blks, n, [])
  {}

  // ------------------------------------------------------------------ one step

  lemma PrunedSlot(v: View, blks: seq<nat>, w: View, blks': seq<nat>, c: nat, freed: seq<nat>, s: seq<nat>)
    requires Pruned(v, blks, w, blks', c, freed) && Below(v, blks, c + 1) && Slot(s)
    ensures At(w, blks', s) == if First(s) >= c then 0 else At(v, blks, s)
    ensures At(v, blks, s) != 0 && First(s) >= c ==> First(s) == c
  {
    SlotCutFirst(c, s);
  }

  lemma PrunedContents(v: View, blks: seq<nat>, w: View, blks': seq<nat>, c: nat, freed: seq<nat>, dom: set<nat>,
                       k: nat)
    requires InodeOk(v, blks, dom) && Pruned(v, blks, w, blks', c, freed) && Below(v, blks, c + 1) && c < MaxBlocks()
    requires k < c
    ensures FileBlock(w, blks', k) == FileBlock(v, blks, k)
  {
    SlotOfBlock(k);
    SlotOfBlock(c);
    var x := SlotOf(k);
    PrunedSlot(v, blks, w, blks', c, freed, x);
    forall q | Slot(q) && q <= SlotOf(c) && At(v, blks, x) != 0 ensures At(v, blks, q) != At(v, blks, x) {
      if |q| == |SlotOf(c)| { assert q == SlotOf(c) && First(q) != First(x);
          } else { assert q[0] == SlotOf(c)[0] && !Leaf(q); }
    }
  }

  /** A step from cursor c + 1 shrinks the inode to c. */
  lemma PrunedTo(v: View, blks: seq<nat>, w: View, blks': seq<nat>, c: nat, freed: seq<nat>, dom: set<nat>)
    requires InodeOk(v, blks, dom) && Pruned(v, blks, w, blks', c, freed) && Below(v, blks, c + 1) && c < MaxBlocks()
    ensures ShrunkTo(v, blks, w, blks', c, freed) && Below(w, blks', c)
  {
    forall s | Slot(s)
      ensures At(w, blks', s) == if First(s) >= c then 0 else At(v, blks, s)
      ensures At(v, blks, s) != 0 && First(s) >= c ==> First(s) == c
    { PrunedSlot(v, blks, w, blks', c, freed, s); }
    forall b ensures FromOn(v, blks, c, b) <==> SlotAt(v, blks, c, b) {}
    forall b | !Owns(v, blks, b) ensures Blk(w, b) == Blk(v, b) {
      assert !AtOrAbove(v, blks, c, b);
    }
    forall k: nat | k < c && k < MaxBlocks() ensures FileBlock(w, blks', k) == FileBlock(v, blks, k) {
      PrunedContents(v, blks, w, blks', c, freed, dom, k);
    }
  }

  /** An index block that a refused allocation left behind is lost when the block above it
      goes: entry 9 holds r, and slot 1 of r holds q, an index block without leaves. */
  lemma StrayIndexLost(r: nat, q: nat, w: View, blks': seq<nat>, freed: seq<nat>)
    requires r != 0 && q != 0 && r != q && q < U64 && NBLKBLK > 1
    requires Pruned(map[r := PtrPut(ZeroBlock(), 1, q)], [0, 0, 0, 0, 0, 0, 0, 0, 0, r], w, blks', Base(DINDIRECT),
              freed)
    ensures Owns(map[r := PtrPut(ZeroBlock(), 1, q)], [0, 0, 0, 0, 0, 0, 0, 0, 0, r], q)
    ensures !Owns(w, blks', q) && q !in freed
  {
    var v: View, blks := map[r := PtrPut(ZeroBlock(), 1, q)], [0, 0, 0, 0, 0, 0, 0, 0, 0, r];
    PtrPutGet(ZeroBlock(), 1, q, 1);
    assert [DINDIRECT, 1][1..] == [1];
    assert Slot([DINDIRECT, 1]) && Walk(v, r, [1]) == Walk(v, PtrAt(v, r, 1), [1][1..]) == q;
    assert At(v, blks, [DINDIRECT, 1]) == q;
    Span1();
    forall s | Slot(s) && At(v, blks, s) != 0 ensures SlotCut(Base(DINDIRECT), s) {
      Span1();
      if s[0] != DINDIRECT { WalkNull(v, s[1..]); }
    }
    forall s | Slot(s) && First(s) == Base(DINDIRECT) ensures At(v, blks, s) != q {
      SameEntry(Base(DINDIRECT), s);
      StrayElsewhere(v, r, q, s[1..]);
    }
  }

  lemma StrayElsewhere(v: View, r: nat, q: nat, p: seq<nat>)
    requires r != 0 && q != 0 && r != q && q < U64 && NBLKBLK > 1 && v == map[r := PtrPut(ZeroBlock(), 1, q)]
    requires Path(2, p) && FirstIn(2, p) == 0
    ensures Walk(v, r, p) != q
  {
    if p != [] {
      Span1();
      PtrPutGet(ZeroBlock(), 1, q, 0);
      PtrGetZeros(0);
    }
  }

  // ---------------------------------------------------------------- many steps

  lemma JoinSlots(u: View, a: seq<nat>, v: View, b: seq<nat>, w: View, c: seq<nat>, n: nat, n': nat, f: seq<nat>,
                  g: seq<nat>, s: seq<nat>)
    requires ShrunkTo(u, a, v, b, n, f) && ShrunkTo(v, b, w, c, n', g) && n' <= n && Slot(s)
    ensures At(w, c, s) == if First(s) >= n' then 0 else At(u, a, s)
    ensures At(v, b, s) == if First(s) >= n then 0 else At(u, a, s)
  {}

  lemma JoinFreed(u: View, a: seq<nat>, v: View, b: seq<nat>, w: View, c: seq<nat>, n: nat, n': nat, f: seq<nat>,
                  g: seq<nat>, x: nat)
    requires ShrunkTo(u, a, v, b, n, f) && ShrunkTo(v, b, w, c, n', g) && n' <= n
    ensures x in f + g <==> FromOn(u, a, n', x)
  {
    if FromOn(u, a, n', x) {
      var s :| Slot(s) && First(s) >= n' && At(u, a, s) == x;
      JoinSlots(u, a, v, b, w, c, n, n', f, g, s);
      if First(s) < n { assert FromOn(v, b, n', x); } else { assert FromOn(u, a, n, x); }
    }
    if x in g {
      var s :| Slot(s) && First(s) >= n' && At(v, b, s) == x;
      JoinSlots(u, a, v, b, w, c, n, n', f, g, s);
      assert At(u, a, s) == x;
    } else if x in f {
      var s :| Slot(s) && First(s) >= n && At(u, a, s) == x;
    }
  }

  /** A block freed by the first run is no longer owned in the second. */
  lemma FreedNotOwned(u: View, a: seq<nat>, v: View, b: seq<nat>, n: nat, f: seq<nat>, dom: set<nat>, x: nat)
    requires InodeOk(u, a, dom) && ShrunkTo(u, a, v, b, n, f) && x in f
    ensures !Owns(v, b, x)
  {
    var s :| Slot(s) && First(s) >= n && At(u, a, s) == x;
    forall t | Slot(t) ensures At(v, b, t) != x {
      assert At(v, b, t) == if First(t) >= n then 0 else At(u, a, t);
    }
  }

  /** Runs of Shrink compose: freeing down to n and then to n' frees down to n'. */
  lemma ShrunkJoin(u: View, a: seq<nat>, v: View, b: seq<nat>, w: View, c: seq<nat>, n: nat, n': nat, f: seq<nat>,
                   g: seq<nat>, dom: set<nat>)
    requires InodeOk(u, a, dom) && ShrunkTo(u, a, v, b, n, f) && ShrunkTo(v, b, w, c, n', g) && n' <= n
    ensures ShrunkTo(u, a, w, c, n', f + g)
  {
    forall s | Slot(s) ensures At(w, c, s) == if First(s) >= n' then 0 else At(u, a, s) {
      JoinSlots(u, a, v, b, w, c, n, n', f, g, s);
    }
    forall x ensures x in f + g <==> FromOn(u, a, n', x) { JoinFreed(u, a, v, b, w, c, n, n', f, g, x); }
    forall x | x in f + g ensures Blk(w, x) == ZeroBlock() {
      if x in f { FreedNotOwned(u, a, v, b, n, f, dom, x); }
    }
    forall i, j | 0 <= i < j < |f + g| ensures (f + g)[i] != (f + g)[j] {
      if i < |f| <= j {
        FreedNotOwned(u, a, v, b, n, f, dom, f[i]);
        assert g[j - |f|] in g;
      }
    }
    forall x | !Owns(u, a, x) ensures Blk(w, x) == Blk(u, x) {
      assert Blk(v, x) == Blk(u, x);
      forall s | Slot(s) && x != 0 ensures At(v, b, s) != x {
        JoinSlots(u, a, v, b, w, c, n, n', f, g, s);
      }
    }
  }

  // ------------------------------------------- what holds even with stray blocks

  /** Pointers were only cleared, and only blocks that lost their pointer were freed. */
  ghost predicate Shed(v: View, blks: seq<nat>, w: View, blks': seq<nat>, freed: seq<nat>) {
    && |blks| == NBLKINO && |blks'| == NBLKINO
    && (forall s {:trigger At(w, blks', s)} :: Slot(s) ==> At(w, blks', s) == At(v, blks, s) || At(w, blks', s) == 0)
    && (forall b :: b in freed ==> Owns(v, blks, b) && !Owns(w, blks', b) && Blk(w, b) == ZeroBlock())
    && Distinct(freed)
    && (forall b {:trigger Blk(w, b)} :: !Owns(v, blks, b) ==> Blk(w, b) == Blk(v, b))
  }

  lemma ShedNothing(v: View, blks: seq<nat>)
    requires |blks| == NBLKINO
    ensures Shed(v, blks, v, blks, [])
  {}

  lemma PrunedShed(v: View, blks: seq<nat>, w: View, blks': seq<nat>, c: nat, freed: seq<nat>, dom: set<nat>)
    requires InodeOk(v, blks, dom) && Pruned(v, blks, w, blks', c, freed)
    ensures Shed(v, blks, w, blks', freed)
  {
    forall b | b in freed ensures Owns(v, blks, b) && !Owns(w, blks', b) {
      var s :| Slot(s) && First(s) == c && At(v, blks, s) == b;
      SlotCutFirst(c, s);
      forall t | Slot(t) ensures At(w, blks', t) != b {
        assert At(w, blks', t) == 0 || (!SlotCut(c, t) && At(w, blks', t) == At(v, blks, t));
      }
    }
    forall b | !Owns(v, blks, b) ensures Blk(w, b) == Blk(v, b) {
      assert !AtOrAbove(v, blks, c, b);
    }
  }

  lemma ShedOwns(u: View, a: seq<nat>, v: View, b: seq<nat>, f: seq<nat>, x: nat)
    requires Shed(u, a, v, b, f) && Owns(v, b, x)
    ensures Owns(u, a, x)
  {
    var s :| Slot(s) && At(v, b, s) == x;
    assert At(u, a, s) == x;
  }

  lemma ShedJoin(u: View, a: seq<nat>, v: View, b: seq<nat>, w: View, c: seq<nat>, f: seq<nat>, g: seq<nat>)
    requires Shed(u, a, v, b, f) && Shed(v, b, w, c, g)
    ensures Shed(u, a, w, c, f + g)
  {
    forall s | Slot(s) ensures At(w, c, s) == At(u, a, s) || At(w, c, s) == 0 {
      assert At(v, b, s) == At(u, a, s) || At(v, b, s) == 0;
    }
    forall x | x in f + g ensures Owns(u, a, x) && !Owns(w, c, x) && Blk(w, x) == ZeroBlock() {
      if x in f {
        if Owns(w, c, x) { ShedOwns(v, b, w, c, g, x); }
        assert Blk(w, x) == Blk(v, x);
      } else {
        ShedOwns(u, a, v, b, f, x);
      }
    }
    forall i, j | 0 <= i < j < |f + g| ensures (f + g)[i] != (f + g)[j] {
      if i < |f| <= j { assert f[i] in f && g[j - |f|] in g; }
    }
    forall x | !Owns(u, a, x) ensures Blk(w, x) == Blk(u, x) {
      if Owns(v, b, x) { ShedOwns(u, a, v, b, f, x); }
      assert Blk(v, x) == Blk(u, x);
    }
  }

  lemma PrunedLeaves(v: View, blks: seq<nat>, w: View, blks': seq<nat>, c: nat, freed: seq<nat>)
    requires Pruned(v, blks, w, blks', c, freed) && LeavesBelow(v, blks, c + 1)
    ensures LeavesBelow(w, blks', c)
  {
    forall s | Leaf(s) && At(w, blks', s) != 0 ensures First(s) < c {
      SlotCutFirst(c, s);
      assert At(v, blks, s) != 0;
    }
  }

  lemma ShedOk(v: View, blks: seq<nat>, w: View, blks': seq<nat>, freed: seq<nat>, dom: set<nat>)
    requires InodeOk(v, blks, dom) && Shed(v, blks, w, blks', freed)
    ensures InodeOk(w, blks', dom)
  {
    forall s, t | Slot(s) && Slot(t) && At(w, blks', s) == At(w, blks', t) != 0 ensures s == t {
      assert At(v, blks, s) == At(v, blks, t);
    }
    forall s | Slot(s) && At(w, blks', s) != 0 ensures At(w, blks', s) in dom {
      assert At(v, blks, s) == At(w, blks', s);
    }
  }

  // ----------------------------------------------- exactly what a call clears

  /** Slot s, or an index block above it, starts at a logical block from lo up to hi. */
  ghost predicate CutIn(lo: nat, hi: nat, s: seq<nat>)
    requires Slot(s)
  {
    exists c: nat :: lo <= c < hi && SlotCut(c, s)
  }

  /** Block b is in a slot that starts there. */
  ghost predicate StartsIn(v: View, blks: seq<nat>, lo: nat, hi: nat, b: nat)
    requires |blks| == NBLKINO
  {
    b != 0 && exists s :: Slot(s) && lo <= First(s) < hi && At(v, blks, s) == b
  }

  /** With the cursor moved from hi to lo, in any tree: cleared are exactly the slots that
      start between or lie below one that does, and freed exactly the blocks that start
      between. */
  ghost predicate Cleared(v: View, blks: seq<nat>, w: View, blks': seq<nat>, lo: nat, hi: nat, freed: seq<nat>) {
    && |blks| == NBLKINO && |blks'| == NBLKINO
    && (forall s {:trigger At(w, blks', s)} :: Slot(s) ==>
          At(w, blks', s) == if CutIn(lo, hi, s) then 0 else At(v, blks, s))
    && (forall b :: b in freed <==> StartsIn(v, blks, lo, hi, b))
  }

  lemma ClearedNothing(v: View, blks: seq<nat>, n: nat)
    requires |blks| == NBLKINO
    ensures Cleared(v, blks, v, blks, n, n, [])
  {}

  lemma ClearedStep(v: View, blks: seq<nat>, w: View, blks': seq<nat>, c: nat, freed: seq<nat>)
    requires Pruned(v, blks, w, blks', c, freed)
    ensures Cleared(v, blks, w, blks', c, c + 1, freed)
  {
    forall s | Slot(s) ensures CutIn(c, c + 1, s) <==> SlotCut(c, s) {}
    forall b ensures StartsIn(v, blks, c, c + 1, b) <==> SlotAt(v, blks, c, b) {}
  }

  /** A slot that starts below lo keeps its block. */
  lemma NotCutBelow(lo: nat, hi: nat, s: seq<nat>)
    requires Slot(s)
    ensures CutIn(lo, hi, s) ==> First(s) >= lo
    ensures lo <= First(s) < hi ==> CutIn(lo, hi, s)
  {
    if CutIn(lo, hi, s) {
      var c: nat :| lo <= c < hi && SlotCut(c, s);
      SlotCutFirst(c, s);
    }
    SlotCutFirst(First(s), s);
  }

  lemma CutInJoin(lo: nat, mid: nat, hi: nat, s: seq<nat>)
    requires lo <= mid <= hi && Slot(s)
    ensures CutIn(lo, hi, s) <==> CutIn(lo, mid, s) || CutIn(mid, hi, s)
  {
    if CutIn(lo, hi, s) {
      var c: nat :| lo <= c < hi && SlotCut(c, s);
      if c < mid { assert CutIn(lo, mid, s); }
    }
  }

  lemma ClearedFreed(u: View, a: seq<nat>, v: View, b: seq<nat>, lo: nat, mid: nat, hi: nat, f: seq<nat>, x: nat)
    requires Cleared(u, a, v, b, mid, hi, f) && lo <= mid <= hi
    ensures StartsIn(u, a, lo, hi, x) <==> x in f || StartsIn(v, b, lo, mid, x)
  {
    forall s | Slot(s) && First(s) < mid ensures At(v, b, s) == At(u, a, s) { NotCutBelow(mid, hi, s); }
    if StartsIn(u, a, lo, hi, x) {
      var s :| Slot(s) && lo <= First(s) < hi && At(u, a, s) == x;
      if First(s) < mid { assert At(v, b, s) == x; } else { assert StartsIn(u, a, mid, hi, x); }
    }
    if StartsIn(v, b, lo, mid, x) {
      var s :| Slot(s) && lo <= First(s) < mid && At(v, b, s) == x;
      assert At(u, a, s) == x;
    }
  }

  lemma ClearedJoin(u: View, a: seq<nat>, v: View, b: seq<nat>, w: View, c: seq<nat>, lo: nat, mid: nat, hi: nat,
                    f: seq<nat>, g: seq<nat>)
    requires Cleared(u, a, v, b, mid, hi, f) && Cleared(v, b, w, c, lo, mid, g) && lo <= mid <= hi
    ensures Cleared(u, a, w, c, lo, hi, f + g)
  {
    forall s | Slot(s) ensures At(w, c, s) == if CutIn(lo, hi, s) then 0 else At(u, a, s) {
      CutInJoin(lo, mid, hi, s);
      assert At(v, b, s) == if CutIn(mid, hi, s) then 0 else At(u, a, s);
    }
    forall x ensures x in f + g <==> StartsIn(u, a, lo, hi, x) { ClearedFreed(u, a, v, b, lo, mid, hi, f, x); }
  }

  /** A call loses no block if and only if no pointer that starts at or above the cursor
      hangs below an index block that starts where the cursor goes. */
  lemma CallExactIff(v: View, blks: seq<nat>, w: View, blks': seq<nat>, lo: nat, hi: nat, freed: seq<nat>,
                     dom: set<nat>)
    requires InodeOk(v, blks, dom) && Cleared(v, blks, w, blks', lo, hi, freed)
    ensures (forall b :: Owns(v, blks, b) && !Owns(w, blks', b) ==> b in freed) <==>
            (forall s :: Slot(s) && At(v, blks, s) != 0 && First(s) >= hi ==> !CutIn(lo, hi, s))
  {
    forall s | Slot(s) && At(v, blks, s) != 0
      ensures Owns(v, blks, At(v, blks, s)) && (CutIn(lo, hi, s) <==> !Owns(w, blks', At(v, blks, s)))
      ensures At(v, blks, s) in freed <==> lo <= First(s) < hi
      ensures CutIn(lo, hi, s) ==> First(s) >= lo
    {
      if !CutIn(lo, hi, s) { assert At(w, blks', s) == At(v, blks, s); }
      NotCutBelow(lo, hi, s);
      if Owns(w, blks', At(v, blks, s)) {
        var t :| Slot(t) && At(w, blks', t) == At(v, blks, s);
        assert At(v, blks, t) == At(v, blks, s);
      }
    }
    if forall b :: Owns(v, blks, b) && !Owns(w, blks', b) ==> b in freed {
      forall s | Slot(s) && At(v, blks, s) != 0 && First(s) >= hi ensures !CutIn(lo, hi, s) {
        assert Owns(v, blks, At(v, blks, s));
      }
    }
  }

  // ------------------------------------------------------------ the dirty blocks

  /** The blocks in slot s[..j] and in the index blocks above it. */
  ghost function Chain(v: View, blks: seq<nat>, s: seq<nat>, j: nat): (r: set<nat>)
    requires |blks| == NBLKINO && Slot(s) && j <= |s|
    ensures |r| <= j
  {
    if j == 0 then {} else Chain(v, blks, s, j - 1) + {At(v, blks, s[..j])}
  }

  lemma {:induction false} InChain(v: View, blks: seq<nat>, s: seq<nat>, q: seq<nat>, j: nat)
    requires |blks| == NBLKINO && Slot(s) && Slot(q) && q <= s && |q| <= j <= |s|
    ensures At(v, blks, q) in Chain(v, blks, s, j)
    decreases j
  {
    if |q| == j { assert s[..j] == q; } else { InChain(v, blks, s, q, j - 1); }
  }

  lemma SubsetCard(a: set<nat>, b: set<nat>)
    requires a <= b
    ensures |a| <= |b|
  {
    assert b == a + (b - a);
  }

  /** A step dirties at most the leaf at the cursor and two index blocks. */
  lemma AtMostThree(v: View, blks: seq<nat>, c: nat, dirty: set<nat>, dirty': set<nat>)
    requires |blks| == NBLKINO && c < MaxBlocks()
    requires forall b :: b in dirty' ==> b in dirty || AtOrAbove(v, blks, c, b)
    ensures |dirty'| <= |dirty| + 3
  {
    SlotOfBlock(c);
    var s := SlotOf(c);
    var chain := Chain(v, blks, s, |s|);
    forall b | b in dirty' && b !in dirty ensures b in chain {
      var q :| Slot(q) && q <= s && At(v, blks, q) == b;
      InChain(v, blks, s, q, |s|);
    }
    SubsetCard(dirty', dirty + chain);
  }
}
