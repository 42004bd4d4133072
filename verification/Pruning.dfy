/** One step of Shrink, seen from the inode: the cursor moves down to logical block c,
    and exactly the pointers whose first block is c are cleared and their blocks freed. */
module Pruning {
  import opened Basics
  import opened Bytes
  import opened Tree
  import opened Slots
  import opened Cutting

  /** Slot s, or an index block above it, starts at logical block c. */
  predicate SlotCut(c: nat, s: seq<nat>)
    requires Slot(s)
  {
    s[0] == SlotOf(c)[0] && c >= Base(s[0]) &&
    (c == Base(s[0]) || Cut(Level(s[0]), c - Base(s[0]), s[1..]))
  }

  /** The entry of the inode under which logical block c lies. */
  function EntryOf(c: nat): nat { SlotOf(c)[0] }

  lemma EntryOfBlock(c: nat)
    requires c < MaxBlocks()
    ensures EntryOf(c) < NBLKINO && Base(EntryOf(c)) <= c && c - Base(EntryOf(c)) < Span(Level(EntryOf(c)))
    ensures SlotOf(c) == [EntryOf(c)] + PathOf(Level(EntryOf(c)), c - Base(EntryOf(c)))
  {
    Span1();
  }

  /** A slot that starts at c lies below the entry of c. */
  lemma SameEntry(c: nat, s: seq<nat>)
    requires Slot(s) && First(s) == c
    ensures c < MaxBlocks() && EntryOf(c) == s[0]
  {
    Span1();
    FirstInBound(Level(s[0]), s[1..]);
  }

  lemma SlotCutFirst(c: nat, s: seq<nat>)
    requires Slot(s)
    ensures SlotCut(c, s) ==> First(s) >= c
    ensures First(s) == c ==> SlotCut(c, s)
  {
    if c >= Base(s[0]) { CutFirst(Level(s[0]), c - Base(s[0]), s[1..]); }
    if First(s) == c { SameEntry(c, s); }
  }

  /** A slot is cut if and only if it or a slot above it starts at c. */
  lemma SlotCutIff(c: nat, s: seq<nat>)
    requires Slot(s) && c < MaxBlocks()
    ensures SlotCut(c, s) <==> exists k: nat :: 0 < k <= |s| && Slot(s[..k]) && First(s[..k]) == c
  {
    EntryOfBlock(c);
    forall k: nat | 0 < k <= |s| ensures Slot(s[..k]) && s[..k][1..] == s[1..][..k - 1] {}
    if SlotCut(c, s) {
      if c == Base(s[0]) {
        assert First(s[..1]) == c;
      } else {
        var k := CutAncestor(Level(s[0]), c - Base(s[0]), s[1..]);
        assert First(s[..k + 1]) == c;
      }
    }
    if exists k: nat :: 0 < k <= |s| && Slot(s[..k]) && First(s[..k]) == c {
      var k: nat :| 0 < k <= |s| && Slot(s[..k]) && First(s[..k]) == c;
      SameEntry(c, s[..k]);
      if k > 1 { AncestorCut(Level(s[0]), c - Base(s[0]), s[1..], k - 1); }
    }
  }

  /** Block b is in a slot that starts at logical block c. */
  ghost predicate SlotAt(v: View, blks: seq<nat>, c: nat, b: nat)
    requires |blks| == NBLKINO
  {
    b != 0 && exists s :: Slot(s) && First(s) == c && At(v, blks, s) == b
  }

  /** Block b is the leaf at c or an index block above it. */
  ghost predicate AtOrAbove(v: View, blks: seq<nat>, c: nat, b: nat)
    requires |blks| == NBLKINO
  {
    b != 0 && exists s :: Slot(s) && s <= SlotOf(c) && At(v, blks, s) == b
  }

  /** The inode lost the pointers at cursor c; the blocks freed are those, each once. */
  ghost predicate Pruned(v: View, blks: seq<nat>, w: View, blks': seq<nat>, c: nat, freed: seq<nat>) {
    && |blks| == NBLKINO && |blks'| == NBLKINO
    && (forall s {:trigger At(w, blks', s)} :: Slot(s) ==>
          At(w, blks', s) == if SlotCut(c, s) then 0 else At(v, blks, s))
    && (forall b :: b in freed <==> SlotAt(v, blks, c, b))
    && (forall b :: b in freed ==> Blk(w, b) == ZeroBlock())
    && Distinct(freed)
    && (forall b {:trigger Blk(w, b)} :: !AtOrAbove(v, blks, c, b) ==> Blk(w, b) == Blk(v, b))
  }

  /** The situation in Shrink after indshrink has worked below entry k. */
  datatype Prune = Prune(v: View, blks: seq<nat>, c: nat, w: View, freed: seq<nat>, dom: set<nat>)
  {
    ghost function K(): nat { EntryOf(c) }
    ghost function Off(): nat requires c >= Base(K()) { c - Base(K()) }

    ghost predicate Ok() {
      && InodeOk(v, blks, dom) && c < MaxBlocks() && K() < NBLKINO && Base(K()) <= c && Off() < Span(Level(K()))
      && SlotOf(c) == [K()] + PathOf(Level(K()), Off())
      && Shrunk(v, blks[K()], w, Level(K()), Off(), freed)
    }

    /** The whole entry goes. */
    ghost predicate Gone() requires Ok() { Off() == 0 && blks[K()] != 0 }

    ghost function Done(): View
      requires Ok()
    {
      if Gone() then w[blks[K()] := ZeroBlock()] else w
    }

    ghost function Blks(): seq<nat>
      requires Ok()
    {
      if Off() == 0 then blks[K() := 0] else blks
    }

    ghost function Freed(): seq<nat>
      requires Ok()
    {
      if Gone() then freed + [blks[K()]] else freed
    }
  }

  lemma PruneRoot(e: Prune)
    requires e.Ok() && e.blks[e.K()] != 0
    ensures e.blks[e.K()] in e.dom && Slot([e.K()]) && At(e.v, e.blks, [e.K()]) == e.blks[e.K()]
  {
    EntrySlot(e.K(), []);
    assert [e.K()] + [] == [e.K()] && [e.K()][1..] == [];
    assert At(e.v, e.blks, [e.K()]) == e.blks[e.K()];
  }

  lemma PruneOtherNode(e: Prune, s: seq<nat>)
    requires e.Ok() && Slot(s) && s[0] != e.K() && At(e.v, e.blks, s) != 0
    ensures Blk(e.Done(), At(e.v, e.blks, s)) == Blk(e.v, At(e.v, e.blks, s))
  {
    var m := At(e.v, e.blks, s);
    forall q | q <= PathOf(Level(e.K()), e.Off()) ensures Walk(e.v, e.blks[e.K()], q) != m {
      PathOfInRange(Level(e.K()), e.Off());
      EntrySlot(e.K(), q);
      assert At(e.v, e.blks, [e.K()] + q) == Walk(e.v, e.blks[e.K()], q);
    }
    assert [] <= PathOf(Level(e.K()), e.Off()) && Walk(e.v, e.blks[e.K()], []) == e.blks[e.K()];
    assert Blk(e.w, m) == Blk(e.v, m);
  }

  lemma PruneOther(e: Prune, s: seq<nat>)
    requires e.Ok() && Slot(s) && s[0] != e.K()
    ensures At(e.Done(), e.Blks(), s) == At(e.v, e.blks, s)
  {
    var root := e.blks[s[0]];
    forall q | q < s[1..] && Walk(e.v, root, q) != 0
      ensures Blk(e.Done(), Walk(e.v, root, q)) == Blk(e.v, Walk(e.v, root, q))
    {
      EntrySlot(s[0], q);
      assert At(e.v, e.blks, [s[0]] + q) == Walk(e.v, root, q);
      PruneOtherNode(e, [s[0]] + q);
    }
    WalkFrame(e.v, e.Done(), root, s[1..]);
  }

  lemma PruneNode(e: Prune, s: seq<nat>)
    requires e.Ok() && Slot(s)
    ensures At(e.Done(), e.Blks(), s) == if SlotCut(e.c, s) then 0 else At(e.v, e.blks, s)
  {
    if s[0] != e.K() {
      PruneOther(e, s);
    } else if e.Off() == 0 {
      WalkNull(e.Done(), s[1..]);
    } else {
      assert Walk(e.w, e.blks[e.K()], s[1..]) ==
             if Cut(Level(e.K()), e.Off(), s[1..]) then 0 else Walk(e.v, e.blks[e.K()], s[1..]);
    }
  }

  lemma PruneStarts(e: Prune, b: nat)
    requires e.Ok()
    ensures SlotAt(e.v, e.blks, e.c, b) <==>
              StartsAt(e.v, e.blks[e.K()], Level(e.K()), e.Off(), b) || (e.Gone() && b == e.blks[e.K()])
  {
    if SlotAt(e.v, e.blks, e.c, b) {
      var s :| Slot(s) && First(s) == e.c && At(e.v, e.blks, s) == b;
      SameEntry(e.c, s);
      assert FirstIn(Level(e.K()), s[1..]) == e.Off();
    }
    if StartsAt(e.v, e.blks[e.K()], Level(e.K()), e.Off(), b) {
      var p :| Path(Level(e.K()), p) && p != [] && FirstIn(Level(e.K()), p) == e.Off() &&
          Walk(e.v, e.blks[e.K()], p) == b;
      EntrySlot(e.K(), p);
      assert First([e.K()] + p) == e.c && At(e.v, e.blks, [e.K()] + p) == b;
    }
    if e.Gone() && b == e.blks[e.K()] {
      PruneRoot(e);
      assert First([e.K()]) == e.c;
    }
  }

  lemma PruneFreedBelow(e: Prune, b: nat)
    requires e.Ok() && b in e.freed
    ensures b != e.blks[e.K()]
  {
    var p :| Path(Level(e.K()), p) && p != [] && Walk(e.v, e.blks[e.K()], p) == b;
    EntryOk(e.v, e.blks, e.dom, e.K());
    NodesDiffer(e.v, e.blks[e.K()], Level(e.K()), e.dom, p, []);
  }

  lemma PruneFreed(e: Prune)
    requires e.Ok()
    ensures forall b :: b in e.Freed() <==> SlotAt(e.v, e.blks, e.c, b)
    ensures forall b :: b in e.Freed() ==> Blk(e.Done(), b) == ZeroBlock()
    ensures Distinct(e.Freed())
  {
    forall b ensures b in e.Freed() <==> SlotAt(e.v, e.blks, e.c, b) { PruneStarts(e, b); }
    forall b | b in e.Freed() ensures Blk(e.Done(), b) == ZeroBlock() {
      if b in e.freed { PruneFreedBelow(e, b); }
    }
    forall i, j | 0 <= i < j < |e.Freed()| ensures e.Freed()[i] != e.Freed()[j] {
      assert e.freed[i] in e.freed;
      if j == |e.freed| { PruneFreedBelow(e, e.freed[i]); }
    }
  }

  lemma PruneFrame(e: Prune, b: nat)
    requires e.Ok() && !AtOrAbove(e.v, e.blks, e.c, b)
    ensures Blk(e.Done(), b) == Blk(e.v, b)
  {
    var t := PathOf(Level(e.K()), e.Off());
    PathOfInRange(Level(e.K()), e.Off());
    forall q | q <= t && b != 0 ensures Walk(e.v, e.blks[e.K()], q) != b {
      EntrySlot(e.K(), q);
      assert [e.K()] + q <= SlotOf(e.c) && At(e.v, e.blks, [e.K()] + q) == Walk(e.v, e.blks[e.K()], q);
    }
    assert [] <= t && Walk(e.v, e.blks[e.K()], []) == e.blks[e.K()];
    assert Blk(e.w, b) == Blk(e.v, b);
  }

  /** One step of Shrink. */
  lemma PruneStep(e: Prune)
    requires e.Ok()
    ensures Pruned(e.v, e.blks, e.Done(), e.Blks(), e.c, e.Freed())
  {
    forall s | Slot(s)
      ensures At(e.Done(), e.Blks(), s) == if SlotCut(e.c, s) then 0 else At(e.v, e.blks, s)
    { PruneNode(e, s); }
    PruneFreed(e);
    forall b | !AtOrAbove(e.v, e.blks, e.c, b) ensures Blk(e.Done(), b) == Blk(e.v, b) { PruneFrame(e, b); }
  }

  lemma PruneDirty(e: Prune, b: nat)
    requires e.Ok() && b != 0
    requires b == e.blks[e.K()] || Along(e.v, e.blks[e.K()], PathOf(Level(e.K()), e.Off()), b)
    ensures AtOrAbove(e.v, e.blks, e.c, b)
  {
    if b == e.blks[e.K()] {
      PruneRoot(e);
      assert [e.K()] <= SlotOf(e.c);
    } else {
      var q :| q <= PathOf(Level(e.K()), e.Off()) && Walk(e.v, e.blks[e.K()], q) == b;
      PathOfInRange(Level(e.K()), e.Off());
      EntrySlot(e.K(), q);
      assert [e.K()] + q <= SlotOf(e.c) && At(e.v, e.blks, [e.K()] + q) == b;
    }
  }
}
