/** How indshrink cuts the block tree: the node at the cursor goes, with the index
    blocks whose first leaf it is, and nothing else. */
module Cutting {
  import opened Basics
  import opened Arith
  import opened Bytes
  import opened Tree
  import opened Growth

  /** The node at path p, or an index block above it, starts at leaf bn. */
  predicate Cut(level: nat, bn: nat, p: seq<nat>)
    requires |p| <= level
    decreases p
  {
    p != [] && p[0] == Quot(bn, Span(level - 1)) &&
    (Rem(bn, Span(level - 1)) == 0 || Cut(level - 1, Rem(bn, Span(level - 1)), p[1..]))
  }

  /** A cut node starts at or after bn, and a node that starts at bn is cut. */
  lemma {:induction false} CutFirst(level: nat, bn: nat, p: seq<nat>)
    requires Path(level, p)
    ensures Cut(level, bn, p) ==> FirstIn(level, p) >= bn
    ensures p != [] && FirstIn(level, p) == bn ==> Cut(level, bn, p)
    decreases p
  {
    if p != [] {
      var s := Span(level - 1);
      QuotRem(bn, s);
      CutFirst(level - 1, Rem(bn, s), p[1..]);
      FirstInBound(level - 1, p[1..]);
      Digits(p[0], FirstIn(level - 1, p[1..]), s);
    }
  }

  /** A cut node is one on the way to which some node starts at bn. */
  lemma {:induction false} CutAncestor(level: nat, bn: nat, p: seq<nat>) returns (k: nat)
    requires Path(level, p) && Cut(level, bn, p)
    ensures 0 < k <= |p| && FirstIn(level, p[..k]) == bn
    decreases p
  {
    var s := Span(level - 1);
    QuotRem(bn, s);
    k := 1;
    if Rem(bn, s) == 0 {
      assert p[..1][1..] == [];
    } else {
      k := CutAncestor(level - 1, Rem(bn, s), p[1..]);
      assert p[..k + 1][1..] == p[1..][..k];
      k := k + 1;
    }
  }

  lemma {:induction false} AncestorCut(level: nat, bn: nat, p: seq<nat>, k: nat)
    requires Path(level, p) && 0 < k <= |p| && FirstIn(level, p[..k]) == bn
    ensures Cut(level, bn, p)
    decreases p
  {
    var s, q := Span(level - 1), p[..k][1..];
    assert q == p[1..][..k - 1];
    FirstInBound(level - 1, q);
    Digits(p[0], FirstIn(level - 1, q), s);
    if k > 1 { AncestorCut(level - 1, FirstIn(level - 1, q), p[1..], k - 1); }
  }

  /** Block b is a node on path t, the end included. */
  ghost predicate Along(v: View, root: nat, t: seq<nat>, b: nat) {
    b != 0 && exists q :: q <= t && Walk(v, root, q) == b
  }

  /** Block b is at a node below root that starts at leaf bn. */
  ghost predicate StartsAt(v: View, root: nat, level: nat, bn: nat, b: nat) {
    b != 0 && exists p :: Path(level, p) && p != [] && FirstIn(level, p) == bn && Walk(v, root, p) == b
  }

  ghost predicate NodesCut(v: View, root: nat, w: View, level: nat, bn: nat) {
    forall p {:trigger Walk(w, root, p)} :: Path(level, p) ==>
      Walk(w, root, p) == if Cut(level, bn, p) then 0 else Walk(v, root, p)
  }

  /** The blocks in freed are exactly the nodes that start at leaf bn, each once, and zero. */
  ghost predicate FreedAt(v: View, root: nat, w: View, level: nat, bn: nat, freed: seq<nat>) {
    && (forall b :: b in freed <==> StartsAt(v, root, level, bn, b))
    && (forall b :: b in freed ==> Blk(w, b) == ZeroBlock())
    && Distinct(freed)
  }

  /** The tree below root lost the nodes at leaf bn. */
  ghost predicate Shrunk(v: View, root: nat, w: View, level: nat, bn: nat, freed: seq<nat>) {
    && NodesCut(v, root, w, level, bn)
    && FreedAt(v, root, w, level, bn, freed)
    && (forall b {:trigger Blk(w, b)} :: !Along(v, root, PathOf(level, bn), b) ==> Blk(w, b) == Blk(v, b))
  }

  /** A tree without a node at the cursor does not change. */
  lemma NothingCut(v: View, root: nat, level: nat, bn: nat)
    requires bn < Span(level)
    requires root == 0 || level == 0 || PtrAt(v, root, Quot(bn, Span(level - 1))) == 0
    ensures Shrunk(v, root, v, level, bn, [])
  {
    forall p | Path(level, p) && Cut(level, bn, p) ensures Walk(v, root, p) == 0 {
      if root != 0 { WalkNull(v, p[1..]); }
    }
    forall p | Path(level, p) && p != [] && FirstIn(level, p) == bn ensures Walk(v, root, p) == 0 {
      CutFirst(level, bn, p);
    }
  }

  /** The situation after the recursive call of indshrink on slot o of root. */
  datatype Trim = Trim(v: View, root: nat, level: nat, bn: nat, w: View, freed: seq<nat>, dom: set<nat>)
  {
    ghost function O(): nat requires level > 0 { Quot(bn, Span(level - 1)) }
    ghost function Ind(): nat requires level > 0 { Rem(bn, Span(level - 1)) }
    ghost function Nxt(): nat requires level > 0 { PtrAt(v, root, O()) }

    ghost predicate Ok() {
      && level > 0 && root != 0 && bn < Span(level) && TreeOk(v, root, level, dom)
      && O() < NBLKBLK && Nxt() != 0 && Path(level - 1, PathOf(level - 1, Ind()))
      && Shrunk(v, Nxt(), w, level - 1, Ind(), freed)
    }

    /** The view after the pointer is cleared and the child is zeroed, if it goes. */
    ghost function Done(): View
      requires level > 0 && O() < NBLKBLK
    {
      if Ind() == 0 then w[root := PtrPut(Blk(w, root), O(), 0)][Nxt() := ZeroBlock()] else w
    }

    ghost function Freed(): seq<nat>
      requires level > 0
    {
      if Ind() == 0 then freed + [Nxt()] else freed
    }
  }

  lemma TrimRoot(k: Trim)
    requires k.Ok()
    ensures k.root in k.dom && k.Nxt() in k.dom && k.Nxt() != k.root && Blk(k.w, k.root) == Blk(k.v, k.root)
  {
    assert Path(k.level, []) && Walk(k.v, k.root, []) == k.root;
    RootNotBelow(k.v, k.root, k.level, k.O(), [], k.dom);
    ChildPath(k.level, k.O(), []);
    ChildWalk(k.v, k.root, k.O(), []);
    assert Walk(k.v, k.Nxt(), []) == k.Nxt();
    forall q | q <= PathOf(k.level - 1, k.Ind()) ensures Walk(k.v, k.Nxt(), q) != k.root {
      RootNotBelow(k.v, k.root, k.level, k.O(), q, k.dom);
    }
  }

  lemma TrimPointers(k: Trim, a: nat)
    requires k.Ok() && a < NBLKBLK
    ensures PtrAt(k.Done(), k.root, a) == if a == k.O() && k.Ind() == 0 then 0 else PtrAt(k.v, k.root, a)
  {
    TrimRoot(k);
    PtrPutGet(Blk(k.w, k.root), k.O(), 0, a);
  }

  lemma TrimSiblingNode(k: Trim, a: nat, q: seq<nat>)
    requires k.Ok() && a != k.O() && a < NBLKBLK && Path(k.level - 1, q)
    requires Walk(k.v, PtrAt(k.v, k.root, a), q) != 0
    ensures Blk(k.Done(), Walk(k.v, PtrAt(k.v, k.root, a), q)) == Blk(k.v, Walk(k.v, PtrAt(k.v, k.root, a), q))
  {
    var m := Walk(k.v, PtrAt(k.v, k.root, a), q);
    var t := PathOf(k.level - 1, k.Ind());
    RootNotBelow(k.v, k.root, k.level, a, q, k.dom);
    ChildPath(k.level, a, q);
    ChildWalk(k.v, k.root, a, q);
    forall q' | q' <= t ensures Walk(k.v, k.Nxt(), q') != m {
      ChildPath(k.level, k.O(), q');
      ChildWalk(k.v, k.root, k.O(), q');
      assert ([a] + q)[0] != ([k.O()] + q')[0];
      NodesDiffer(k.v, k.root, k.level, k.dom, [a] + q, [k.O()] + q');
    }
    assert [] <= t && Walk(k.v, k.Nxt(), []) == k.Nxt();
    assert Blk(k.w, m) == Blk(k.v, m);
  }

  lemma TrimSibling(k: Trim, a: nat, p: seq<nat>)
    requires k.Ok() && a != k.O() && a < NBLKBLK && Path(k.level - 1, p)
    ensures Walk(k.Done(), PtrAt(k.v, k.root, a), p) == Walk(k.v, PtrAt(k.v, k.root, a), p)
  {
    var top := PtrAt(k.v, k.root, a);
    forall q | q < p && Walk(k.v, top, q) != 0
      ensures Blk(k.Done(), Walk(k.v, top, q)) == Blk(k.v, Walk(k.v, top, q))
    {
      TrimSiblingNode(k, a, q);
    }
    WalkFrame(k.v, k.Done(), top, p);
  }

  lemma TrimNode(k: Trim, p: seq<nat>)
    requires k.Ok() && Path(k.level, p)
    ensures Walk(k.Done(), k.root, p) == if Cut(k.level, k.bn, p) then 0 else Walk(k.v, k.root, p)
  {
    if p != [] {
      TrimPointers(k, p[0]);
      assert Path(k.level - 1, p[1..]);
      if p[0] != k.O() {
        TrimSibling(k, p[0], p[1..]);
      } else if k.Ind() == 0 {
        WalkNull(k.Done(), p[1..]);
      } else {
        assert Walk(k.w, k.Nxt(), p[1..]) ==
               if Cut(k.level - 1, k.Ind(), p[1..]) then 0 else Walk(k.v, k.Nxt(), p[1..]);
      }
    }
  }

  /** A node that starts at bn lies in slot O and starts at Ind there. */
  lemma TrimStarts(k: Trim, b: nat)
    requires k.Ok()
    ensures StartsAt(k.v, k.root, k.level, k.bn, b) <==>
              StartsAt(k.v, k.Nxt(), k.level - 1, k.Ind(), b) || (k.Ind() == 0 && b == k.Nxt())
  {
    if StartsAt(k.v, k.root, k.level, k.bn, b) {
      var p :| Path(k.level, p) && p != [] && FirstIn(k.level, p) == k.bn && Walk(k.v, k.root, p) == b;
      TrimStartsBelow(k, p);
    }
    if StartsAt(k.v, k.Nxt(), k.level - 1, k.Ind(), b) {
      var t :| Path(k.level - 1, t) && t != [] && FirstIn(k.level - 1, t) == k.Ind() && Walk(k.v, k.Nxt(), t) == b;
      TrimChildStarts(k, t);
    }
    if k.Ind() == 0 && b == k.Nxt() {
      TrimChildStarts(k, []);
    }
  }

  lemma TrimStartsBelow(k: Trim, p: seq<nat>)
    requires k.Ok() && Path(k.level, p) && p != [] && FirstIn(k.level, p) == k.bn
    ensures p[0] == k.O() && Path(k.level - 1, p[1..]) && FirstIn(k.level - 1, p[1..]) == k.Ind()
    ensures Walk(k.v, k.root, p) == Walk(k.v, k.Nxt(), p[1..])
  {
    FirstInBound(k.level - 1, p[1..]);
    Digits(p[0], FirstIn(k.level - 1, p[1..]), Span(k.level - 1));
  }

  lemma TrimChildStarts(k: Trim, t: seq<nat>)
    requires k.Ok() && Path(k.level - 1, t) && FirstIn(k.level - 1, t) == k.Ind() && Walk(k.v, k.Nxt(), t) != 0
    ensures StartsAt(k.v, k.root, k.level, k.bn, Walk(k.v, k.Nxt(), t))
  {
    QuotRem(k.bn, Span(k.level - 1));
    ChildPath(k.level, k.O(), t);
    ChildWalk(k.v, k.root, k.O(), t);
    assert FirstIn(k.level, [k.O()] + t) == k.bn;
  }

  lemma TrimFreedElsewhere(k: Trim, b: nat)
    requires k.Ok() && b in k.freed
    ensures b != k.Nxt() && b != k.root
  {
    var p :| Path(k.level - 1, p) && p != [] && Walk(k.v, k.Nxt(), p) == b;
    RootNotBelow(k.v, k.root, k.level, k.O(), p, k.dom);
    ChildOk(k.v, k.root, k.level, k.O(), k.dom);
    NodesDiffer(k.v, k.Nxt(), k.level - 1, k.dom, [], p);
  }

  lemma TrimFreed(k: Trim)
    requires k.Ok()
    ensures FreedAt(k.v, k.root, k.Done(), k.level, k.bn, k.Freed())
  {
    TrimRoot(k);
    forall b ensures b in k.Freed() <==> StartsAt(k.v, k.root, k.level, k.bn, b) {
      TrimStarts(k, b);
    }
    forall b | b in k.Freed() ensures Blk(k.Done(), b) == ZeroBlock() {
      if b in k.freed { TrimFreedElsewhere(k, b); }
    }
    forall i, j | 0 <= i < j < |k.Freed()| ensures k.Freed()[i] != k.Freed()[j] {
      assert k.freed[i] in k.freed;
      if j == |k.freed| { TrimFreedElsewhere(k, k.freed[i]); }
    }
  }

  lemma TrimFrame(k: Trim, b: nat)
    requires k.Ok() && !Along(k.v, k.root, PathOf(k.level, k.bn), b)
    ensures Blk(k.Done(), b) == Blk(k.v, b)
  {
    var t, t1 := PathOf(k.level - 1, k.Ind()), PathOf(k.level, k.bn);
    assert t1 == [k.O()] + t;
    assert [] <= t1 && Walk(k.v, k.root, []) == k.root;
    forall q | q <= t && b != 0 ensures Walk(k.v, k.Nxt(), q) != b {
      ChildWalk(k.v, k.root, k.O(), q);
      assert [k.O()] + q <= t1;
    }
    assert [] <= t && Walk(k.v, k.Nxt(), []) == k.Nxt();
    assert Blk(k.w, b) == Blk(k.v, b);
    TrimRoot(k);
  }

  /** One call of indshrink, given the recursive one. */
  lemma TrimStep(k: Trim)
    requires k.Ok()
    ensures Shrunk(k.v, k.root, k.Done(), k.level, k.bn, k.Freed())
  {
    forall p | Path(k.level, p)
      ensures Walk(k.Done(), k.root, p) == if Cut(k.level, k.bn, p) then 0 else Walk(k.v, k.root, p)
    { TrimNode(k, p); }
    TrimFreed(k);
    forall b | !Along(k.v, k.root, PathOf(k.level, k.bn), b) ensures Blk(k.Done(), b) == Blk(k.v, b) {
      TrimFrame(k, b);
    }
  }

  /** A node on the way to a leaf below slot o is on the way to it from the root. */
  lemma AlongChild(v: View, root: nat, level: nat, bn: nat, o: nat, ind: nat, b: nat)
    requires level > 0 && root != 0 && PathOf(level, bn) == [o] + PathOf(level - 1, ind)
    requires b == root || Along(v, PtrAt(v, root, o), PathOf(level - 1, ind), b)
    ensures Along(v, root, PathOf(level, bn), b)
  {
    if b == root {
      assert [] <= PathOf(level, bn) && Walk(v, root, []) == root;
    } else {
      var q :| q <= PathOf(level - 1, ind) && Walk(v, PtrAt(v, root, o), q) == b;
      ChildWalk(v, root, o, q);
      assert [o] + q <= PathOf(level, bn);
    }
  }

  lemma AlongTop(v: View, root: nat, t: seq<nat>)
    requires root != 0
    ensures Along(v, root, t, root)
  {
    assert [] <= t && Walk(v, root, []) == root;
  }
}
