/** The block tree below an inode, as a pure function of a view of the disk.

    A node is named by the path of slot numbers that leads to it, so the tree is
    the function  path -> block number  that Walk computes.  What the operations on
    the tree do is stated as a change of that function. */
module Tree {
  import opened Arith
  import opened Bytes

  /** What a transaction sees of the disk; a block that is not listed is zero. */
  type View = map<nat, Block>

  function Blk(v: View, b: nat): Block {
    if b in v then v[b] else ZeroBlock()
  }

  function PtrAt(v: View, b: nat, o: nat): nat {
    if o < NBLKBLK then PtrGet(if b in v then v[b] else ZeroBlock(), o) else 0
  }

  /** The block at the end of path p below root; 0 when a pointer on the way is null. */
  function Walk(v: View, root: nat, p: seq<nat>): nat
    decreases p
  {
    if root == 0 || p == [] then root else Walk(v, PtrAt(v, root, p[0]), p[1..])
  }

  predicate Path(level: nat, p: seq<nat>) {
    |p| <= level && forall j :: 0 <= j < |p| ==> p[j] < NBLKBLK
  }

  // ------------------------------------------------------ paths and offsets

  /** The number of leaves below an index block of the given level. */
  function Span(level: nat): (n: nat)
    ensures n > 0
  {
    if level == 0 then 1 else Times(NBLKBLK, Span(level - 1))
  }

  lemma Span1()
    ensures Span(0) == 1 && Span(1) == NBLKBLK
  {
    TimesIsMul(NBLKBLK, 1);
  }

  /** The path to leaf number off below an index block of the given level. */
  function PathOf(level: nat, off: nat): (p: seq<nat>)
    ensures |p| == level
  {
    if level == 0 then [] else
      [Quot(off, Span(level - 1))] + PathOf(level - 1, Rem(off, Span(level - 1)))
  }

  /** The number of the first leaf below the node at path p. */
  function FirstIn(level: nat, p: seq<nat>): nat
    requires |p| <= level
  {
    if p == [] then 0 else Times(p[0], Span(level - 1)) + FirstIn(level - 1, p[1..])
  }

  lemma {:induction false} PathOfInRange(level: nat, off: nat)
    requires off < Span(level)
    ensures Path(level, PathOf(level, off))
  {
    if level > 0 {
      QuotBound(off, Span(level - 1), NBLKBLK);
      PathOfInRange(level - 1, Rem(off, Span(level - 1)));
    }
  }

  lemma {:induction false} FirstInBound(level: nat, p: seq<nat>)
    requires Path(level, p)
    ensures FirstIn(level, p) < Span(level)
  {
    if p != [] {
      FirstInBound(level - 1, p[1..]);
      DigitBound(p[0], FirstIn(level - 1, p[1..]), NBLKBLK, Span(level - 1));
    }
  }

  /** The path of a leaf number leads to that leaf. */
  lemma {:induction false} FirstOfPath(level: nat, off: nat)
    requires off < Span(level)
    ensures FirstIn(level, PathOf(level, off)) == off
  {
    if level > 0 {
      QuotRem(off, Span(level - 1));
      FirstOfPath(level - 1, Rem(off, Span(level - 1)));
    }
  }

  /** A leaf is reached by exactly one path. */
  lemma {:induction false} PathOfFirst(level: nat, p: seq<nat>)
    requires Path(level, p) && |p| == level
    ensures PathOf(level, FirstIn(level, p)) == p
  {
    if level > 0 {
      FirstInBound(level - 1, p[1..]);
      Digits(p[0], FirstIn(level - 1, p[1..]), Span(level - 1));
      PathOfFirst(level - 1, p[1..]);
    }
  }

  // ------------------------------------------------------------------ walking

  lemma {:induction false} WalkNull(v: View, p: seq<nat>)
    ensures Walk(v, 0, p) == 0
  {}

  /** A walk can be cut in two. */
  lemma {:induction false} WalkAppend(v: View, root: nat, p: seq<nat>, q: seq<nat>)
    ensures Walk(v, root, p + q) == Walk(v, Walk(v, root, p), q)
    decreases p
  {
    if root == 0 {
    } else if p == [] {
      assert p + q == q;
    } else {
      assert (p + q)[1..] == p[1..] + q;
      WalkAppend(v, PtrAt(v, root, p[0]), p[1..], q);
    }
  }

  /** A walk depends only on the index blocks it reads. */
  lemma {:induction false} WalkFrame(v: View, w: View, root: nat, p: seq<nat>)
    requires forall q :: q < p && Walk(v, root, q) != 0 ==> Blk(w, Walk(v, root, q)) == Blk(v, Walk(v, root, q))
    ensures Walk(w, root, p) == Walk(v, root, p)
    decreases p
  {
    if root != 0 && p != [] {
      var next := PtrAt(v, root, p[0]);
      assert [] < p && Walk(v, root, []) == root;
      forall q | q < p[1..] && Walk(v, next, q) != 0
        ensures Blk(w, Walk(v, next, q)) == Blk(v, Walk(v, next, q))
      {
        var r := [p[0]] + q;
        assert r[1..] == q && r < p;
        assert Walk(v, root, r) == Walk(v, next, q);
      }
      WalkFrame(v, w, next, p[1..]);
    }
  }

  // ---------------------------------------------------------------- ownership

  /** Walk under another name, so that only nodes a proof mentions are compared. */
  ghost function Node(v: View, root: nat, p: seq<nat>): nat { Walk(v, root, p) }

  /** Every node below root is a block of dom, and no block is at two nodes. */
  ghost predicate TreeOk(v: View, root: nat, level: nat, dom: set<nat>) {
    && (forall p {:trigger Walk(v, root, p)} :: Path(level, p) && Walk(v, root, p) != 0 ==> Walk(v, root, p) in dom)
    && (forall p, q {:trigger Node(v, root, p), Node(v, root, q)} ::
          Path(level, p) && Path(level, q) && Node(v, root, p) == Node(v, root, q) != 0 ==> p == q)
  }

  lemma NodesDiffer(v: View, root: nat, level: nat, dom: set<nat>, p: seq<nat>, q: seq<nat>)
    requires TreeOk(v, root, level, dom) && Path(level, p) && Path(level, q) && p != q && Walk(v, root, p) != 0
    ensures Walk(v, root, p) != Walk(v, root, q)
  {
    assert Node(v, root, p) != Node(v, root, q);
  }

  /** Block b is an index block that the walk along path t reads. */
  ghost predicate OnPath(v: View, root: nat, t: seq<nat>, b: nat) {
    b != 0 && exists q :: q < t && Walk(v, root, q) == b
  }

  lemma {:induction false} SingleNode(v: View, root: nat, level: nat, p: seq<nat>)
    requires Path(level, p) && Blk(v, root) == ZeroBlock()
    ensures Walk(v, root, p) == if p == [] then root else 0
  {
    if root != 0 && p != [] { PtrGetZeros(p[0]); }
  }
}
