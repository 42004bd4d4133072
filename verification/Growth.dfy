/** How indbmap and bmap extend the block tree: at most one chain of fresh blocks
    along the path to the requested leaf, and nothing else. */
module Growth {
  import opened Bytes
  import opened Tree

  /** A node stays where it is, or it was null and is now a fresh block on path t. */
  ghost predicate NodesGrown(v: View, r0: nat, w: View, r: nat, level: nat, t: seq<nat>, news: set<nat>) {
    forall p {:trigger Walk(w, r, p)} :: Path(level, p) ==>
      || Walk(w, r, p) == Walk(v, r0, p)
      || (Walk(v, r0, p) == 0 && p <= t && Walk(w, r, p) in news)
  }

  /** Every fresh block is linked in on path t. */
  ghost predicate AllLinked(w: View, r: nat, level: nat, t: seq<nat>, news: set<nat>) {
    forall b :: b in news ==> exists p :: Path(level, p) && p <= t && Walk(w, r, p) == b
  }

  /** No block changes except fresh ones and the index blocks on path t. */
  ghost predicate Framed(v: View, r0: nat, w: View, t: seq<nat>, news: set<nat>) {
    forall b :: b !in news && !OnPath(v, r0, t, b) ==> Blk(w, b) == Blk(v, b)
  }

  /** The tree below r0 in view v became the tree below r in view w by linking
      exactly the blocks of news along path t; a fresh leaf holds zeros. */
  ghost predicate Grown(v: View, r0: nat, w: View, r: nat, level: nat, t: seq<nat>, news: set<nat>) {
    && NodesGrown(v, r0, w, r, level, t, news)
    && AllLinked(w, r, level, t, news)
    && Framed(v, r0, w, t, news)
    && (Walk(w, r, t) in news ==> Blk(w, Walk(w, r, t)) == ZeroBlock())
  }

  /** The situation after the recursive call of indbmap: the subtree in slot o of the
      index block root has grown from nxt0 to nxt. */
  datatype Link = Link(v: View, root: nat, level: nat, o: nat, t: seq<nat>,
                       w: View, nxt: nat, news: set<nat>, dom: set<nat>)
  {
    ghost predicate Ok() {
      && root != 0 && |t| + 1 == level && o < NBLKBLK && Path(level - 1, t)
      && TreeOk(v, root, level, dom) && news !! dom
      && Grown(v, Nxt0(), w, nxt, level - 1, t, news)
      && TreeOk(w, nxt, level - 1, dom + news)
      && nxt < U64
    }

    ghost function Nxt0(): nat { PtrAt(v, root, o) }

    /** The view after the pointer update that follows the recursive call. */
    ghost function Done(): View
      requires o < NBLKBLK
    {
      Relinked(w, root, o, Nxt0(), nxt)
    }
  }

  function Relinked(w: View, root: nat, o: nat, nxt0: nat, nxt: nat): View
    requires o < NBLKBLK
  {
    if nxt == nxt0 then w else w[root := PtrPut(Blk(w, root), o, nxt)]
  }

  lemma ChildPath(level: nat, a: nat, p: seq<nat>)
    requires level > 0 && a < NBLKBLK && Path(level - 1, p)
    ensures Path(level, [a] + p) && ([a] + p)[1..] == p
  {}

  lemma ChildWalk(v: View, root: nat, a: nat, p: seq<nat>)
    requires root != 0
    ensures Walk(v, root, [a] + p) == Walk(v, PtrAt(v, root, a), p)
  {
    assert ([a] + p)[1..] == p;
  }

  /** The index block above the subtree is not part of it. */
  lemma RootNotBelow(v: View, root: nat, level: nat, a: nat, p: seq<nat>, dom: set<nat>)
    requires level > 0 && root != 0 && a < NBLKBLK && Path(level - 1, p) && TreeOk(v, root, level, dom)
    ensures Walk(v, PtrAt(v, root, a), p) != root
  {
    ChildPath(level, a, p);
    ChildWalk(v, root, a, p);
    NodesDiffer(v, root, level, dom, [], [a] + p);
  }

  lemma RootKept(k: Link)
    requires k.Ok()
    ensures k.root in k.dom && Blk(k.w, k.root) == Blk(k.v, k.root)
  {
    assert Path(k.level, []) && Walk(k.v, k.root, []) == k.root;
    forall q | q < k.t ensures Walk(k.v, k.Nxt0(), q) != k.root {
      RootNotBelow(k.v, k.root, k.level, k.o, q, k.dom);
    }
  }

  lemma RootPointers(k: Link, a: nat)
    requires k.Ok() && a < NBLKBLK
    ensures PtrAt(k.Done(), k.root, a) == if a == k.o then k.nxt else PtrAt(k.v, k.root, a)
  {
    RootKept(k);
    PtrPutGet(Blk(k.w, k.root), k.o, k.nxt, a);
  }

  /** A node in another slot of the root is not on the path that has grown. */
  lemma SiblingNode(k: Link, a: nat, q: seq<nat>)
    requires k.Ok() && a != k.o && a < NBLKBLK && Path(k.level - 1, q)
    requires Walk(k.v, PtrAt(k.v, k.root, a), q) != 0
    ensures var m := Walk(k.v, PtrAt(k.v, k.root, a), q);
            m in k.dom && m != k.root && !OnPath(k.v, k.Nxt0(), k.t, m)
  {
    var m := Walk(k.v, PtrAt(k.v, k.root, a), q);
    RootNotBelow(k.v, k.root, k.level, a, q, k.dom);
    ChildPath(k.level, a, q);
    ChildWalk(k.v, k.root, a, q);
    forall q' | q' < k.t ensures Walk(k.v, k.Nxt0(), q') != m {
      ChildPath(k.level, k.o, q');
      ChildWalk(k.v, k.root, k.o, q');
      assert ([a] + q)[0] != ([k.o] + q')[0];
      NodesDiffer(k.v, k.root, k.level, k.dom, [a] + q, [k.o] + q');
    }
  }

  /** A subtree in another slot does not change. */
  lemma SiblingKept(k: Link, a: nat, p: seq<nat>)
    requires k.Ok() && a != k.o && a < NBLKBLK && Path(k.level - 1, p)
    ensures Walk(k.Done(), PtrAt(k.v, k.root, a), p) == Walk(k.v, PtrAt(k.v, k.root, a), p)
  {
    var top := PtrAt(k.v, k.root, a);
    forall q | q < p && Walk(k.v, top, q) != 0
      ensures Blk(k.Done(), Walk(k.v, top, q)) == Blk(k.v, Walk(k.v, top, q))
    {
      SiblingNode(k, a, q);
    }
    WalkFrame(k.v, k.Done(), top, p);
  }

  /** Relinking the root does not change the subtree that has grown. */
  lemma ChildKept(k: Link, p: seq<nat>)
    requires k.Ok() && Path(k.level - 1, p)
    ensures Walk(k.Done(), k.nxt, p) == Walk(k.w, k.nxt, p)
  {
    var x := k.Done();
    assert Path(k.level, []) && Walk(k.v, k.root, []) == k.root;
    forall q | q < p && Walk(k.w, k.nxt, q) != 0
      ensures Blk(x, Walk(k.w, k.nxt, q)) == Blk(k.w, Walk(k.w, k.nxt, q))
    {
      RootNotBelow(k.v, k.root, k.level, k.o, q, k.dom);
      assert Path(k.level - 1, q);
    }
    WalkFrame(k.w, x, k.nxt, p);
  }

  /** The whole tree after the pointer update, node by node. */
  lemma RelinkedWalk(k: Link, p: seq<nat>)
    requires k.Ok() && Path(k.level, p)
    ensures Walk(k.Done(), k.root, p) ==
            if p == [] then k.root else if p[0] == k.o then Walk(k.w, k.nxt, p[1..]) else Walk(k.v, k.root, p)
  {
    if p != [] {
      RootPointers(k, p[0]);
      if p[0] == k.o {
        ChildKept(k, p[1..]);
      } else {
        SiblingKept(k, p[0], p[1..]);
      }
    }
  }

  lemma GrowStepNodes(k: Link)
    requires k.Ok()
    ensures NodesGrown(k.v, k.root, k.Done(), k.root, k.level, [k.o] + k.t, k.news)
  {
    forall p | Path(k.level, p)
      ensures || Walk(k.Done(), k.root, p) == Walk(k.v, k.root, p)
              || (Walk(k.v, k.root, p) == 0 && p <= [k.o] + k.t && Walk(k.Done(), k.root, p) in k.news)
    {
      RelinkedWalk(k, p);
      if p != [] && p[0] == k.o {
        assert Path(k.level - 1, p[1..]) && p == [k.o] + p[1..];
      }
    }
  }

  lemma GrowStepLinked(k: Link)
    requires k.Ok()
    ensures AllLinked(k.Done(), k.root, k.level, [k.o] + k.t, k.news)
  {
    forall b | b in k.news
      ensures exists p :: Path(k.level, p) && p <= [k.o] + k.t && Walk(k.Done(), k.root, p) == b
    {
      var q :| Path(k.level - 1, q) && q <= k.t && Walk(k.w, k.nxt, q) == b;
      ChildPath(k.level, k.o, q);
      RelinkedWalk(k, [k.o] + q);
      assert [k.o] + q <= [k.o] + k.t;
    }
  }

  lemma GrowStepFrame(k: Link)
    requires k.Ok()
    ensures Framed(k.v, k.root, k.Done(), [k.o] + k.t, k.news)
  {
    var t1 := [k.o] + k.t;
    assert [] < t1 && Walk(k.v, k.root, []) == k.root;
    forall b | b !in k.news && !OnPath(k.v, k.root, t1, b)
      ensures Blk(k.Done(), b) == Blk(k.v, b)
    {
      assert b != k.root;
      forall q | q < k.t && b != 0 ensures Walk(k.v, k.Nxt0(), q) != b {
        assert [k.o] + q < t1;
        ChildWalk(k.v, k.root, k.o, q);
      }
    }
  }

  /** Linking a grown child grows the tree. */
  lemma GrowStep(k: Link)
    requires k.Ok()
    ensures Grown(k.v, k.root, k.Done(), k.root, k.level, [k.o] + k.t, k.news)
  {
    GrowStepNodes(k);
    GrowStepLinked(k);
    GrowStepFrame(k);
    ChildPath(k.level, k.o, k.t);
    RelinkedWalk(k, [k.o] + k.t);
    RootKept(k);
  }

  lemma GrowStepOk(k: Link)
    requires k.Ok()
    ensures TreeOk(k.Done(), k.root, k.level, k.dom + k.news)
  {
    var x := k.Done();
    RootKept(k);
    forall p | Path(k.level, p) && Walk(x, k.root, p) != 0
      ensures Walk(x, k.root, p) in k.dom + k.news
    {
      RelinkedWalk(k, p);
      if p != [] { assert Path(k.level - 1, p[1..]); }
    }
    forall p, q | Path(k.level, p) && Path(k.level, q) && Node(x, k.root, p) == Node(x, k.root, q) != 0
      ensures p == q
    {
      if p != q { RelinkedDistinct(k, p, q); }
    }
  }

  lemma RelinkedDistinct(k: Link, p: seq<nat>, q: seq<nat>)
    requires k.Ok() && Path(k.level, p) && Path(k.level, q) && p != q
    requires Walk(k.Done(), k.root, p) != 0
    ensures Walk(k.Done(), k.root, p) != Walk(k.Done(), k.root, q)
  {
    RelinkedWalk(k, p);
    RelinkedWalk(k, q);
    var inP, inQ := p != [] && p[0] == k.o, q != [] && q[0] == k.o;
    if inP && inQ {
      ChildNodesDistinct(k, p, q);
    } else if inP {
      NewNodeElsewhere(k, p, q);
    } else if inQ {
      if Walk(k.w, k.nxt, q[1..]) != 0 { NewNodeElsewhere(k, q, p); }
    } else {
      NodesDiffer(k.v, k.root, k.level, k.dom, p, q);
    }
  }

  lemma ChildNodesDistinct(k: Link, p: seq<nat>, q: seq<nat>)
    requires k.Ok() && Path(k.level, p) && Path(k.level, q) && p != q
    requires p != [] && p[0] == k.o && q != [] && q[0] == k.o && Walk(k.w, k.nxt, p[1..]) != 0
    ensures Walk(k.w, k.nxt, p[1..]) != Walk(k.w, k.nxt, q[1..])
  {
    assert p == [k.o] + p[1..] && q == [k.o] + q[1..];
    NodesDiffer(k.w, k.nxt, k.level - 1, k.dom + k.news, p[1..], q[1..]);
  }

  /** A node of the grown child is not a node outside it. */
  lemma NewNodeElsewhere(k: Link, p: seq<nat>, q: seq<nat>)
    requires k.Ok()
    requires Path(k.level, p) && Path(k.level, q) && p != [] && p[0] == k.o && (q == [] || q[0] != k.o)
    requires Walk(k.w, k.nxt, p[1..]) != 0
    ensures Walk(k.w, k.nxt, p[1..]) != Walk(k.v, k.root, q)
  {
    assert Path(k.level - 1, p[1..]) && p == [k.o] + p[1..];
    ChildWalk(k.v, k.root, k.o, p[1..]);
    if Walk(k.v, k.root, q) != 0 { NodesDiffer(k.v, k.root, k.level, k.dom, q, p); }
  }

  /** A tree that starts from a fresh zero block grows like one that starts from nothing. */
  lemma FreshRoot(v: View, root: nat, w: View, level: nat, t: seq<nat>, news: set<nat>)
    requires root != 0 && Blk(v, root) == ZeroBlock() && Path(level, t) && level > 0 && |t| == level
    requires Grown(v, root, w, root, level, t, news)
    ensures Grown(v, 0, w, root, level, t, news + {root})
  {
    assert [] < t && Walk(v, root, []) == root == Walk(w, root, []);
    forall p | Path(level, p)
      ensures || Walk(w, root, p) == Walk(v, 0, p)
              || (Walk(v, 0, p) == 0 && p <= t && Walk(w, root, p) in news + {root})
    {
      SingleNode(v, root, level, p);
      assert Walk(v, 0, p) == 0;
    }
    forall b | b in news + {root}
      ensures exists p :: Path(level, p) && p <= t && Walk(w, root, p) == b
    {
      if b == root { assert Path(level, []) && [] <= t; }
    }
    forall b | b !in news + {root}
      ensures Blk(w, b) == Blk(v, b)
    {
      forall q | q < t && b != 0 ensures Walk(v, root, q) != b { SingleNode(v, root, level, q); }
    }
    if Walk(w, root, t) == root {
      assert Path(level, t);
      SingleNode(v, root, level, t);
    }
  }

  lemma FreshTreeOk(v: View, root: nat, level: nat, dom: set<nat>)
    requires Blk(v, root) == ZeroBlock() && root in dom
    ensures TreeOk(v, root, level, dom)
  {
    forall p | Path(level, p) ensures Walk(v, root, p) == if p == [] then root else 0 {
      SingleNode(v, root, level, p);
    }
  }

  lemma ChildOk(v: View, root: nat, level: nat, o: nat, dom: set<nat>)
    requires level > 0 && root != 0 && o < NBLKBLK && TreeOk(v, root, level, dom)
    ensures TreeOk(v, PtrAt(v, root, o), level - 1, dom)
  {
    forall p | Path(level - 1, p)
      ensures Path(level, [o] + p) && Walk(v, root, [o] + p) == Walk(v, PtrAt(v, root, o), p)
    {
      ChildPath(level, o, p);
      ChildWalk(v, root, o, p);
    }
    forall p, q | Path(level - 1, p) && Path(level - 1, q) &&
        Node(v, PtrAt(v, root, o), p) == Node(v, PtrAt(v, root, o), q) != 0
      ensures p == q
    {
      assert ([o] + p)[1..] == p && ([o] + q)[1..] == q;
      if p != q { NodesDiffer(v, root, level, dom, [o] + p, [o] + q); }
    }
  }

  /** A tree of level 0 is its root. */
  lemma LeafGrown(v: View, r0: nat, r: nat, news: set<nat>)
    requires if r == r0 then news == {} else r0 == 0 && r != 0 && news == {r} && Blk(v, r) == ZeroBlock()
    ensures Grown(v, r0, v, r, 0, [], news)
  {
    assert Path(0, []) && Walk(v, r, []) == r && Walk(v, r0, []) == r0;
  }

  /** An allocation that was refused at the root leaves an empty tree. */
  lemma NothingGrown(v: View, level: nat, t: seq<nat>)
    ensures Grown(v, 0, v, 0, level, t, {})
  {}

  /** The last step of indbmap: the child is linked into its index block. */
  lemma LinkUp(k: Link)
    requires k.Ok()
    ensures Grown(k.v, k.root, k.Done(), k.root, k.level, [k.o] + k.t, k.news)
    ensures TreeOk(k.Done(), k.root, k.level, k.dom + k.news)
    ensures Walk(k.Done(), k.root, [k.o] + k.t) == Walk(k.w, k.nxt, k.t)
    ensures Blk(k.w, k.root) == Blk(k.v, k.root) && k.root in k.dom
  {
    GrowStep(k);
    GrowStepOk(k);
    ChildPath(k.level, k.o, k.t);
    RelinkedWalk(k, [k.o] + k.t);
    RootKept(k);
  }
}
