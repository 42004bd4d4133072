/** The pointers of an inode: 8 direct slots, one indirect and one double-indirect.
    A slot is [k] for entry k of the inode, followed by a path below it. */
module Slots {
  import opened Bytes
  import opened Tree
  import opened Growth

  const NBLKINO: nat := 10
  const NDIRECT: nat := 8
  const INDIRECT: nat := 8
  const DINDIRECT: nat := 9

  /** The depth of the tree below entry k of the inode. */
  function Level(k: nat): nat {
    if k < NDIRECT then 0 else if k == INDIRECT then 1 else 2
  }

  /** The first logical block that entry k covers. */
  function Base(k: nat): nat {
    if k <= INDIRECT then k else NDIRECT + NBLKBLK
  }

  predicate Slot(s: seq<nat>) {
    s != [] && s[0] < NBLKINO && Path(Level(s[0]), s[1..])
  }

  /** A slot that holds a data block rather than an index block. */
  predicate Leaf(s: seq<nat>) {
    Slot(s) && |s| == 1 + Level(s[0])
  }

  /** The pointer in slot s of an inode. */
  function At(v: View, blks: seq<nat>, s: seq<nat>): nat
    requires |blks| == NBLKINO && Slot(s)
  {
    Walk(v, blks[s[0]], s[1..])
  }

  /** The first logical block below slot s. */
  function First(s: seq<nat>): nat
    requires Slot(s)
  {
    Base(s[0]) + FirstIn(Level(s[0]), s[1..])
  }

  /** The number of logical blocks that bmap can map. */
  function MaxBlocks(): nat {
    NDIRECT + NBLKBLK + Span(2)
  }

  /** The slot of logical block bn. */
  function SlotOf(bn: nat): seq<nat> {
    if bn < NDIRECT then [bn]
    else if bn - NDIRECT < NBLKBLK then [INDIRECT] + PathOf(1, bn - NDIRECT)
    else [DINDIRECT] + PathOf(2, bn - NDIRECT - NBLKBLK)
  }

  /** Every logical block in range has a leaf slot, and the slot leads back to it. */
  lemma SlotOfBlock(bn: nat)
    requires bn < MaxBlocks()
    ensures Leaf(SlotOf(bn)) && First(SlotOf(bn)) == bn
  {
    if bn < NDIRECT {
    } else if bn - NDIRECT < NBLKBLK {
      Span1();
      PathOfInRange(1, bn - NDIRECT);
      FirstOfPath(1, bn - NDIRECT);
      assert SlotOf(bn)[1..] == PathOf(1, bn - NDIRECT);
    } else {
      PathOfInRange(2, bn - NDIRECT - NBLKBLK);
      FirstOfPath(2, bn - NDIRECT - NBLKBLK);
      assert SlotOf(bn)[1..] == PathOf(2, bn - NDIRECT - NBLKBLK);
    }
  }

  /** A leaf slot holds exactly one logical block. */
  lemma BlockOfLeaf(s: seq<nat>)
    requires Leaf(s)
    ensures First(s) < MaxBlocks() && SlotOf(First(s)) == s
  {
    Span1();
    FirstInBound(Level(s[0]), s[1..]);
    PathOfFirst(Level(s[0]), s[1..]);
    assert s == [s[0]] + s[1..];
  }

  // ---------------------------------------------------------------- ownership

  /** Every pointer of the inode is a block of dom, and no block is in two slots. */
  ghost predicate InodeOk(v: View, blks: seq<nat>, dom: set<nat>) {
    && |blks| == NBLKINO
    && (forall s {:trigger At(v, blks, s)} :: Slot(s) && At(v, blks, s) != 0 ==> At(v, blks, s) in dom)
    && (forall s, t {:trigger At(v, blks, s), At(v, blks, t)} ::
          Slot(s) && Slot(t) && At(v, blks, s) == At(v, blks, t) != 0 ==> s == t)
  }

  /** The pointers of an inode without blocks. */
  function NoBlocks(): (blks: seq<nat>)
    ensures |blks| == NBLKINO
  {
    seq(NBLKINO, _ => 0)
  }

  /** The inode holds block b in some slot. */
  ghost predicate Owns(v: View, blks: seq<nat>, b: nat)
    requires |blks| == NBLKINO
  {
    b != 0 && exists s :: Slot(s) && At(v, blks, s) == b
  }

  /** Every pointer of the inode starts below logical block n. */
  ghost predicate Below(v: View, blks: seq<nat>, n: nat) {
    |blks| == NBLKINO && forall s {:trigger At(v, blks, s)} :: Slot(s) && At(v, blks, s) != 0 ==> First(s) < n
  }

  /** Every data block of the file is below logical block n. */
  ghost predicate LeavesBelow(v: View, blks: seq<nat>, n: nat) {
    |blks| == NBLKINO && forall s {:trigger At(v, blks, s)} :: Leaf(s) && At(v, blks, s) != 0 ==> First(s) < n
  }

  /** The record on disk may lack pointers that the inode in memory has. */
  ghost predicate Behind(saved: seq<nat>, blks: seq<nat>) {
    |saved| == NBLKINO && |blks| == NBLKINO && forall k :: 0 <= k < NBLKINO ==> saved[k] == 0 || saved[k] == blks[k]
  }

  /** Block b is an index block above slot s. */
  ghost predicate Above(v: View, blks: seq<nat>, s: seq<nat>, b: nat)
    requires |blks| == NBLKINO
  {
    b != 0 && exists q :: Slot(q) && q < s && At(v, blks, q) == b
  }

  lemma EntrySlot(k: nat, p: seq<nat>)
    requires k < NBLKINO && Path(Level(k), p)
    ensures Slot([k] + p) && ([k] + p)[1..] == p
  {}

  /** The tree below one entry of a well-formed inode is well formed. */
  lemma EntryOk(v: View, blks: seq<nat>, dom: set<nat>, k: nat)
    requires InodeOk(v, blks, dom) && k < NBLKINO
    ensures TreeOk(v, blks[k], Level(k), dom)
  {
    forall p | Path(Level(k), p) && Walk(v, blks[k], p) != 0
      ensures Walk(v, blks[k], p) in dom
    {
      EntrySlot(k, p);
      assert At(v, blks, [k] + p) != 0;
    }
    forall p, q | Path(Level(k), p) && Path(Level(k), q) && Node(v, blks[k], p) == Node(v, blks[k], q) != 0
      ensures p == q
    {
      EntrySlot(k, p);
      EntrySlot(k, q);
      assert At(v, blks, [k] + p) == At(v, blks, [k] + q);
    }
  }

  // ------------------------------------------------------------------ growing

  /** An inode changed by linking exactly the blocks of news above and in slot s. */
  ghost predicate InodeGrown(v: View, blks: seq<nat>, w: View, blks': seq<nat>, s: seq<nat>, news: set<nat>) {
    && |blks| == NBLKINO && |blks'| == NBLKINO && Slot(s)
    && (forall x {:trigger At(w, blks', x)} :: Slot(x) ==>
          || At(w, blks', x) == At(v, blks, x)
          || (At(v, blks, x) == 0 && x <= s && At(w, blks', x) in news))
    && (forall b :: b in news ==> exists x :: Slot(x) && x <= s && At(w, blks', x) == b)
    && (forall b {:trigger Blk(w, b)} :: b !in news && !Above(v, blks, s, b) ==> Blk(w, b) == Blk(v, b))
    && (At(w, blks', s) in news ==> Blk(w, At(w, blks', s)) == ZeroBlock())
  }

  /** The tree below entry k has grown from blks[k] to r. */
  datatype Entry = Entry(v: View, blks: seq<nat>, k: nat, t: seq<nat>, w: View, r: nat, news: set<nat>, dom: set<nat>)
  {
    ghost predicate Ok() {
      && InodeOk(v, blks, dom) && k < NBLKINO && Path(Level(k), t) && |t| == Level(k)
      && news !! dom && 0 !in news
      && Grown(v, blks[k], w, r, Level(k), t, news)
      && TreeOk(w, r, Level(k), dom + news)
    }

    ghost function Done(): seq<nat>
      requires |blks| == NBLKINO && k < NBLKINO
    {
      blks[k := r]
    }
  }

  lemma OtherEntryKept(e: Entry, x: seq<nat>)
    requires e.Ok() && Slot(x) && x[0] != e.k
    ensures At(e.w, e.Done(), x) == At(e.v, e.blks, x)
  {
    var root := e.blks[x[0]];
    forall q | q < x[1..] && Walk(e.v, root, q) != 0
      ensures Blk(e.w, Walk(e.v, root, q)) == Blk(e.v, Walk(e.v, root, q))
    {
      var m := Walk(e.v, root, q);
      EntrySlot(x[0], q);
      assert At(e.v, e.blks, [x[0]] + q) == m;
      forall q' | q' < e.t ensures Walk(e.v, e.blks[e.k], q') != m {
        EntrySlot(e.k, q');
        assert At(e.v, e.blks, [e.k] + q') == Walk(e.v, e.blks[e.k], q');
      }
    }
    WalkFrame(e.v, e.w, root, x[1..]);
  }

  lemma EntryNodes(e: Entry, x: seq<nat>)
    requires e.Ok() && Slot(x)
    ensures || At(e.w, e.Done(), x) == At(e.v, e.blks, x)
            || (At(e.v, e.blks, x) == 0 && x <= [e.k] + e.t && At(e.w, e.Done(), x) in e.news)
  {
    if x[0] != e.k {
      OtherEntryKept(e, x);
    } else {
      assert x == [e.k] + x[1..];
      assert x[1..] <= e.t ==> x <= [e.k] + e.t;
    }
  }

  lemma EntryLinked(e: Entry, b: nat)
    requires e.Ok() && b in e.news
    ensures exists x :: Slot(x) && x <= [e.k] + e.t && At(e.w, e.Done(), x) == b
  {
    var p :| Path(Level(e.k), p) && p <= e.t && Walk(e.w, e.r, p) == b;
    EntrySlot(e.k, p);
    assert [e.k] + p <= [e.k] + e.t && At(e.w, e.Done(), [e.k] + p) == b;
  }

  lemma EntryFrame(e: Entry, b: nat)
    requires e.Ok() && b !in e.news && !Above(e.v, e.blks, [e.k] + e.t, b)
    ensures Blk(e.w, b) == Blk(e.v, b)
  {
    forall q | q < e.t && b != 0 ensures Walk(e.v, e.blks[e.k], q) != b {
      EntrySlot(e.k, q);
      assert [e.k] + q < [e.k] + e.t && At(e.v, e.blks, [e.k] + q) == Walk(e.v, e.blks[e.k], q);
    }
  }

  /** When the tree below one entry grows, so does the inode. */
  lemma EntryGrown(e: Entry)
    requires e.Ok()
    ensures InodeGrown(e.v, e.blks, e.w, e.Done(), [e.k] + e.t, e.news)
  {
    EntrySlot(e.k, e.t);
    forall x | Slot(x)
      ensures || At(e.w, e.Done(), x) == At(e.v, e.blks, x)
              || (At(e.v, e.blks, x) == 0 && x <= [e.k] + e.t && At(e.w, e.Done(), x) in e.news)
    { EntryNodes(e, x); }
    forall b | b in e.news
      ensures exists x :: Slot(x) && x <= [e.k] + e.t && At(e.w, e.Done(), x) == b
    { EntryLinked(e, b); }
    forall b | b !in e.news && !Above(e.v, e.blks, [e.k] + e.t, b)
      ensures Blk(e.w, b) == Blk(e.v, b)
    { EntryFrame(e, b); }
  }

  /** The inode stays well formed. */
  lemma EntryGrownOk(e: Entry)
    requires e.Ok()
    ensures InodeOk(e.w, e.Done(), e.dom + e.news)
  {
    forall s | Slot(s) && At(e.w, e.Done(), s) != 0
      ensures At(e.w, e.Done(), s) in e.dom + e.news
    { EntryNodes(e, s); }
    forall s, t | Slot(s) && Slot(t) && At(e.w, e.Done(), s) == At(e.w, e.Done(), t) != 0
      ensures s == t
    {
      EntryNodes(e, s);
      EntryNodes(e, t);
      if s[0] == e.k && t[0] == e.k {
        assert s == [e.k] + s[1..] && t == [e.k] + t[1..];
        if s[1..] != t[1..] { NodesDiffer(e.w, e.r, Level(e.k), e.dom + e.news, s[1..], t[1..]); }
      } else if s[0] != e.k {
        OtherEntryKept(e, s);
      } else {
        OtherEntryKept(e, t);
      }
    }
  }

  lemma GrowEntry(e: Entry, dom: set<nat>)
    requires e.Ok() && dom == e.dom + e.news
    ensures InodeGrown(e.v, e.blks, e.w, e.Done(), [e.k] + e.t, e.news)
    ensures InodeOk(e.w, e.Done(), dom)
    ensures At(e.w, e.Done(), [e.k] + e.t) == Walk(e.w, e.r, e.t)
    ensures e.r != e.blks[e.k] ==> e.r in e.news
  {
    EntryGrown(e);
    EntryGrownOk(e);
    assert ([e.k] + e.t)[1..] == e.t;
    assert Path(Level(e.k), []) && Walk(e.w, e.r, []) == e.r && Walk(e.v, e.blks[e.k], []) == e.blks[e.k];
  }

  // ----------------------------------------------------------------- contents

  /** The contents of logical block bn; a hole reads as zeros. */
  function FileBlock(v: View, blks: seq<nat>, bn: nat): Block
    requires |blks| == NBLKINO && bn < MaxBlocks()
  {
    SlotOfBlock(bn);
    var b := At(v, blks, SlotOf(bn));
    if b == 0 then ZeroBlock() else Blk(v, b)
  }

  /** Growing the tree changes no contents: a fresh leaf fills a hole with zeros. */
  lemma GrownKeepsContents(v: View, blks: seq<nat>, w: View, blks': seq<nat>, s: seq<nat>, news: set<nat>,
                           dom: set<nat>, bn: nat)
    requires InodeOk(v, blks, dom) && news !! dom && 0 !in news && Leaf(s)
    requires InodeGrown(v, blks, w, blks', s, news) && bn < MaxBlocks()
    ensures FileBlock(w, blks', bn) == FileBlock(v, blks, bn)
  {
    SlotOfBlock(bn);
    var x := SlotOf(bn);
    var b := At(v, blks, x);
    if b != 0 {
      forall q | Slot(q) && q < s ensures At(v, blks, q) != b {
        assert |q| < |s| && q[0] == s[0];
      }
    } else if At(w, blks', x) != 0 {
      assert x <= s && x[0] == s[0] && |x| == |s|;
      assert x == s;
    }
  }

  /** A tree whose blocks do not change does not change. */
  lemma OthersKept(v: View, w: View, blks: seq<nat>, s: seq<nat>)
    requires |blks| == NBLKINO && Slot(s)
    requires forall b :: Owns(v, blks, b) ==> Blk(w, b) == Blk(v, b)
    ensures At(w, blks, s) == At(v, blks, s)
  {
    forall q | q < s[1..] && Walk(v, blks[s[0]], q) != 0
      ensures Blk(w, Walk(v, blks[s[0]], q)) == Blk(v, Walk(v, blks[s[0]], q))
    {
      EntrySlot(s[0], q);
      assert At(v, blks, [s[0]] + q) == Walk(v, blks[s[0]], q);
    }
    WalkFrame(v, w, blks[s[0]], s[1..]);
  }

  // ---------------------------------------------------------- what bmap gives

  /** Above a block there are index blocks only. */
  lemma AboveMapped(v: View, blks: seq<nat>, x: seq<nat>, s: seq<nat>)
    requires |blks| == NBLKINO && Slot(x) && Slot(s) && x <= s && At(v, blks, s) != 0
    ensures At(v, blks, x) != 0
  {
    var p, q := x[1..], s[|x|..];
    assert s[1..] == p + q;
    WalkAppend(v, blks[s[0]], p, q);
    WalkNull(v, q);
  }

  /** Mapping a block that is mapped allocates nothing and changes no slot. */
  lemma MappedOnce(v: View, blks: seq<nat>, w: View, blks': seq<nat>, s: seq<nat>, news: set<nat>, dom: set<nat>)
    requires InodeOk(v, blks, dom) && news !! dom && InodeGrown(v, blks, w, blks', s, news) && At(v, blks, s) != 0
    ensures news == {} && forall x {:trigger At(w, blks', x)} :: Slot(x) ==> At(w, blks', x) == At(v, blks, x)
  {
    forall x | Slot(x) ensures At(w, blks', x) == At(v, blks, x) {
      if x <= s { AboveMapped(v, blks, x, s); }
    }
    forall b ensures b !in news {
      if b in news {
        var x :| Slot(x) && x <= s && At(w, blks', x) == b;
        AboveMapped(v, blks, x, s);
      }
    }
  }

  /** Two logical blocks never share a block. */
  lemma BlocksDiffer(v: View, blks: seq<nat>, dom: set<nat>, a: nat, b: nat)
    requires InodeOk(v, blks, dom) && a < b < MaxBlocks()
    ensures Slot(SlotOf(a)) && Slot(SlotOf(b))
    ensures At(v, blks, SlotOf(a)) != 0 ==> At(v, blks, SlotOf(a)) != At(v, blks, SlotOf(b))
  {
    SlotOfBlock(a);
    SlotOfBlock(b);
  }

  /** Mapping a block of one inode changes neither the slots nor the blocks of another. */
  lemma OtherInodeKept(v: View, blks: seq<nat>, w: View, blks': seq<nat>, s: seq<nat>, news: set<nat>, dom: set<nat>,
                       other: seq<nat>, dom': set<nat>, x: seq<nat>)
    requires InodeOk(v, blks, dom) && InodeGrown(v, blks, w, blks', s, news)
    requires InodeOk(v, other, dom') && dom !! dom' && news !! dom' && Slot(x)
    ensures At(w, other, x) == At(v, other, x)
    ensures At(v, other, x) != 0 ==> Blk(w, At(v, other, x)) == Blk(v, At(v, other, x))
  {
    forall b | Owns(v, other, b) ensures Blk(w, b) == Blk(v, b) {
      assert b in dom';
      forall q | Slot(q) && q < s ensures At(v, blks, q) != b { assert At(v, blks, q) in dom || At(v, blks, q) == 0; }
    }
    OthersKept(v, w, other, x);
    if At(v, other, x) != 0 { assert Owns(v, other, At(v, other, x)); }
  }
}
