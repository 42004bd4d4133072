/** The invariant of the machine: every step keeps it, so it holds in every reachable state. */
module MachineInv {
  import opened Bytes
  import opened Tree
  import opened Slots
  import opened Machine

  // ------------------------------------------------------------------- one tree

  /** A tree whose blocks do not change is the same tree. */
  lemma SameTree(v: View, w: View, blks: seq<nat>)
    requires |blks| == NBLKINO && forall b :: Owns(v, blks, b) ==> Blk(w, b) == Blk(v, b)
    ensures forall s :: Slot(s) ==> At(w, blks, s) == At(v, blks, s)
    ensures forall b :: Owns(w, blks, b) <==> Owns(v, blks, b)
  {
    forall s | Slot(s) ensures At(w, blks, s) == At(v, blks, s) { OthersKept(v, w, blks, s); }
    forall b ensures Owns(w, blks, b) <==> Owns(v, blks, b) {
      if Owns(w, blks, b) { var s :| Slot(s) && At(w, blks, s) == b; assert At(v, blks, s) == b; }
      if Owns(v, blks, b) { var s :| Slot(s) && At(v, blks, s) == b; assert At(w, blks, s) == b; }
    }
  }

  lemma SameTreeOk(v: View, w: View, blks: seq<nat>, dom: set<nat>, dom': set<nat>)
    requires InodeOk(v, blks, dom) && forall b :: Owns(v, blks, b) ==> Blk(w, b) == Blk(v, b)
    requires forall b :: Owns(v, blks, b) ==> b in dom'
    ensures InodeOk(w, blks, dom')
  {
    SameTree(v, w, blks);
    forall s | Slot(s) && At(w, blks, s) != 0 ensures At(w, blks, s) in dom' {
      assert Owns(v, blks, At(v, blks, s));
    }
    forall s, t | Slot(s) && Slot(t) && At(w, blks, s) == At(w, blks, t) != 0 ensures s == t {
      assert At(v, blks, s) == At(v, blks, t);
    }
  }

  /** An inode record that lacks some pointers is a part of the tree. */
  lemma BehindSlot(v: View, saved: seq<nat>, blks: seq<nat>, s: seq<nat>)
    requires Behind(saved, blks) && Slot(s)
    ensures At(v, saved, s) == 0 || At(v, saved, s) == At(v, blks, s)
  {
    if saved[s[0]] == 0 { WalkNull(v, s[1..]); }
  }

  lemma BehindOwns(v: View, saved: seq<nat>, blks: seq<nat>, b: nat)
    requires Behind(saved, blks) && Owns(v, saved, b)
    ensures Owns(v, blks, b)
  {
    var s :| Slot(s) && At(v, saved, s) == b;
    BehindSlot(v, saved, blks, s);
  }

  lemma BehindOk(v: View, saved: seq<nat>, blks: seq<nat>, dom: set<nat>, dom': set<nat>)
    requires Behind(saved, blks) && InodeOk(v, blks, dom) && forall b :: Owns(v, blks, b) ==> b in dom'
    ensures InodeOk(v, saved, dom')
  {
    forall s | Slot(s) && At(v, saved, s) != 0 ensures At(v, saved, s) in dom' {
      BehindSlot(v, saved, blks, s);
      assert Owns(v, blks, At(v, blks, s));
    }
    forall s, t | Slot(s) && Slot(t) && At(v, saved, s) == At(v, saved, t) != 0 ensures s == t {
      BehindSlot(v, saved, blks, s);
      BehindSlot(v, saved, blks, t);
    }
  }

  lemma OwnsInDom(v: View, blks: seq<nat>, dom: set<nat>, b: nat)
    requires InodeOk(v, blks, dom) && Owns(v, blks, b)
    ensures b in dom
  {
    var s :| Slot(s) && At(v, blks, s) == b;
    assert At(v, blks, s) in dom;
  }

  // ------------------------------------------------------------------ ownership

  lemma OnDiskMarked(s: State, i: nat, b: nat)
    requires DiskOk(s) && OnDisk(s, i, b)
    ensures b in s.num.bits
  {
    OwnsInDom(s.disk, s.inodes[i], s.num.bits, b);
  }

  lemma TakenUnmarked(s: State, t: nat, b: nat)
    requires N.Inv(s.num) && LocksOk(s) && t in s.locals && b in s.Taken(t)
    ensures b !in s.num.bits && b in s.num.used && b in s.num.txns[t].Held()
  {
    assert b in s.num.txns[t].Held();
    assert N.HeldBySome(s.num, b);
  }

  /** No block belongs to two transactions. */
  lemma MineUnique(s: State, t: nat, u: nat, b: nat)
    requires Inv(s) && Mine(s, t, b) && Mine(s, u, b)
    ensures t == u
  {
    if b in s.Taken(t) {
      TakenUnmarked(s, t, b);
      if b in s.Taken(u) {
        TakenUnmarked(s, u, b);
      } else {
        var i :| i in s.locals[u].objs && OnDisk(s, i, b);
        OnDiskMarked(s, i, b);
      }
    } else {
      var i :| i in s.locals[t].objs && OnDisk(s, i, b);
      OnDiskMarked(s, i, b);
      if b in s.Taken(u) { TakenUnmarked(s, u, b); }
    }
  }

  /** A block of a transaction that an inode holds on disk is of an inode it has locked. */
  lemma MineOnDisk(s: State, t: nat, b: nat, j: nat)
    requires Inv(s) && Mine(s, t, b) && OnDisk(s, j, b)
    ensures j in s.locals[t].objs
  {
    OnDiskMarked(s, j, b);
    if b in s.Taken(t) { TakenUnmarked(s, t, b); }
  }

  lemma MineUsed(s: State, t: nat, b: nat)
    requires Inv(s) && Mine(s, t, b)
    ensures b in s.num.bits + s.Taken(t) && b in s.num.used
  {
    if b in s.Taken(t) {
      TakenUnmarked(s, t, b);
    } else {
      var i :| i in s.locals[t].objs && OnDisk(s, i, b);
      OnDiskMarked(s, i, b);
    }
  }

  lemma InTxnMine(s: State, t: nat, i: nat, b: nat)
    requires Inv(s) && InTxn(s, t, i, b)
    ensures Mine(s, t, b) && b !in s.Freed(t)
  {
    assert TxnOk(s, t);
    assert ObjOk(s, t, i);
  }

  // ----------------------------------------------------------------------- work

  /** An operation gives back only blocks that it may give back. */
  lemma WorkAllowed(s: State, t: nat, i: nat, obj: Obj, writes: View, news: set<nat>, freed: set<nat>)
    requires Inv(s) && Enabled(s, Work(t, i, obj, writes, news, freed))
    ensures N.Enabled(s.num, N.Work(t, news, freed))
  {
    forall n | n in freed ensures N.MayFree(s.num, t, s.Taken(t) + news, n) {
      if n !in news {
        assert InTxn(s, t, i, n);
        InTxnMine(s, t, i, n);
        MineUsed(s, t, n);
      }
      forall u | s.num.Is(u, N.Active) ensures n !in s.Freed(u) {
        assert u in s.locals && TxnOk(s, u);
        if n in s.Freed(u) {
          assert Mine(s, u, n);
          MineUsed(s, u, n);
          if n !in news { MineUnique(s, t, u, n); }
        }
      }
    }
  }

  datatype W = W(s: State, t: nat, i: nat, obj: Obj, writes: View, news: set<nat>, freed: set<nat>, s': State)
  {
    ghost predicate Ok() {
      Inv(s) && Enabled(s, Work(t, i, obj, writes, news, freed)) && Next(s, Work(t, i, obj, writes, news, freed), s')
    }
    ghost function O(): Obj requires Ok() { s.locals[t].objs[i] }
  }

  lemma WorkOnDisk(k: W, j: nat, b: nat)
    requires k.Ok()
    ensures OnDisk(k.s', j, b) <==> OnDisk(k.s, j, b)
  {}

  /** The part of two states that transaction u depends on is the same. */
  ghost predicate Alike(s: State, s': State, u: nat) {
    && s'.sup == s.sup && s'.disk == s.disk && s'.inodes == s.inodes && s'.num.bits == s.num.bits
    && u in s.locals && u in s.num.txns && u in s'.locals && u in s'.num.txns
    && s'.locals[u] == s.locals[u] && s'.num.txns[u] == s.num.txns[u]
  }

  lemma AlikeMine(s: State, s': State, u: nat, b: nat)
    requires Alike(s, s', u) && Mine(s, u, b)
    ensures Mine(s', u, b)
  {
    if b !in s.Taken(u) {
      var i :| i in s.locals[u].objs && OnDisk(s, i, b);
      assert OnDisk(s', i, b);
    }
  }

  lemma AlikeObj(s: State, s': State, u: nat, j: nat)
    requires Alike(s, s', u) && j in s.locals[u].objs && ObjOk(s, u, j)
    ensures ObjOk(s', u, j)
  {
    assert s'.Sees(u) == s.Sees(u);
    forall b | InTxn(s', u, j, b) ensures b !in s'.Freed(u) && (b in s'.Taken(u) || OnDisk(s', j, b)) {
      assert InTxn(s, u, j, b);
    }
  }

  /** A transaction does not notice a step that leaves its part of the state alone. */
  lemma AlikeTxn(s: State, s': State, u: nat)
    requires Alike(s, s', u) && TxnOk(s, u)
    ensures TxnOk(s', u)
  {
    forall b | b in s'.locals[u].writes ensures Mine(s', u, b) { AlikeMine(s, s', u, b); }
    forall b | b in s'.Freed(u) ensures Mine(s', u, b) && Blk(s'.Sees(u), b) == ZeroBlock() { AlikeMine(s, s', u, b); }
    forall j | j in s'.locals[u].objs ensures ObjOk(s', u, j) { AlikeObj(s, s', u, j); }
    forall i, j, b | InTxn(s', u, i, b) && InTxn(s', u, j, b) ensures i == j {
      assert InTxn(s, u, i, b) && InTxn(s, u, j, b);
    }
  }

  /** A block of another inode of the transaction is not in the inode worked on. */
  lemma WorkApart(k: W, j: nat, b: nat)
    requires k.Ok() && j != k.i && InTxn(k.s, k.t, j, b)
    ensures !Owns(k.s.Sees(k.t), k.s.locals[k.t].objs[k.i].blks, b) && b !in k.news
  {
    InTxnMine(k.s, k.t, j, b);
    MineUsed(k.s, k.t, b);
    assert Apart(k.s, k.t) by { assert TxnOk(k.s, k.t); }
    assert !InTxn(k.s, k.t, k.i, b);
  }

  lemma StepFrame(v: View, blks: seq<nat>, w: View, blks': seq<nat>, news: set<nat>, freed: set<nat>, b: nat)
    requires TreeStep(v, blks, w, blks', news, freed) && !Owns(v, blks, b) && b !in news
    ensures Blk(w, b) == Blk(v, b) && b !in freed
  {}

  /** So the operation neither frees nor touches it. */
  lemma WorkOtherBlock(k: W, j: nat, b: nat)
    requires k.Ok() && j != k.i && InTxn(k.s, k.t, j, b)
    ensures Blk(k.s'.Sees(k.t), b) == Blk(k.s.Sees(k.t), b) && b !in k.freed && b !in k.news
  {
    WorkApart(k, j, b);
    StepFrame(k.s.Sees(k.t), k.s.locals[k.t].objs[k.i].blks, k.s'.Sees(k.t), k.obj.blks, k.news, k.freed, b);
  }

  /** An inode of a transaction whose blocks do not change for the transaction. */
  lemma TreeStays(s: State, s': State, t: nat, j: nat, dom: set<nat>, dom': set<nat>)
    requires t in s.locals && t in s'.locals && j in s.locals[t].objs && j in s'.locals[t].objs
    requires s'.locals[t].objs[j].blks == s.locals[t].objs[j].blks && InodeOk(s.Sees(t), s.locals[t].objs[j].blks, dom)
    requires forall b :: InTxn(s, t, j, b) ==> Blk(s'.Sees(t), b) == Blk(s.Sees(t), b) && b in dom'
    ensures InodeOk(s'.Sees(t), s.locals[t].objs[j].blks, dom')
    ensures forall b :: InTxn(s', t, j, b) <==> InTxn(s, t, j, b)
  {
    var v, w, blks := s.Sees(t), s'.Sees(t), s.locals[t].objs[j].blks;
    forall b | Owns(v, blks, b) ensures Blk(w, b) == Blk(v, b) && b in dom' { assert InTxn(s, t, j, b); }
    SameTree(v, w, blks);
    SameTreeOk(v, w, blks, dom, dom');
  }

  lemma WorkOther(k: W, j: nat)
    requires k.Ok() && j in k.s.locals[k.t].objs && j != k.i
    ensures ObjOk(k.s', k.t, j)
    ensures forall b :: InTxn(k.s', k.t, j, b) <==> InTxn(k.s, k.t, j, b)
  {
    var s, s', t := k.s, k.s', k.t;
    assert s'.locals[t].objs[j] == s.locals[t].objs[j];
    assert TxnOk(s, t) && ObjOk(s, t, j);
    forall b | InTxn(s, t, j, b) ensures Blk(s'.Sees(t), b) == Blk(s.Sees(t), b) && b in s'.num.bits + s'.Taken(t) {
      WorkOtherBlock(k, j, b);
      InTxnMine(s, t, j, b);
      MineUsed(s, t, b);
    }
    TreeStays(s, s', t, j, s.num.bits + s.Taken(t), s'.num.bits + s'.Taken(t));
    forall b | InTxn(s', t, j, b) ensures b !in s'.Freed(t) && (b in s'.Taken(t) || OnDisk(s', j, b)) {
      assert InTxn(s, t, j, b);
      WorkOtherBlock(k, j, b);
      WorkOnDisk(k, j, b);
    }
  }

  lemma WorkSame(k: W)
    requires k.Ok()
    ensures ObjOk(k.s', k.t, k.i)
    ensures forall b :: InTxn(k.s', k.t, k.i, b) ==> InTxn(k.s, k.t, k.i, b) || b in k.news
  {
    var s, s', t, i := k.s, k.s', k.t, k.i;
    assert TxnOk(s, t) && ObjOk(s, t, i);
    assert s'.num.bits + s'.Taken(t) == s.num.bits + s.Taken(t) + k.news;
    forall b | InTxn(s', t, i, b)
      ensures InTxn(s, t, i, b) || b in k.news
      ensures b !in s'.Freed(t) && (b in s'.Taken(t) || OnDisk(s', i, b))
    {
      WorkOnDisk(k, i, b);
      if b in k.news {
        if b in s.Freed(t) { MineUsed(s, t, b); }
      } else {
        assert InTxn(s, t, i, b);
      }
    }
  }

  lemma WorkMine(k: W, b: nat)
    requires k.Ok() && (Mine(k.s, k.t, b) || b in k.news)
    ensures Mine(k.s', k.t, b)
  {
    if b !in k.news && b !in k.s.Taken(k.t) {
      var j :| j in k.s.locals[k.t].objs && OnDisk(k.s, j, b);
      WorkOnDisk(k, j, b);
      assert j in k.s'.locals[k.t].objs;
    }
  }

  lemma WorkHere(k: W)
    requires k.Ok()
    ensures k.t in k.s'.locals && k.t in k.s'.num.txns && TxnOk(k.s', k.t)
  {
    var s', t := k.s', k.t;
    assert WritesOk(s', t) by {
      assert TxnOk(k.s, t);
      forall b | b in s'.locals[t].writes ensures Mine(s', t, b) { WorkMine(k, b); }
    }
    assert FreedOk(s', t) by {
      forall b | b in s'.Freed(t) ensures Mine(s', t, b) && Blk(s'.Sees(t), b) == ZeroBlock() { WorkFreed(k, b); }
    }
    assert ObjsOk(s', t) by {
      forall j | j in s'.locals[t].objs ensures ObjOk(s', t, j) {
        if j == k.i { WorkSame(k); } else { WorkOther(k, j); }
      }
    }
    assert Apart(s', t) by {
      forall i, j, b | InTxn(s', t, i, b) && InTxn(s', t, j, b) ensures i == j { WorkDistinct(k, i, j, b); }
    }
  }

  lemma WorkFreed(k: W, b: nat)
    requires k.Ok() && b in k.s'.Freed(k.t)
    ensures Mine(k.s', k.t, b) && Blk(k.s'.Sees(k.t), b) == ZeroBlock()
  {
    var s, t := k.s, k.t;
    assert TxnOk(s, t);
    if b in k.freed {
      if b !in k.news { assert InTxn(s, t, k.i, b); InTxnMine(s, t, k.i, b); }
    } else {
      MineUsed(s, t, b);
      if Owns(s.Sees(t), k.O().blks, b) { assert InTxn(s, t, k.i, b); InTxnMine(s, t, k.i, b); }
    }
    WorkMine(k, b);
  }

  lemma WorkDistinct(k: W, i: nat, j: nat, b: nat)
    requires k.Ok() && InTxn(k.s', k.t, i, b) && InTxn(k.s', k.t, j, b)
    ensures i == j
  {
    var s, t := k.s, k.t;
    assert TxnOk(s, t);
    WorkSame(k);
    if i != k.i { WorkOther(k, i); WorkOtherBlock(k, i, b); }
    if j != k.i { WorkOther(k, j); WorkOtherBlock(k, j, b); }
  }

  /** A step that leaves disk and bitmap alone: a transaction it does not touch is well
      formed because it was. */
  lemma InvDiskAlike(s: State, s': State)
    requires Inv(s) && N.Inv(s'.num) && LocksOk(s') && DataOnly(s')
    requires s'.sup == s.sup && s'.disk == s.disk && s'.inodes == s.inodes && s'.num.bits == s.num.bits
    requires forall u :: u in s'.locals ==> Alike(s, s', u) || TxnOk(s', u)
    ensures Inv(s')
  {
    forall i, j, b | OnDisk(s', i, b) && OnDisk(s', j, b) ensures i == j {
      assert OnDisk(s, i, b) && OnDisk(s, j, b);
    }
    forall u | u in s'.locals ensures TxnOk(s', u) {
      if Alike(s, s', u) {
        assert TxnOk(s, u);
        AlikeTxn(s, s', u);
      }
    }
  }

  lemma WorkAlike(k: W, u: nat)
    requires k.Ok() && u in k.s'.locals && u != k.t
    ensures Alike(k.s, k.s', u)
  {
    assert k.s.num.Is(u, N.Active);
  }

  lemma WorkLocks(k: W)
    requires k.Ok()
    ensures LocksOk(k.s')
  {}

  lemma InvWork(s: State, step: Step, s': State)
    requires Inv(s) && Enabled(s, step) && step.Work? && Next(s, step, s')
    ensures Inv(s')
  {
    var k := W(s, step.t, step.i, step.obj, step.writes, step.news, step.freed, s');
    N.InvStep(s.num, N.Work(step.t, step.news, step.freed));
    WorkLocks(k);
    WorkHere(k);
    forall u | u in s'.locals && u != step.t ensures Alike(s, s', u) { WorkAlike(k, u); }
    InvDiskAlike(s, s');
  }

  // --------------------------------------------------------------------- commit

  datatype C = C(s: State, t: nat, s': State)
  {
    ghost predicate Ok() { Inv(s) && t in s.locals && Enabled(s, Commit(t)) && Next(s, Commit(t), s') }
  }

  /** A block that is not the transaction's stays as it is on disk. */
  lemma CommitOutside(k: C, b: nat)
    requires k.Ok() && !Mine(k.s, k.t, b)
    ensures Blk(k.s'.disk, b) == Blk(k.s.disk, b)
  {
    assert TxnOk(k.s, k.t);
  }

  /** An inode that the transaction has not locked keeps its tree. */
  lemma CommitUnlocked(k: C, j: nat)
    requires k.Ok() && j in k.s.inodes && j !in k.s.locals[k.t].objs
    ensures j in k.s'.inodes && k.s'.inodes[j] == k.s.inodes[j]
    ensures InodeOk(k.s'.disk, k.s'.inodes[j], k.s'.num.bits)
    ensures forall b :: OnDisk(k.s', j, b) <==> OnDisk(k.s, j, b)
  {
    var s, s', t := k.s, k.s', k.t;
    var blks := s.inodes[j];
    assert InodeOk(s.disk, blks, s.num.bits);
    forall b | Owns(s.disk, blks, b) ensures Blk(s'.disk, b) == Blk(s.disk, b) && b in s'.num.bits {
      assert OnDisk(s, j, b);
      OnDiskMarked(s, j, b);
      if Mine(s, t, b) { MineOnDisk(s, t, b, j); }
      CommitOutside(k, b);
      assert FreedOk(s, t) by { assert TxnOk(s, t); }
    }
    SameTree(s.disk, s'.disk, blks);
    SameTreeOk(s.disk, s'.disk, blks, s.num.bits, s'.num.bits);
  }

  /** An inode that the transaction has locked gets the record it has written. */
  lemma CommitLocked(k: C, j: nat)
    requires k.Ok() && j in k.s.locals[k.t].objs
    ensures j in k.s'.inodes && InodeOk(k.s'.disk, k.s'.inodes[j], k.s'.num.bits)
    ensures forall b :: OnDisk(k.s', j, b) ==> InTxn(k.s, k.t, j, b)
    ensures k.s.locals[k.t].objs[j].saved == k.s.locals[k.t].objs[j].blks ==>
              forall b :: InTxn(k.s, k.t, j, b) ==> OnDisk(k.s', j, b)
  {
    var s, s', t := k.s, k.s', k.t;
    var o := s.locals[t].objs[j];
    assert ObjOk(s, t, j) by { assert TxnOk(s, t); }
    assert s'.inodes[j] == o.saved && s'.disk == s.Sees(t);
    forall b | Owns(s.Sees(t), o.blks, b) ensures b in s'.num.bits {
      assert InTxn(s, t, j, b);
      InTxnMine(s, t, j, b);
      MineUsed(s, t, b);
    }
    BehindOk(s.Sees(t), o.saved, o.blks, s.num.bits + s.Taken(t), s'.num.bits);
    forall b | OnDisk(s', j, b) ensures InTxn(s, t, j, b) { BehindOwns(s.Sees(t), o.saved, o.blks, b); }
  }

  /** Where a block on the new disk comes from. */
  lemma CommitSource(k: C, j: nat, b: nat)
    requires k.Ok() && OnDisk(k.s', j, b)
    ensures j in k.s.locals[k.t].objs ==> InTxn(k.s, k.t, j, b) && Mine(k.s, k.t, b)
    ensures j !in k.s.locals[k.t].objs ==> OnDisk(k.s, j, b) && !Mine(k.s, k.t, b)
  {
    if j in k.s.locals[k.t].objs {
      CommitLocked(k, j);
      InTxnMine(k.s, k.t, j, b);
    } else {
      CommitUnlocked(k, j);
      if Mine(k.s, k.t, b) { MineOnDisk(k.s, k.t, b, j); }
    }
  }

  lemma CommitDisk(k: C)
    requires k.Ok()
    ensures DiskOk(k.s')
  {
    var s, s', t := k.s, k.s', k.t;
    forall b | s'.sup.Data(b) && b !in s'.num.bits ensures Blk(s'.disk, b) == ZeroBlock() {
      if b in s.Freed(t) {
        assert TxnOk(s, t);
      } else {
        if Mine(s, t, b) { MineUsed(s, t, b); }
        CommitOutside(k, b);
      }
    }
    forall i | i in s'.inodes ensures InodeOk(s'.disk, s'.inodes[i], s'.num.bits) {
      if i in s.locals[t].objs { CommitLocked(k, i); } else { CommitUnlocked(k, i); }
    }
    forall i, j, b | OnDisk(s', i, b) && OnDisk(s', j, b) ensures i == j {
      CommitSource(k, i, b);
      CommitSource(k, j, b);
      assert Apart(s, t) by { assert TxnOk(s, t); }
    }
  }

  lemma CommitMine(k: C, u: nat, b: nat)
    requires k.Ok() && u in k.s.locals && u != k.t && Mine(k.s, u, b)
    ensures u in k.s'.locals && Mine(k.s', u, b)
  {
    if b !in k.s.Taken(u) {
      var i :| i in k.s.locals[u].objs && OnDisk(k.s, i, b);
      CommitUnlocked(k, i);
      assert OnDisk(k.s', i, b);
    }
  }

  /** What another transaction owns and sees does not change. */
  lemma CommitSees(k: C, u: nat, b: nat)
    requires k.Ok() && u in k.s.locals && u != k.t && Mine(k.s, u, b)
    ensures u in k.s'.locals && Blk(k.s'.Sees(u), b) == Blk(k.s.Sees(u), b) && b !in k.s.Freed(k.t)
  {
    if Mine(k.s, k.t, b) { MineUnique(k.s, k.t, u, b); }
    CommitOutside(k, b);
    assert FreedOk(k.s, k.t) by { assert TxnOk(k.s, k.t); }
  }

  lemma CommitNums(k: C, u: nat)
    requires k.Ok() && u in k.s.locals && u != k.t
    ensures u in k.s.num.txns && u in k.s'.num.txns && k.s'.Taken(u) == k.s.Taken(u) && k.s'.Freed(u) == k.s.Freed(u)
    ensures k.t in k.s.num.txns && k.s'.num.bits == (k.s.num.bits + k.s.Taken(k.t)) - k.s.Freed(k.t)
  {
    assert k.s.num.Is(u, N.Active) && k.s.num.Is(k.t, N.Active);
  }

  lemma CommitObjBlock(k: C, u: nat, j: nat, b: nat)
    requires k.Ok() && u in k.s.locals && u != k.t && InTxn(k.s, u, j, b)
    ensures u in k.s'.locals && u in k.s'.num.txns && Blk(k.s'.Sees(u), b) == Blk(k.s.Sees(u), b)
    ensures b in k.s'.num.bits + k.s'.Taken(u)
  {
    CommitNums(k, u);
    InTxnMine(k.s, u, j, b);
    MineUsed(k.s, u, b);
    CommitSees(k, u, b);
  }

  /** The tree of an inode in another transaction stays as it is. */
  lemma CommitObjTree(k: C, u: nat, j: nat)
    requires k.Ok() && u in k.s.locals && u != k.t && j in k.s.locals[u].objs
    ensures u in k.s'.locals && u in k.s'.num.txns && k.s'.locals[u] == k.s.locals[u]
    ensures InodeOk(k.s'.Sees(u), k.s.locals[u].objs[j].blks, k.s'.num.bits + k.s'.Taken(u))
    ensures forall b :: InTxn(k.s', u, j, b) <==> InTxn(k.s, u, j, b)
  {
    CommitNums(k, u);
    assert ObjOk(k.s, u, j) by { assert TxnOk(k.s, u); }
    assert k.s'.locals[u] == k.s.locals[u];
    forall b | InTxn(k.s, u, j, b)
      ensures Blk(k.s'.Sees(u), b) == Blk(k.s.Sees(u), b) && b in k.s'.num.bits + k.s'.Taken(u)
    {
      CommitObjBlock(k, u, j, b);
    }
    TreeStays(k.s, k.s', u, j, k.s.num.bits + k.s.Taken(u), k.s'.num.bits + k.s'.Taken(u));
  }

  lemma CommitObj(k: C, u: nat, j: nat)
    requires k.Ok() && u in k.s.locals && u != k.t && j in k.s.locals[u].objs
    ensures u in k.s'.locals && u in k.s'.num.txns && ObjOk(k.s', u, j)
    ensures forall b :: InTxn(k.s', u, j, b) <==> InTxn(k.s, u, j, b)
  {
    CommitNums(k, u);
    CommitObjTree(k, u, j);
    forall b | InTxn(k.s', u, j, b) ensures b !in k.s'.Freed(u) && (b in k.s'.Taken(u) || OnDisk(k.s', j, b)) {
      CommitOwner(k, u, j, b);
    }
    assert Behind(k.s.locals[u].objs[j].saved, k.s.locals[u].objs[j].blks) by { assert TxnOk(k.s, u) &&
        ObjOk(k.s, u, j); }
  }

  lemma CommitOwner(k: C, u: nat, j: nat, b: nat)
    requires k.Ok() && u in k.s.locals && u != k.t && u in k.s'.num.txns && InTxn(k.s, u, j, b)
    ensures b !in k.s'.Freed(u) && (b in k.s'.Taken(u) || OnDisk(k.s', j, b))
  {
    CommitNums(k, u);
    assert TxnOk(k.s, u) && ObjOk(k.s, u, j);
    CommitUnlocked(k, j);
  }

  lemma CommitElsewhere(k: C, u: nat)
    requires k.Ok() && u in k.s.locals && u != k.t
    ensures u in k.s'.locals && u in k.s'.num.txns && TxnOk(k.s', u)
  {
    var s, s' := k.s, k.s';
    assert TxnOk(s, u);
    assert WritesOk(s', u) by {
      forall b | b in s'.locals[u].writes ensures Mine(s', u, b) { CommitMine(k, u, b); }
    }
    assert FreedOk(s', u) by {
      forall b | b in s'.Freed(u) ensures Mine(s', u, b) && Blk(s'.Sees(u), b) == ZeroBlock() {
        CommitMine(k, u, b);
        CommitSees(k, u, b);
      }
    }
    assert ObjsOk(s', u) by {
      forall j | j in s'.locals[u].objs ensures ObjOk(s', u, j) { CommitObj(k, u, j); }
    }
    forall i, j, b | InTxn(s', u, i, b) && InTxn(s', u, j, b) ensures i == j {
      CommitObj(k, u, i);
      CommitObj(k, u, j);
      assert InTxn(s, u, i, b) && InTxn(s, u, j, b);
    }
  }

  lemma InvCommit(s: State, t: nat, s': State)
    requires Inv(s) && Enabled(s, Commit(t)) && Next(s, Commit(t), s')
    ensures Inv(s')
  {
    var k := C(s, t, s');
    N.InvStep(s.num, N.Commit(t));
    CommitDisk(k);
    forall u | u in s'.locals ensures TxnOk(s', u) { CommitElsewhere(k, u); }
  }

  // ------------------------------------------------------------ the other steps

  lemma InvLock(s: State, t: nat, i: nat, s': State)
    requires Inv(s) && Enabled(s, Lock(t, i)) && Next(s, Lock(t, i), s')
    ensures Inv(s')
  {
    LockHere(s, t, i, s');
    forall u | u in s'.locals && u != t ensures Alike(s, s', u) { assert s.num.Is(u, N.Active); }
    InvDiskAlike(s, s');
  }

  /** A block of an inode nobody had locked is as on disk for whoever locks it. */
  lemma LockBlock(s: State, t: nat, i: nat, s': State, b: nat)
    requires Inv(s) && Enabled(s, Lock(t, i)) && Next(s, Lock(t, i), s') && OnDisk(s, i, b)
    ensures !Mine(s, t, b) && Blk(s.Sees(t), b) == Blk(s.disk, b)
  {
    if Mine(s, t, b) { MineOnDisk(s, t, b, i); }
    assert TxnOk(s, t);
  }

  lemma LockObj(s: State, t: nat, i: nat, s': State)
    requires Inv(s) && Enabled(s, Lock(t, i)) && Next(s, Lock(t, i), s')
    ensures ObjOk(s', t, i)
    ensures forall b :: InTxn(s', t, i, b) <==> OnDisk(s, i, b)
  {
    var blks := s.inodes[i];
    assert s'.Sees(t) == s.Sees(t) && InodeOk(s.disk, blks, s.num.bits);
    forall b | Owns(s.disk, blks, b) ensures Blk(s.Sees(t), b) == Blk(s.disk, b) && b in s.num.bits + s.Taken(t) {
      assert OnDisk(s, i, b);
      LockBlock(s, t, i, s', b);
      OnDiskMarked(s, i, b);
    }
    SameTree(s.disk, s.Sees(t), blks);
    SameTreeOk(s.disk, s.Sees(t), blks, s.num.bits, s.num.bits + s.Taken(t));
    forall b ensures InTxn(s', t, i, b) <==> OnDisk(s, i, b) {}
    forall b | InTxn(s', t, i, b) ensures b !in s'.Freed(t) && OnDisk(s', i, b) {
      LockBlock(s, t, i, s', b);
      assert FreedOk(s, t) by { assert TxnOk(s, t); }
      assert OnDisk(s', i, b);
    }
  }

  lemma LockOther(s: State, t: nat, i: nat, s': State, j: nat)
    requires Inv(s) && Enabled(s, Lock(t, i)) && Next(s, Lock(t, i), s') && j in s.locals[t].objs
    ensures ObjOk(s', t, j)
    ensures forall b :: InTxn(s', t, j, b) <==> InTxn(s, t, j, b)
  {
    assert s'.Sees(t) == s.Sees(t);
    assert ObjOk(s, t, j) by { assert TxnOk(s, t); }
    forall b | InTxn(s', t, j, b) ensures b !in s'.Freed(t) && (b in s'.Taken(t) || OnDisk(s', j, b)) {
      assert InTxn(s, t, j, b);
      if OnDisk(s, j, b) { assert OnDisk(s', j, b); }
    }
  }

  lemma LockMine(s: State, t: nat, i: nat, s': State, b: nat)
    requires Inv(s) && Enabled(s, Lock(t, i)) && Next(s, Lock(t, i), s') && Mine(s, t, b)
    ensures Mine(s', t, b)
  {
    if b !in s.Taken(t) {
      var j :| j in s.locals[t].objs && OnDisk(s, j, b);
      assert OnDisk(s', j, b);
    }
  }

  lemma LockHere(s: State, t: nat, i: nat, s': State)
    requires Inv(s) && Enabled(s, Lock(t, i)) && Next(s, Lock(t, i), s')
    ensures TxnOk(s', t)
  {
    assert s'.Sees(t) == s.Sees(t);
    assert TxnOk(s, t);
    assert WritesOk(s', t) by {
      forall b | b in s'.locals[t].writes ensures Mine(s', t, b) { LockMine(s, t, i, s', b); }
    }
    assert FreedOk(s', t) by {
      forall b | b in s'.Freed(t) ensures Mine(s', t, b) && Blk(s'.Sees(t), b) == ZeroBlock() {
        LockMine(s, t, i, s', b);
      }
    }
    assert ObjsOk(s', t) by {
      forall j | j in s'.locals[t].objs ensures ObjOk(s', t, j) {
        if j == i { LockObj(s, t, i, s'); } else { LockOther(s, t, i, s', j); }
      }
    }
    forall x, y, b | InTxn(s', t, x, b) && InTxn(s', t, y, b) ensures x == y {
      LockDistinct(s, t, i, s', x, y, b);
    }
  }

  lemma LockDistinct(s: State, t: nat, i: nat, s': State, x: nat, y: nat, b: nat)
    requires Inv(s) && Enabled(s, Lock(t, i)) && Next(s, Lock(t, i), s') && InTxn(s', t, x, b) && InTxn(s', t, y, b)
    ensures x == y
  {
    LockObj(s, t, i, s');
    if x == i || y == i { LockBlock(s, t, i, s', b); }
    if x != i { LockOther(s, t, i, s', x); InTxnMine(s, t, x, b); }
    if y != i { LockOther(s, t, i, s', y); InTxnMine(s, t, y, b); }
    assert Apart(s, t) by { assert TxnOk(s, t); }
  }

  lemma InvBegin(s: State, t: nat, s': State)
    requires Inv(s) && Enabled(s, Begin(t)) && Next(s, Begin(t), s')
    ensures Inv(s')
  {
    N.InvStep(s.num, N.Begin(t));
    NewTxnOk(s', t);
    forall u | u in s'.locals && u != t ensures Alike(s, s', u) { assert s.num.Is(u, N.Active); }
    InvDiskAlike(s, s');
  }

  /** A transaction that has done nothing. */
  lemma NewTxnOk(s: State, t: nat)
    requires t in s.locals && s.locals[t] == Local(map[], map[]) && t in s.num.txns
    requires s.num.txns[t] == N.Txn(N.Active, {}, {})
    ensures TxnOk(s, t)
  {}

  lemma InvAbort(s: State, t: nat, s': State)
    requires Inv(s) && Enabled(s, Abort(t)) && Next(s, Abort(t), s')
    ensures Inv(s')
  {
    N.InvStep(s.num, N.Abort(t));
    InvDiskAlike(s, s');
  }

  lemma InvLetGo(s: State, num: N.Step, s': State)
    requires Inv(s) && Enabled(s, LetGo(num)) && Next(s, LetGo(num), s')
    ensures Inv(s')
  {
    N.InvStep(s.num, num);
    forall u ensures s'.num.Is(u, N.Active) <==> s.num.Is(u, N.Active) {}
    InvDiskAlike(s, s');
  }

  /** After a crash nothing is left but the disk, and the allocator is rebuilt from it. */
  lemma InvCrash(s: State, s': State)
    requires Inv(s) && Next(s, Crash, s')
    ensures Inv(s') && s'.num.used == s.num.bits
  {
    N.InvStep(s.num, N.Crash);
    InvDiskAlike(s, s');
  }

  /** Every step of the machine keeps the invariant. */
  lemma InvStep(s: State, step: Step, s': State)
    requires Inv(s) && Enabled(s, step) && Next(s, step, s')
    ensures Inv(s')
  {
    match step
    case Lock(t, i) => InvLock(s, t, i, s');
    case Work(_, _, _, _, _, _) => InvWork(s, step, s');
    case Commit(t) => InvCommit(s, t, s');
    case Begin(t) => InvBegin(s, t, s');
    case Abort(t) => InvAbort(s, t, s');
    case LetGo(num) => InvLetGo(s, num, s');
    case Crash => InvCrash(s, s');
  }
}
