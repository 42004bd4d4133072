/** Inodes that stay in memory after their transaction: when an abort does harm.

    The inode cache keeps the object of an inode that a transaction has let go, also when
    the transaction aborted; whoever locks the inode next works on that object. */
module Caching {
  import opened Bytes
  import opened Tree
  import opened Slots
  import opened Machine
  import opened MachineInv
  import opened Consistency

  /** The state in which a new transaction has begun. */
  ghost function Begun(s: State, t: nat): State
    requires t !in s.num.txns
  {
    s.(num := N.Apply(s.num, N.Begin(t)), locals := s.locals[t := Local(map[], map[])])
  }

  /** The state in which it has locked inode i and found these pointers in memory. */
  ghost function LockedWith(s: State, t: nat, i: nat, blks: seq<nat>): State
    requires t in s.locals && i in s.inodes
  {
    var l := s.locals[t];
    s.(locals := s.locals[t := l.(objs := l.objs[i := Obj(blks, s.inodes[i])])])
  }

  ghost predicate Unlocked(s: State, i: nat) {
    i in s.inodes && forall u :: u in s.locals ==> i !in s.locals[u].objs
  }

  /** A pointer in memory that the disk does not have breaks the invariant: its block is
      marked for nobody, or it is in the tree already. */
  lemma ExtraPointer(s: State, t: nat, i: nat, blks: seq<nat>, k: nat)
    requires Inv(s) && t !in s.num.txns && Unlocked(s, i) && Inv(LockedWith(Begun(s, t), t, i, blks))
    requires k < NBLKINO
    ensures |blks| == NBLKINO == |s.inodes[i]| && blks[k] == s.inodes[i][k]
  {
    var s' := LockedWith(Begun(s, t), t, i, blks);
    assert TxnOk(s', t) && ObjOk(s', t, i);
    assert InodeOk(s'.disk, s'.inodes[i], s'.num.bits);
    assert s'.Sees(t) == s.disk;
    var b := blks[k];
    assert Slot([k]) && [k][1..] == [] && At(s.disk, blks, [k]) == b && At(s.disk, s.inodes[i], [k]) == s.inodes[i][k];
    if b != s.inodes[i][k] {
      assert InTxn(s', t, i, b);
      assert OnDisk(s', i, b);
      var x :| Slot(x) && At(s.disk, s.inodes[i], x) == b;
      BehindSlot(s.disk, s.inodes[i], blks, x);
      assert false;
    }
  }

  lemma LockedGood(s: State, t: nat, i: nat)
    requires Inv(s) && t !in s.num.txns && Unlocked(s, i)
    ensures Inv(LockedWith(Begun(s, t), t, i, s.inodes[i]))
  {
    var s1 := Begun(s, t);
    InvBegin(s, t, s1);
    InvLock(s1, t, i, LockedWith(s1, t, i, s.inodes[i]));
  }

  /** An inode found in memory is good if and only if it is the one on disk. */
  lemma LockedIff(s: State, t: nat, i: nat, blks: seq<nat>)
    requires Inv(s) && t !in s.num.txns && Unlocked(s, i)
    ensures Inv(LockedWith(Begun(s, t), t, i, blks)) <==> blks == s.inodes[i]
  {
    var s1 := Begun(s, t);
    if blks == s.inodes[i] { LockedGood(s, t, i); }
    if Inv(LockedWith(s1, t, i, blks)) {
      ExtraPointer(s, t, i, blks, 0);
      forall k: nat | k < NBLKINO ensures blks[k] == s.inodes[i][k] { ExtraPointer(s, t, i, blks, k); }
      assert blks == s.inodes[i];
    }
  }

  /** An abort leaves its inodes in memory as they are.  Locking them again keeps the
      invariant if and only if the transaction had changed none of them. */
  lemma AbortIff(s: State, t: nat, s': State, u: nat)
    requires Inv(s) && Enabled(s, Abort(t)) && Next(s, Abort(t), s') && u !in s'.num.txns
    ensures Inv(s')
    ensures (forall i :: i in s.locals[t].objs ==>
              i in s'.inodes && Inv(LockedWith(Begun(s', u), u, i, s.locals[t].objs[i].blks))) <==>
            (forall i :: i in s.locals[t].objs ==> s.locals[t].objs[i].blks == s.inodes[i])
  {
    InvAbort(s, t, s');
    forall i | i in s.locals[t].objs
      ensures i in s'.inodes
      ensures (Inv(LockedWith(Begun(s', u), u, i, s.locals[t].objs[i].blks)) <==>
                s.locals[t].objs[i].blks == s.inodes[i])
    {
      assert Unlocked(s', i);
      LockedIff(s', u, i, s.locals[t].objs[i].blks);
    }
  }

  // -------------------------------------------------- records that lag behind

  /** Block b is marked on disk, and neither an inode on disk nor a transaction has it. */
  ghost predicate Orphan(s: State, b: nat) {
    b in s.num.bits && (forall j :: !OnDisk(s, j, b)) && (forall u :: !Mine(s, u, b))
  }

  /** After a commit only inode i can have a block that it had in the transaction. */
  lemma CommitOnly(k: C, i: nat, b: nat, j: nat)
    requires k.Ok() && InTxn(k.s, k.t, i, b) && OnDisk(k.s', j, b)
    ensures j == i
  {
    InTxnMine(k.s, k.t, i, b);
    CommitSource(k, j, b);
    assert Apart(k.s, k.t) by { assert TxnOk(k.s, k.t); }
  }

  lemma CommitNobody(k: C, i: nat, b: nat, u: nat)
    requires k.Ok() && InTxn(k.s, k.t, i, b) && !OnDisk(k.s', i, b)
    ensures !Mine(k.s', u, b)
  {
    InTxnMine(k.s, k.t, i, b);
    if Mine(k.s', u, b) {
      CommitNums(k, u);
      if b in k.s.Taken(u) {
        MineUnique(k.s, k.t, u, b);
      } else {
        var j :| j in k.s'.locals[u].objs && OnDisk(k.s', j, b);
        CommitOnly(k, i, b, j);
      }
    }
  }

  lemma CommitMarks(k: C, i: nat, b: nat)
    requires k.Ok() && InTxn(k.s, k.t, i, b)
    ensures b in k.s'.num.bits && Blk(k.s'.disk, b) == Blk(k.s.Sees(k.t), b)
  {
    InTxnMine(k.s, k.t, i, b);
    MineUsed(k.s, k.t, b);
  }

  /** A commit may leave on disk a record that lacks pointers of the inode in memory, as a
      refused READ does.  Their blocks are then marked, hold what the inode has in them, and
      are nobody else's. */
  lemma CommitLags(k: C, i: nat, b: nat)
    requires k.Ok() && InTxn(k.s, k.t, i, b)
    ensures OnDisk(k.s', i, b) || Orphan(k.s', b)
    ensures Blk(k.s'.disk, b) == Blk(k.s.Sees(k.t), b) && b in k.s'.num.bits
  {
    CommitMarks(k, i, b);
    if !OnDisk(k.s', i, b) { CommitOrphan(k, i, b); }
  }

  lemma CommitOrphan(k: C, i: nat, b: nat)
    requires k.Ok() && InTxn(k.s, k.t, i, b) && !OnDisk(k.s', i, b)
    ensures Orphan(k.s', b)
  {
    CommitMarks(k, i, b);
    forall j ensures !OnDisk(k.s', j, b) { CommitNowhere(k, i, b, j); }
    forall u ensures !Mine(k.s', u, b) { CommitNobody(k, i, b, u); }
  }

  lemma CommitNowhere(k: C, i: nat, b: nat, j: nat)
    requires k.Ok() && InTxn(k.s, k.t, i, b) && !OnDisk(k.s', i, b)
    ensures !OnDisk(k.s', j, b)
  {
    if OnDisk(k.s', j, b) { CommitOnly(k, i, b, j); }
  }

  /** They stay so in every step: nobody takes, frees or writes them. */
  lemma OrphanStays(s: State, step: Step, s': State, b: nat)
    requires Inv(s) && Enabled(s, step) && Next(s, step, s') && Orphan(s, b)
    ensures Orphan(s', b) && Blk(s'.disk, b) == Blk(s.disk, b)
    ensures step.Work? ==> b !in step.news
  {
    forall j ensures !OnDisk(s', j, b) { OrphanOnDisk(s, step, s', b, j); }
    forall u ensures !Mine(s', u, b) { OrphanMine(s, step, s', b, u); }
    if step.Commit? {
      CommitOutside(C(s, step.t, s'), b);
      assert TxnOk(s, step.t);
    }
  }

  lemma OrphanOnDisk(s: State, step: Step, s': State, b: nat, j: nat)
    requires Inv(s) && Enabled(s, step) && Next(s, step, s') && Orphan(s, b)
    ensures !OnDisk(s', j, b)
  {
    if step.Commit? {
      if OnDisk(s', j, b) { CommitSource(C(s, step.t, s'), j, b); }
    } else {
      assert OnDisk(s', j, b) <==> OnDisk(s, j, b);
    }
  }

  lemma OrphanMine(s: State, step: Step, s': State, b: nat, u: nat)
    requires Inv(s) && Enabled(s, step) && Next(s, step, s') && Orphan(s, b)
    ensures !Mine(s', u, b)
  {
    if Mine(s', u, b) {
      if b !in s'.Taken(u) {
        var j :| j in s'.locals[u].objs && OnDisk(s', j, b);
        OrphanOnDisk(s, step, s', b, j);
      } else {
        assert u in s.locals && b in s.Taken(u);
        assert Mine(s, u, b);
      }
    }
  }

  /** And so in every run: the inode that stays in memory keeps blocks it can rely on. */
  lemma {:induction false} OrphanRun(states: seq<State>, steps: seq<Step>, n: nat, b: nat)
    requires Run(states, steps) && Inv(states[0]) && Orphan(states[0], b) && n < |states|
    ensures Orphan(states[n], b) && Blk(states[n].disk, b) == Blk(states[0].disk, b)
    ensures n < |steps| && steps[n].Work? ==> b !in steps[n].news
    decreases n
  {
    RunInv(states, steps, n);
    if n > 0 {
      OrphanRun(states, steps, n - 1, b);
      RunInv(states, steps, n - 1);
      OrphanStays(states[n - 1], steps[n - 1], states[n - 1 + 1], b);
    }
    if n < |steps| { OrphanStays(states[n], steps[n], states[n + 1], b); }
  }

  // ---------------------------------------------------------- a run that fails

  /** An inode with an index block that has no leaves, as a refused allocation leaves it. */
  function OneIndex(r: nat): (blks: seq<nat>)
    ensures |blks| == NBLKINO
  {
    NoBlocks()[INDIRECT := r]
  }

  lemma OneIndexAt(v: View, r: nat, x: seq<nat>)
    requires r != 0 && Blk(v, r) == ZeroBlock() && Slot(x)
    ensures At(v, OneIndex(r), x) == if x == [INDIRECT] then r else 0
    ensures At(v, NoBlocks(), x) == 0
  {
    WalkNull(v, x[1..]);
    if x[0] == INDIRECT {
      SingleNode(v, r, Level(INDIRECT), x[1..]);
      assert x[1..] == [] <==> x == [INDIRECT];
    }
  }

  /** Taking the index block is an operation the machine allows. */
  lemma OneIndexStep(v: View, r: nat, dom: set<nat>)
    requires r != 0 && Blk(v, r) == ZeroBlock() && r in dom
    ensures TreeStep(v, NoBlocks(), v, OneIndex(r), {r}, {}) && InodeOk(v, OneIndex(r), dom)
    ensures Behind(NoBlocks(), OneIndex(r))
  {
    forall x | Slot(x)
      ensures At(v, OneIndex(r), x) == (if x == [INDIRECT] then r else 0) && At(v, NoBlocks(), x) == 0
    {
      OneIndexAt(v, r, x);
    }
  }

  /** The states of a WRITE whose leaf is refused after its index block was taken: it locks
      inode i, takes block r, aborts, and r is given back. */
  ghost function Refused(s: State, i: nat, r: nat): seq<State>
    requires Initial(s) && i in s.inodes
  {
    var s1 := Begun(s, 0);
    var s2 := LockedWith(s1, 0, i, s.inodes[i]);
    var obj := Obj(OneIndex(r), NoBlocks());
    var s3 := s2.(num := N.State({}, {r}, s2.num.txns[0 := N.Txn(N.Active, {r}, {})]),
                  locals := s2.locals[0 := Local(s2.locals[0].objs[i := obj], map[])]);
    var s4 := s3.(num := N.State({}, {r}, s3.num.txns[0 := N.Txn(N.Aborted, {r}, {})]), locals := s3.locals - {0});
    var s5 := s4.(num := N.State({}, {}, s4.num.txns[0 := N.Txn(N.Aborted, {}, {})]));
    [s, s1, s2, s3, s4, s5]
  }

  ghost function RefusedSteps(i: nat, r: nat): seq<Step> {
    [Begin(0), Lock(0, i), Work(0, i, Obj(OneIndex(r), NoBlocks()), map[], {r}, {}), Abort(0), LetGo(N.GiveBack(0, r))]
  }

  lemma RefusedWork(s: State, i: nat, r: nat)
    requires Initial(s) && i in s.inodes && r != 0 && s.sup.Data(r)
    ensures var run := Refused(s, i, r);
              Enabled(run[2], RefusedSteps(i, r)[2]) && Next(run[2], RefusedSteps(i, r)[2], run[3])
  {
    var s2, s3 := Refused(s, i, r)[2], Refused(s, i, r)[3];
    OneIndexStep(map[], r, s2.num.bits + s2.Taken(0) + {r});
    assert s2.Sees(0) == map[] && s2.disk + map[] == map[];
    assert s2.num == N.State({}, {}, s2.num.txns) && s2.num.txns[0] == N.Txn(N.Active, {}, {});
    assert s2.num.txns[0].taken + {r} == {r} && s2.num.txns[0].freed + {} == {} && s2.num.used + {r} == {r};
  }

  lemma RefusedRun(s: State, i: nat, r: nat)
    requires Initial(s) && i in s.inodes && r != 0 && s.sup.Data(r)
    ensures Run(Refused(s, i, r), RefusedSteps(i, r))
  {
    var run, steps := Refused(s, i, r), RefusedSteps(i, r);
    RefusedWork(s, i, r);
    assert run[4].num == N.Apply(run[3].num, N.Abort(0));
    assert run[5].num == N.Apply(run[4].num, N.GiveBack(0, r));
  }

  /** After that run block r is free for others to take, and it is in the inode that the
      next transaction finds in memory. */
  lemma RefusedWriteHarms(s: State, i: nat, r: nat, u: nat)
    requires Initial(s) && i in s.inodes && r != 0 && s.sup.Data(r) && u != 0
    ensures Run(Refused(s, i, r), RefusedSteps(i, r))
    ensures var end := Refused(s, i, r)[5];
            && r !in end.num.used && u !in end.num.txns && i in end.inodes
            && !Inv(LockedWith(Begun(end, u), u, i, OneIndex(r)))
  {
    var run := Refused(s, i, r);
    RefusedRun(s, i, r);
    InitialInv(s);
    RunInv(run, RefusedSteps(i, r), 5);
    assert run[5].inodes[i] == NoBlocks() && run[5].locals == map[];
    HarmAt(run[5], i, r, u);
  }

  lemma HarmAt(end: State, i: nat, r: nat, u: nat)
    requires Inv(end) && r != 0 && u !in end.num.txns && i in end.inodes && end.inodes[i] == NoBlocks()
    requires end.locals == map[]
    ensures !Inv(LockedWith(Begun(end, u), u, i, OneIndex(r)))
  {
    LockedIff(end, u, i, OneIndex(r));
    assert OneIndex(r)[INDIRECT] != NoBlocks()[INDIRECT];
  }
}
