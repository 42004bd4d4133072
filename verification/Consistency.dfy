/** What the invariant gives: free blocks are zero, reachable blocks are never handed out
    again whatever crashes, and without refused allocations no block is lost. */
module Consistency {
  import opened Basics
  import opened Bytes
  import opened Tree
  import opened Slots
  import opened Files
  import opened Shrinking
  import opened Machine
  import opened MachineInv

  // ------------------------------------------- the operations are steps of the machine

  /** Read and Write are operations that lose nothing. */
  lemma ExtIsStep(v: View, blks: seq<nat>, w: View, blks': seq<nat>, news: set<nat>, m: nat, n: nat)
    requires Ext(v, blks, w, blks', news, m, n)
    ensures TreeStep(v, blks, w, blks', news, {}) && NoLoss(v, blks, w, blks', news, {})
  {
    forall b | Owns(w, blks', b) ensures Owns(v, blks, b) || b in news {
      var s :| Slot(s) && At(w, blks', s) == b;
      assert At(w, blks', s) == At(v, blks, s) || b in news;
    }
    forall b | Owns(v, blks, b) ensures Owns(w, blks', b) {
      var s :| Slot(s) && At(v, blks, s) == b;
      assert At(w, blks', s) == At(v, blks, s);
    }
  }

  /** Shrink is an operation, with or without stray index blocks. */
  lemma ShedIsStep(v: View, blks: seq<nat>, w: View, blks': seq<nat>, freed: seq<nat>)
    requires Shed(v, blks, w, blks', freed)
    ensures TreeStep(v, blks, w, blks', {}, ToSet(freed))
  {
    forall b | Owns(w, blks', b) ensures Owns(v, blks, b) { ShedOwns(v, blks, w, blks', freed, b); }
  }

  /** It loses nothing when it frees exactly what starts at or above its new cursor. */
  lemma ShrunkNoLoss(v: View, blks: seq<nat>, w: View, blks': seq<nat>, n: nat, freed: seq<nat>)
    requires ShrunkTo(v, blks, w, blks', n, freed)
    ensures NoLoss(v, blks, w, blks', {}, ToSet(freed))
  {
    forall b | Owns(v, blks, b) && b !in freed ensures Owns(w, blks', b) {
      var s :| Slot(s) && At(v, blks, s) == b;
      assert At(w, blks', s) == b;
    }
  }

  ghost function Worked(s: State, t: nat, i: nat, obj: Obj, writes: View, news: set<nat>, freed: set<nat>): State
    requires N.Enabled(s.num, N.Work(t, news, freed)) && t in s.locals
  {
    s.(num := N.Apply(s.num, N.Work(t, news, freed)),
       locals := s.locals[t := Local(s.locals[t].objs[i := obj], writes)])
  }

  // ------------------------------------------------------------------------ runs

  /** What mkfs leaves: nothing marked, no data block written, inodes without blocks. */
  ghost predicate Initial(s: State) {
    && s.sup.Valid() && s.num == N.State({}, {}, map[]) && s.disk == map[] && s.locals == map[]
    && forall i :: i in s.inodes ==> s.inodes[i] == NoBlocks()
  }

  lemma InitialInv(s: State)
    requires Initial(s)
    ensures Inv(s) && NoLeak(s)
  {
    forall i | i in s.inodes ensures forall p {:trigger At(s.disk, s.inodes[i], p)} :: Slot(p) ==>
        At(s.disk, s.inodes[i], p) == 0 {}
  }

  ghost predicate Run(states: seq<State>, steps: seq<Step>) {
    && |states| == |steps| + 1
    && forall i :: 0 <= i < |steps| ==> Enabled(states[i], steps[i]) && Next(states[i], steps[i], states[i + 1])
  }

  lemma {:induction false} RunInv(states: seq<State>, steps: seq<Step>, n: nat)
    requires Run(states, steps) && Inv(states[0]) && n < |states|
    ensures Inv(states[n])
    decreases n
  {
    if n > 0 {
      RunInv(states, steps, n - 1);
      InvStep(states[n - 1], steps[n - 1], states[n - 1 + 1]);
    }
  }

  /** Free blocks are zero: in every reachable state a data block that memory does not mark
      is zero on disk, and zero for every transaction that could take it. */
  lemma FreeBlocksZero(states: seq<State>, steps: seq<Step>, i: nat, b: nat)
    requires Run(states, steps) && Inv(states[0]) && i < |states| && states[i].sup.Data(b) && b !in states[i].num.used
    ensures Blk(states[i].disk, b) == ZeroBlock()
    ensures forall t :: t in states[i].locals ==> Blk(states[i].Sees(t), b) == ZeroBlock()
  {
    RunInv(states, steps, i);
    var s := states[i];
    assert Inv(s);
    assert b !in s.num.bits;
    forall t | t in s.locals ensures Blk(s.Sees(t), b) == ZeroBlock() {
      assert TxnOk(s, t);
      if Mine(s, t, b) { MineUsed(s, t, b); }
    }
  }

  /** Crash consistency: whatever a reachable inode holds on disk is marked after a crash
      and a rebuild of the allocator, and in no reachable state is it handed out. */
  lemma ReachableNeverReissued(states: seq<State>, steps: seq<Step>, i: nat, j: nat, b: nat)
    requires Run(states, steps) && Inv(states[0]) && i < |states| && OnDisk(states[i], j, b)
    ensures b in N.Apply(states[i].num, N.Crash).used
    ensures i < |steps| && steps[i].Work? ==> b !in steps[i].news
  {
    RunInv(states, steps, i);
    assert Inv(states[i]);
    OnDiskMarked(states[i], j, b);
  }

  /** No two transactions, and no transaction and an inode it has not locked, share a block. */
  lemma TransactionsApart(states: seq<State>, steps: seq<Step>, i: nat, t: nat, j: nat, b: nat)
    requires Run(states, steps) && Inv(states[0]) && i < |states| && InTxn(states[i], t, j, b)
    ensures forall u, l :: InTxn(states[i], u, l, b) ==> u == t && l == j
    ensures forall l :: OnDisk(states[i], l, b) ==> l in states[i].locals[t].objs
  {
    RunInv(states, steps, i);
    var s := states[i];
    assert Inv(s);
    InTxnMine(s, t, j, b);
    forall u, l | InTxn(s, u, l, b) ensures u == t && l == j {
      InTxnMine(s, u, l, b);
      MineUnique(s, t, u, b);
      assert Apart(s, t) by { assert TxnOk(s, t); }
    }
    forall l | OnDisk(s, l, b) ensures l in s.locals[t].objs { MineOnDisk(s, t, b, l); }
  }

  // -------------------------------------------------------------------- no leaks

  /** An operation that loses nothing, and a commit of inodes that are written back. */
  ghost predicate Careful(s: State, step: Step)
    requires Enabled(s, step)
  {
    match step
    case Work(t, i, obj, writes, news, freed) =>
      NoLoss(s.Sees(t), s.locals[t].objs[i].blks, s.disk + writes, obj.blks, news, freed)
    case Commit(t) => forall i :: i in s.locals[t].objs ==> s.locals[t].objs[i].saved == s.locals[t].objs[i].blks
    case _ => true
  }

  /** Every marked block is reachable: on disk, and in every transaction. */
  ghost predicate NoLeak(s: State) {
    && (forall b :: b in s.num.bits ==> exists i :: OnDisk(s, i, b))
    && (forall t, b :: t in s.locals && Mine(s, t, b) && b !in s.Freed(t) ==> exists i :: InTxn(s, t, i, b))
  }

  lemma NoLeakAlike(s: State, s': State, t: nat, b: nat)
    requires Alike(s, s', t) && NoLeak(s) && Mine(s', t, b) && b !in s'.Freed(t)
    ensures exists i :: InTxn(s', t, i, b)
  {
    AlikeMine(s', s, t, b);
    var i :| InTxn(s, t, i, b);
    assert s'.Sees(t) == s.Sees(t);
    assert InTxn(s', t, i, b);
  }

  lemma NoLeakDisk(s: State, s': State, b: nat)
    requires NoLeak(s) && s'.disk == s.disk && s'.inodes == s.inodes && b in s.num.bits
    ensures exists i :: OnDisk(s', i, b)
  {
    var i :| OnDisk(s, i, b);
    assert OnDisk(s', i, b);
  }

  /** A block that was the transaction's before the operation. */
  lemma NoLeakWorkOld(k: W, b: nat)
    requires k.Ok() && NoLeak(k.s) && Careful(k.s, Work(k.t, k.i, k.obj, k.writes, k.news, k.freed))
    requires Mine(k.s, k.t, b) && b !in k.s'.Freed(k.t)
    ensures exists i :: InTxn(k.s', k.t, i, b)
  {
    var s, s', t := k.s, k.s', k.t;
    var j :| InTxn(s, t, j, b);
    if j == k.i { assert InTxn(s', t, k.i, b); } else { WorkOther(k, j); assert InTxn(s', t, j, b); }
  }

  lemma NoLeakWorkHere(k: W, b: nat)
    requires k.Ok() && NoLeak(k.s) && Careful(k.s, Work(k.t, k.i, k.obj, k.writes, k.news, k.freed))
    requires Mine(k.s', k.t, b) && b !in k.s'.Freed(k.t)
    ensures exists i :: InTxn(k.s', k.t, i, b)
  {
    var s, s', t := k.s, k.s', k.t;
    if b in k.news {
      assert InTxn(s', t, k.i, b);
    } else {
      if b !in s.Taken(t) {
        var i :| i in s'.locals[t].objs && OnDisk(s', i, b);
        WorkOnDisk(k, i, b);
      }
      NoLeakWorkOld(k, b);
    }
  }

  lemma NoLeakWork(s: State, step: Step, s': State)
    requires Inv(s) && NoLeak(s) && Enabled(s, step) && step.Work? && Next(s, step, s') && Careful(s, step)
    ensures NoLeak(s')
  {
    var k := W(s, step.t, step.i, step.obj, step.writes, step.news, step.freed, s');
    forall b | b in s'.num.bits ensures exists i :: OnDisk(s', i, b) { NoLeakDisk(s, s', b); }
    forall t, b | t in s'.locals && Mine(s', t, b) && b !in s'.Freed(t) ensures exists i :: InTxn(s', t, i, b) {
      if t == step.t { NoLeakWorkHere(k, b); } else { NoLeakAlike(s, s', t, b); }
    }
  }

  lemma NoLeakCommitDisk(k: C, b: nat)
    requires k.Ok() && NoLeak(k.s) && Careful(k.s, Commit(k.t)) && b in k.s'.num.bits
    ensures exists i :: OnDisk(k.s', i, b)
  {
    var s, s', t := k.s, k.s', k.t;
    if Mine(s, t, b) {
      var i :| InTxn(s, t, i, b);
      CommitLocked(k, i);
      assert OnDisk(s', i, b);
    } else {
      var i :| OnDisk(s, i, b);
      CommitUnlocked(k, i);
      assert OnDisk(s', i, b);
    }
  }

  lemma NoLeakCommitElsewhere(k: C, u: nat, b: nat)
    requires k.Ok() && NoLeak(k.s) && u in k.s'.locals && Mine(k.s', u, b) && b !in k.s'.Freed(u)
    ensures exists i :: InTxn(k.s', u, i, b)
  {
    var s, s' := k.s, k.s';
    if b !in s.Taken(u) {
      var i :| i in s'.locals[u].objs && OnDisk(s', i, b);
      CommitUnlocked(k, i);
    }
    assert Mine(s, u, b);
    var j :| InTxn(s, u, j, b);
    CommitObj(k, u, j);
    assert InTxn(s', u, j, b);
  }

  lemma NoLeakLockHere(s: State, t: nat, i: nat, s': State, b: nat)
    requires Inv(s) && NoLeak(s) && Enabled(s, Lock(t, i)) && Next(s, Lock(t, i), s') && Mine(s', t, b)
    requires b !in s'.Freed(t)
    ensures exists j :: InTxn(s', t, j, b)
  {
    if OnDisk(s, i, b) {
      LockObj(s, t, i, s');
      assert InTxn(s', t, i, b);
    } else {
      if b !in s.Taken(t) {
        var j :| j in s'.locals[t].objs && OnDisk(s', j, b);
        assert OnDisk(s, j, b);
      }
      assert Mine(s, t, b);
      var j :| InTxn(s, t, j, b);
      LockOther(s, t, i, s', j);
      assert InTxn(s', t, j, b);
    }
  }

  lemma NoLeakLock(s: State, t: nat, i: nat, s': State)
    requires Inv(s) && NoLeak(s) && Enabled(s, Lock(t, i)) && Next(s, Lock(t, i), s')
    ensures NoLeak(s')
  {
    forall b | b in s'.num.bits ensures exists i :: OnDisk(s', i, b) { NoLeakDisk(s, s', b); }
    forall u, b | u in s'.locals && Mine(s', u, b) && b !in s'.Freed(u) ensures exists i :: InTxn(s', u, i, b) {
      if u == t { NoLeakLockHere(s, t, i, s', b); } else { NoLeakAlike(s, s', u, b); }
    }
  }

  lemma NoLeakRest(s: State, step: Step, s': State)
    requires Inv(s) && NoLeak(s) && Enabled(s, step) && Next(s, step, s')
    requires step.Begin? || step.Abort? || step.LetGo? || step.Crash?
    ensures NoLeak(s')
  {
    forall b | b in s'.num.bits ensures exists i :: OnDisk(s', i, b) { NoLeakDisk(s, s', b); }
    forall u, b | u in s'.locals && Mine(s', u, b) && b !in s'.Freed(u) ensures exists i :: InTxn(s', u, i, b) {
      if u in s.locals { NoLeakAlike(s, s', u, b); }
    }
  }

  lemma NoLeakStep(s: State, step: Step, s': State)
    requires Inv(s) && NoLeak(s) && Enabled(s, step) && Next(s, step, s') && Careful(s, step)
    ensures NoLeak(s')
  {
    match step
    case Lock(t, i) => NoLeakLock(s, t, i, s');
    case Work(_, _, _, _, _, _) => NoLeakWork(s, step, s');
    case Commit(t) =>
      var k := C(s, t, s');
      forall b | b in s'.num.bits ensures exists i :: OnDisk(s', i, b) { NoLeakCommitDisk(k, b); }
      forall u, b | u in s'.locals && Mine(s', u, b) && b !in s'.Freed(u) ensures exists i :: InTxn(s', u, i, b) {
        NoLeakCommitElsewhere(k, u, b);
      }
    case _ => NoLeakRest(s, step, s');
  }

  lemma {:induction false} NoLeakRun(states: seq<State>, steps: seq<Step>, n: nat)
    requires Run(states, steps) && Inv(states[0]) && NoLeak(states[0]) && n < |states|
    requires forall i :: 0 <= i < |steps| ==> Careful(states[i], steps[i])
    ensures NoLeak(states[n])
    decreases n
  {
    if n > 0 {
      NoLeakRun(states, steps, n - 1);
      RunInv(states, steps, n - 1);
      var s, step, s' := states[n - 1], steps[n - 1], states[n - 1 + 1];
      NoLeakStep(s, step, s');
    }
  }

  lemma MarkedIffReachable(s: State)
    requires DiskOk(s) && NoLeak(s)
    ensures forall b :: b in s.num.bits <==> exists j :: OnDisk(s, j, b)
  {
    forall b | exists j :: OnDisk(s, j, b) ensures b in s.num.bits {
      var j :| OnDisk(s, j, b);
      OnDiskMarked(s, j, b);
    }
  }

  /** In a careful run the blocks marked on disk, and so those marked after any crash, are
      exactly the blocks reachable from the inodes on disk. */
  lemma UsedIsReachable(states: seq<State>, steps: seq<Step>, n: nat)
    requires Run(states, steps) && Inv(states[0]) && NoLeak(states[0]) && n < |states|
    requires forall i :: 0 <= i < |steps| ==> Careful(states[i], steps[i])
    ensures forall b :: b in N.Apply(states[n].num, N.Crash).used <==> exists j :: OnDisk(states[n], j, b)
  {
    RunInv(states, steps, n);
    NoLeakRun(states, steps, n);
    MarkedIffReachable(states[n]);
  }
}
