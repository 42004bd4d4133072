/** Inodes with their sizes on the machine: as long as no allocation is refused, no block
    is lost, and what is marked is what the inodes on disk hold. */
module Leaks {
  import opened Basics
  import opened Bytes
  import opened Tree
  import opened Slots
  import opened Files
  import opened AllocTxns
  import opened Inodes
  import opened Shrinks
  import opened Machine
  import opened MachineInv
  import opened Consistency
  import opened Refinement
  import opened Caching

  /** Size and cursor of an inode. */
  datatype Dims = Dims(size: nat, shrinkSize: nat)
  {
    function Top(): nat { Max(shrinkSize, RoundUp(size)) }
  }

  /** The machine with the size and cursor of every inode, on disk and in each transaction. */
  datatype Sized = Sized(m: State, disk: map<nat, Dims>, held: map<nat, map<nat, Dims>>)

  /** What an operation does to the inode it works on; other steps do nothing of the kind. */
  datatype Act = Act(s0: Snap, s1: Snap, move: H.Move) | Idle

  // -------------------------------------------------------------------- the steps

  ghost predicate Shaped(x: Sized) {
    && x.disk.Keys == x.m.inodes.Keys && x.held.Keys == x.m.locals.Keys
    && forall t :: t in x.held ==> x.held[t].Keys == x.m.locals[t].objs.Keys
  }

  ghost function WithDims(held: map<nat, map<nat, Dims>>, t: nat, i: nat, d: Dims): map<nat, map<nat, Dims>>
    requires t in held
  {
    var dims: map<nat, Dims> := held[t];
    held[t := dims[i := d]]
  }

  ghost predicate SizedNext(x: Sized, step: Step, act: Act, x': Sized)
    requires Shaped(x)
  {
    && Enabled(x.m, step) && Next(x.m, step, x'.m)
    && match step
       case Begin(t) => x'.disk == x.disk && x'.held == x.held[t := map[]]
       case Lock(t, i) => x'.disk == x.disk && x'.held == WithDims(x.held, t, i, x.disk[i])
       case Work(t, i, _, _, _, _) =>
         && act.Act? && Made(x.m, t, i, step, act.s0, act.s1, act.move)
         && x.held[t][i] == Dims(act.s0.size, act.s0.shrinkSize)
         && x'.disk == x.disk && x'.held == WithDims(x.held, t, i, Dims(act.s1.size, act.s1.shrinkSize))
       case Commit(t) => x'.disk == x.disk + x.held[t] && x'.held == x.held - {t}
       case Abort(t) => x'.disk == x.disk && x'.held == x.held - {t}
       case LetGo(_) => x'.disk == x.disk && x'.held == x.held
       case Crash => x'.disk == x.disk && x'.held == map[]
  }

  /** No allocation is refused, and Resize loses sight of no block: what Refinement.Execute
      promises of an operation then. */
  ghost predicate Unrefused(x: Sized, step: Step, act: Act) {
    step.Work? && act.Act? && step.t in x.m.locals && step.i in x.m.locals[step.t].objs ==>
      && H.Exact(act.move) && H.InSight(act.s0, act.move)
      && var o := x.m.locals[step.t].objs[step.i]; (o.saved == o.blks ==> step.obj.saved == step.obj.blks)
  }

  // ---------------------------------------------------------------- the invariant

  /** The inode in the transaction is written back and has no stray pointers. */
  ghost predicate TidyObj(x: Sized, t: nat, i: nat)
    requires Shaped(x) && t in x.held && i in x.held[t]
  {
    var o := x.m.locals[t].objs[i];
    o.saved == o.blks && Below(x.m.Sees(t), o.blks, x.held[t][i].Top())
  }

  ghost predicate Tidy(x: Sized) {
    && Shaped(x) && Inv(x.m)
    && (forall i :: i in x.disk ==> Below(x.m.disk, x.m.inodes[i], x.disk[i].Top()))
    && (forall t, i :: t in x.held && i in x.held[t] ==> TidyObj(x, t, i))
  }

  lemma ShapedStep(x: Sized, step: Step, act: Act, x': Sized)
    requires Shaped(x) && SizedNext(x, step, act, x')
    ensures Shaped(x')
  {
    match step
    case Work(t, i, obj, writes, _, _) => ShapedPut(x, t, i, x', obj, writes);
    case Lock(t, i) => ShapedPut(x, t, i, x', Obj(x.m.inodes[i], x.m.inodes[i]), x.m.locals[t].writes);
    case Commit(t) => assert Saved(x.m.locals[t].objs).Keys == x.held[t].Keys;
    case _ =>
  }

  lemma ShapedPut(x: Sized, t: nat, i: nat, x': Sized, obj: Obj, writes: View)
    requires Shaped(x) && t in x.held && x'.disk == x.disk && x'.m.inodes == x.m.inodes
    requires x'.m.locals == x.m.locals[t := Local(x.m.locals[t].objs[i := obj], writes)]
    requires exists d :: x'.held == WithDims(x.held, t, i, d)
    ensures Shaped(x')
  {}

  lemma BelowSame(v: View, w: View, blks: seq<nat>, n: nat)
    requires Below(v, blks, n) && forall b :: Owns(v, blks, b) ==> Blk(w, b) == Blk(v, b)
    ensures Below(w, blks, n)
  {
    SameTree(v, w, blks);
  }

  // ------------------------------------------------------------------------- work

  lemma TidyWorked(x: Sized, step: Step, act: Act, x': Sized)
    requires Tidy(x) && SizedNext(x, step, act, x') && step.Work? && Unrefused(x, step, act) && Shaped(x')
    ensures TidyObj(x', step.t, step.i)
  {
    var t, i := step.t, step.i;
    assert TidyObj(x, t, i);
    BelowSame(x.m.Sees(t), act.s0.v, act.s0.blks, act.s0.Top());
    H.MoveKeeps(act.s0, act.s1, act.move);
    BelowSame(act.s1.v, x'.m.Sees(t), act.s1.blks, act.s1.Top());
  }

  /** An inode of a transaction that the step does not touch. */
  lemma TidyStays(x: Sized, x': Sized, u: nat, j: nat)
    requires Shaped(x) && Shaped(x') && u in x.held && u in x'.held && j in x.held[u] && j in x'.held[u]
    requires TidyObj(x, u, j) && x'.m.locals[u].objs[j] == x.m.locals[u].objs[j] && x'.held[u][j] == x.held[u][j]
    requires forall b :: InTxn(x.m, u, j, b) ==> Blk(x'.m.Sees(u), b) == Blk(x.m.Sees(u), b)
    ensures TidyObj(x', u, j)
  {
    var blks := x.m.locals[u].objs[j].blks;
    forall b | Owns(x.m.Sees(u), blks, b) ensures Blk(x'.m.Sees(u), b) == Blk(x.m.Sees(u), b) {
      assert InTxn(x.m, u, j, b);
    }
    BelowSame(x.m.Sees(u), x'.m.Sees(u), blks, x.held[u][j].Top());
  }

  lemma TidyBeside(x: Sized, step: Step, act: Act, x': Sized, j: nat)
    requires Tidy(x) && SizedNext(x, step, act, x') && step.Work? && Shaped(x') && j in x.held[step.t] && j != step.i
    ensures TidyObj(x', step.t, j)
  {
    var k := W(x.m, step.t, step.i, step.obj, step.writes, step.news, step.freed, x'.m);
    assert TidyObj(x, step.t, j);
    forall b | InTxn(x.m, step.t, j, b) ensures Blk(x'.m.Sees(step.t), b) == Blk(x.m.Sees(step.t), b) {
      WorkOtherBlock(k, j, b);
    }
    TidyStays(x, x', step.t, j);
  }

  lemma TidyAlike(x: Sized, x': Sized, u: nat, j: nat)
    requires Tidy(x) && Shaped(x') && u in x.held && u in x'.held && j in x.held[u] && j in x'.held[u]
    requires x'.m.disk == x.m.disk && x'.m.locals[u] == x.m.locals[u] && x'.held[u] == x.held[u]
    ensures TidyObj(x', u, j)
  {
    assert TidyObj(x, u, j);
  }

  lemma TidyWork(x: Sized, step: Step, act: Act, x': Sized)
    requires Tidy(x) && SizedNext(x, step, act, x') && step.Work? && Unrefused(x, step, act)
    ensures Tidy(x')
  {
    ShapedStep(x, step, act, x');
    InvStep(x.m, step, x'.m);
    forall u, j | u in x'.held && j in x'.held[u] ensures TidyObj(x', u, j) { TidyWorkObj(x, step, act, x', u, j); }
  }

  lemma TidyWorkObj(x: Sized, step: Step, act: Act, x': Sized, u: nat, j: nat)
    requires Tidy(x) && SizedNext(x, step, act, x') && step.Work? && Unrefused(x, step, act)
    requires Shaped(x') && u in x'.held && j in x'.held[u]
    ensures TidyObj(x', u, j)
  {
    if u != step.t {
      TidyAlike(x, x', u, j);
    } else if j == step.i {
      TidyWorked(x, step, act, x');
    } else {
      TidyBeside(x, step, act, x', j);
    }
  }

  // ----------------------------------------------------------------------- commit

  lemma TidyCommitDisk(x: Sized, t: nat, x': Sized, i: nat)
    requires Tidy(x) && SizedNext(x, Commit(t), Idle, x') && i in x'.disk && i in x'.m.inodes
    ensures Below(x'.m.disk, x'.m.inodes[i], x'.disk[i].Top())
  {
    var k := C(x.m, t, x'.m);
    if i in x.held[t] {
      assert TidyObj(x, t, i);
    } else {
      CommitUnlocked(k, i);
      forall b | Owns(x.m.disk, x.m.inodes[i], b) ensures Blk(x'.m.disk, b) == Blk(x.m.disk, b) {
        assert OnDisk(x.m, i, b);
        if Mine(x.m, t, b) { MineOnDisk(x.m, t, b, i); }
        CommitOutside(k, b);
      }
      BelowSame(x.m.disk, x'.m.disk, x.m.inodes[i], x.disk[i].Top());
    }
  }

  lemma TidyCommitObj(x: Sized, t: nat, x': Sized, u: nat, j: nat)
    requires Tidy(x) && SizedNext(x, Commit(t), Idle, x') && Shaped(x') && u in x'.held && j in x'.held[u]
    ensures TidyObj(x', u, j)
  {
    var k := C(x.m, t, x'.m);
    assert TidyObj(x, u, j);
    forall b | InTxn(x.m, u, j, b) ensures Blk(x'.m.Sees(u), b) == Blk(x.m.Sees(u), b) { CommitObjBlock(k, u, j, b); }
    TidyStays(x, x', u, j);
  }

  // -------------------------------------------------------------- the other steps

  lemma TidyLocked(x: Sized, t: nat, i: nat, x': Sized)
    requires Tidy(x) && SizedNext(x, Lock(t, i), Idle, x') && Shaped(x')
    ensures TidyObj(x', t, i)
  {
    var blks := x.m.inodes[i];
    assert Below(x.m.disk, blks, x.disk[i].Top());
    forall b | Owns(x.m.disk, blks, b) ensures Blk(x.m.Sees(t), b) == Blk(x.m.disk, b) {
      assert OnDisk(x.m, i, b);
      LockBlock(x.m, t, i, x'.m, b);
    }
    BelowSame(x.m.disk, x.m.Sees(t), blks, x.disk[i].Top());
  }

  lemma TidyLock(x: Sized, t: nat, i: nat, x': Sized, u: nat, j: nat)
    requires Tidy(x) && SizedNext(x, Lock(t, i), Idle, x') && Shaped(x') && u in x'.held && j in x'.held[u]
    ensures TidyObj(x', u, j)
  {
    if u == t && j == i {
      TidyLocked(x, t, i, x');
    } else {
      assert TidyObj(x, u, j);
      TidyStays(x, x', u, j);
    }
  }

  lemma TidyRest(x: Sized, step: Step, x': Sized)
    requires Tidy(x) && SizedNext(x, step, Idle, x') && (step.Begin? || step.Abort? || step.LetGo? || step.Crash?)
    ensures Tidy(x')
  {
    ShapedStep(x, step, Idle, x');
    InvStep(x.m, step, x'.m);
    forall u, j | u in x'.held && j in x'.held[u] ensures TidyObj(x', u, j) { TidyAlike(x, x', u, j); }
  }

  /** Every step without a refusal keeps all inodes written back and without stray pointers. */
  lemma TidyStep(x: Sized, step: Step, act: Act, x': Sized)
    requires Tidy(x) && SizedNext(x, step, act, x') && Unrefused(x, step, act)
    ensures Tidy(x')
  {
    match step
    case Work(_, _, _, _, _, _) => TidyWork(x, step, act, x');
    case Commit(t) =>
      ShapedStep(x, step, act, x');
      InvStep(x.m, step, x'.m);
      forall i | i in x'.disk ensures Below(x'.m.disk, x'.m.inodes[i], x'.disk[i].Top()) {
        TidyCommitDisk(x, t, x', i);
      }
      forall u, j | u in x'.held && j in x'.held[u] ensures TidyObj(x', u, j) { TidyCommitObj(x, t, x', u, j); }
    case Lock(t, i) =>
      ShapedStep(x, step, act, x');
      InvStep(x.m, step, x'.m);
      forall u, j | u in x'.held && j in x'.held[u] ensures TidyObj(x', u, j) { TidyLock(x, t, i, x', u, j); }
    case _ => TidyRest(x, step, x');
  }

  /** And it loses no block. */
  lemma TidyCareful(x: Sized, step: Step, act: Act, x': Sized)
    requires Tidy(x) && SizedNext(x, step, act, x') && Unrefused(x, step, act)
    ensures Careful(x.m, step)
  {
    match step
    case Work(t, i, obj, writes, news, freed) =>
      assert TidyObj(x, t, i);
      BelowSame(x.m.Sees(t), act.s0.v, act.s0.blks, act.s0.Top());
      MoveIsStep(act.s0, act.s1, act.move);
      SameViewStep(act.s0.v, x.m.Sees(t), act.s0.blks, act.s1.v, x.m.disk + writes, obj.blks, news, freed);
    case Commit(t) =>
      forall i | i in x.m.locals[t].objs ensures x.m.locals[t].objs[i].saved == x.m.locals[t].objs[i].blks {
        assert TidyObj(x, t, i);
      }
    case _ =>
  }

  // ------------------------------------------------------------------------- runs

  ghost predicate SizedInitial(x: Sized) {
    Initial(x.m) && x.held == map[] && x.disk == map i | i in x.m.inodes :: Dims(0, 0)
  }

  ghost predicate SizedRun(xs: seq<Sized>, steps: seq<Step>, acts: seq<Act>) {
    && |xs| == |steps| + 1 && |acts| == |steps| && SizedInitial(xs[0])
    && (forall n :: 0 <= n < |xs| ==> Shaped(xs[n]))
    && forall n :: 0 <= n < |steps| ==> SizedNext(xs[n], steps[n], acts[n], xs[n + 1])
  }

  ghost predicate NoneRefused(xs: seq<Sized>, steps: seq<Step>, acts: seq<Act>)
    requires SizedRun(xs, steps, acts)
  {
    forall n :: 0 <= n < |steps| ==> Unrefused(xs[n], steps[n], acts[n])
  }

  lemma InitialTidy(x: Sized)
    requires SizedInitial(x)
    ensures Tidy(x) && NoLeak(x.m)
  {
    InitialInv(x.m);
    forall i | i in x.disk ensures Below(x.m.disk, x.m.inodes[i], x.disk[i].Top()) {
      H.EmptyBelow(Snap(x.m.disk, x.m.inodes[i], 0, 0));
    }
  }

  lemma {:induction false} RunTidy(xs: seq<Sized>, steps: seq<Step>, acts: seq<Act>, n: nat)
    requires SizedRun(xs, steps, acts) && NoneRefused(xs, steps, acts) && n < |xs|
    ensures Tidy(xs[n]) && NoLeak(xs[n].m)
    decreases n
  {
    if n == 0 {
      InitialTidy(xs[0]);
    } else {
      RunTidy(xs, steps, acts, n - 1);
      var x, step, act, x' := xs[n - 1], steps[n - 1], acts[n - 1], xs[n - 1 + 1];
      assert SizedNext(x, step, act, x') && Unrefused(x, step, act);
      TidyStep(x, step, act, x');
      TidyCareful(x, step, act, x');
      NoLeakStep(x.m, step, x'.m);
    }
  }

  /** In every run of the file system in which no allocation is refused, and no inode is
      resized whose cursor is beyond its sizes, the blocks marked on disk, and so those
      marked after a crash at any point, are exactly the blocks that inodes on disk hold. */
  lemma MarkedIsReachable(xs: seq<Sized>, steps: seq<Step>, acts: seq<Act>, n: nat)
    requires SizedRun(xs, steps, acts) && NoneRefused(xs, steps, acts) && n < |xs|
    ensures forall b :: b in N.Apply(xs[n].m.num, N.Crash).used <==> exists j :: OnDisk(xs[n].m, j, b)
  {
    RunTidy(xs, steps, acts, n);
    MarkedIffReachable(xs[n].m);
  }

  // ---------------------------------------------- the operations are such steps

  /** Size and cursor of the record of inode i that a commit would leave on disk. */
  ghost function RecordDims(dirtyInodes: map<nat, DInode>, x: Sized, i: nat): Dims
    requires i in x.disk
  {
    if i in dirtyInodes then Dims(dirtyInodes[i].size, dirtyInodes[i].shrinkSize) else x.disk[i]
  }

  /** Transaction and inode objects are those of the machine, with size and cursor. */
  ghost predicate MirrorsSized(op: AllocTxn, ip: Inode, x: Sized, t: nat, i: nat)
    reads op, op.balloc, ip
  {
    && Shaped(x) && Mirrors(op, ip, x.m, t, i) && t in x.held && i in x.held[t] && i in x.disk
    && x.held[t][i] == Dims(ip.size, ip.shrinkSize)
  }

  /** Every operation of the inode object is a step of the machine with sizes.  It is one
      without a refusal if the allocator refuses nothing and a Resize does not find the
      cursor beyond the old and the new size; then the record stays up to date as well. */
  method ExecuteSized(op: AllocTxn, ip: Inode, cmd: H.Command, ghost x: Sized, ghost t: nat, ghost i: nat)
    returns (ghost step: Step, ghost act: Act, ghost x': Sized)
    requires Inv(x.m) && MirrorsSized(op, ip, x, t, i) && H.Allowed(ip, cmd)
    modifies ip`blks, ip`size, ip`shrinkSize
    modifies op`view, op`dirty, op`dirtyInodes, op`allocBnums, op`freeBnums, op`mine, op.balloc
    ensures SizedNext(x, step, act, x') && Inv(x'.m) && MirrorsSized(op, ip, x', t, i)
    ensures op.balloc.refused == old(op.balloc.refused) ==>
              (cmd.Truncate? ==> old(ip.shrinkSize) <= Max(RoundUp(old(ip.size)), RoundUp(cmd.sz))) ==>
              Unrefused(x, step, act)
    ensures op.balloc.refused == old(op.balloc.refused) ==> H.Synced(ip, op, old(Snapshot(ip, op)), old(op.dirtyInodes))
  {
    ghost var s0 := Snapshot(ip, op);
    ghost var m', move;
    step, m', move := Execute(op, ip, cmd, x.m, t, i);
    act := Act(s0, Snapshot(ip, op), move);
    x' := Grown(x, m', t, i, Dims(ip.size, ip.shrinkSize));
    assert SizedNext(x, step, act, x') && Shaped(x') by { MadeSized(x, t, i, step, act, m'); }
  }

  /** A record that was up to date stays so if no allocation is refused: a commit leaves on
      disk the size and the cursor that the transaction has. */
  lemma RecordUpToDate(op: AllocTxn, ip: Inode, x: Sized, t: nat, x': Sized, s0: Snap, d0: map<nat, DInode>)
    requires ip.inum in x.disk && t in x.held && ip.inum in x.held[t] && H.Synced(ip, op, s0, d0)
    requires x.held[t][ip.inum] == Dims(s0.size, s0.shrinkSize) == RecordDims(d0, x, ip.inum)
    requires x'.disk == x.disk && x'.held == WithDims(x.held, t, ip.inum, Dims(ip.size, ip.shrinkSize))
    ensures RecordDims(op.dirtyInodes, x', ip.inum) == x'.held[t][ip.inum]
  {}

  /** The state after an operation, with the new size and cursor. */
  ghost function Grown(x: Sized, m': State, t: nat, i: nat, d: Dims): Sized
    requires t in x.held
  {
    Sized(m', x.disk, WithDims(x.held, t, i, d))
  }

  lemma MadeSized(x: Sized, t: nat, i: nat, step: Step, act: Act, m': State)
    requires Shaped(x) && t in x.held && i in x.held[t] && act.Act? && Made(x.m, t, i, step, act.s0, act.s1, act.move)
    requires Enabled(x.m, step) && Next(x.m, step, m') && x.held[t][i] == Dims(act.s0.size, act.s0.shrinkSize)
    ensures var x' := Grown(x, m', t, i, Dims(act.s1.size, act.s1.shrinkSize));
            SizedNext(x, step, act, x') && Shaped(x')
  {
    var x' := Grown(x, m', t, i, Dims(act.s1.size, act.s1.shrinkSize));
    ShapedStep(x, step, act, x');
  }

  // -------------------------------------------------------------- a run that leaks

  /** An inode without blocks, and a block that nobody has: what a READ at a hole below the
      indirect entry meets, if the allocator has one block left. */
  ghost predicate OneLeft(x: Sized, i: nat, r: nat, t: nat) {
    && Shaped(x) && x.m.locals == map[] && i in x.m.inodes && x.m.inodes[i] == NoBlocks()
    && r != 0 && x.m.sup.Data(r) && Blk(x.m.disk, r) == ZeroBlock() && r !in x.m.num.used && t !in x.m.num.txns
  }

  /** The states of that READ: it begins, locks, takes r for the index block, is refused the
      leaf, and commits without writing the inode back. */
  ghost function Reading(x: Sized, i: nat, r: nat, t: nat): seq<Sized>
    requires OneLeft(x, i, r, t)
  {
    var m1 := Begun(x.m, t);
    var m2 := LockedWith(m1, t, i, x.m.inodes[i]);
    var m3 := m2.(num := N.State(x.m.num.bits, x.m.num.used + {r}, m2.num.txns[t := N.Txn(N.Active, {r}, {})]),
                  locals := m2.locals[t := Local(m2.locals[t].objs[i := Obj(OneIndex(r), NoBlocks())], map[])]);
    var m4 := State(x.m.sup,
                    N.State(x.m.num.bits + {r}, x.m.num.used + {r}, m3.num.txns[t := N.Txn(N.Committed, {r}, {})]),
                    x.m.disk, x.m.inodes, map[]);
    var h1 := x.held[t := map[]];
    var h2 := WithDims(h1, t, i, x.disk[i]);
    [x, Sized(m1, x.disk, h1), Sized(m2, x.disk, h2), Sized(m3, x.disk, WithDims(h2, t, i, x.disk[i])),
     Sized(m4, x.disk, map[])]
  }

  /** It fills a slot that leads to no leaf. */
  ghost function RefusedFill(x: Sized, i: nat, r: nat): Act
    requires i in x.disk
  {
    var d := x.disk[i];
    Act(Snap(x.m.disk, NoBlocks(), d.size, d.shrinkSize), Snap(x.m.disk, OneIndex(r), d.size, d.shrinkSize),
        H.Fill({r}, 0, NDIRECT + 1))
  }

  ghost function ReadSteps(i: nat, r: nat, t: nat): seq<Step> {
    [Begin(t), Lock(t, i), Work(t, i, Obj(OneIndex(r), NoBlocks()), map[], {r}, {}), Commit(t)]
  }

  lemma RefusedIsFill(x: Sized, i: nat, r: nat, t: nat)
    requires OneLeft(x, i, r, t)
    ensures var act := RefusedFill(x, i, r);
            H.Moved(act.s0, act.s1, act.move) && !H.Exact(act.move)
  {
    var v := x.m.disk;
    forall y | Slot(y)
      ensures At(v, OneIndex(r), y) == (if y == [INDIRECT] then r else 0) && At(v, NoBlocks(), y) == 0
    {
      OneIndexAt(v, r, y);
    }
    assert Slot([INDIRECT]) && First([INDIRECT]) == NDIRECT && !Leaf([INDIRECT]);
  }

  lemma ReadingBegins(x: Sized, i: nat, r: nat, t: nat)
    requires OneLeft(x, i, r, t)
    ensures var xs := Reading(x, i, r, t);
            && Shaped(xs[1]) && SizedNext(x, Begin(t), Idle, xs[1])
            && Shaped(xs[2]) && SizedNext(xs[1], Lock(t, i), Idle, xs[2])
  {
    assert x.held == map[];
  }

  lemma ReadingWorks(x: Sized, i: nat, r: nat, t: nat)
    requires OneLeft(x, i, r, t)
    ensures var xs, step := Reading(x, i, r, t), ReadSteps(i, r, t)[2];
            Enabled(xs[2].m, step) && Next(xs[2].m, step, xs[3].m)
  {
    var xs := Reading(x, i, r, t);
    var m2, m3 := xs[2].m, xs[3].m;
    assert m2.Sees(t) == x.m.disk && m2.disk + map[] == x.m.disk;
    OneIndexStep(x.m.disk, r, m2.num.bits + m2.Taken(t) + {r});
    assert m2.num.txns[t].taken + {r} == {r} && m2.num.txns[t].freed + {} == {};
    assert m3.num == N.Apply(m2.num, N.Work(t, {r}, {}));
  }

  lemma ReadingMade(x: Sized, i: nat, r: nat, t: nat)
    requires OneLeft(x, i, r, t)
    ensures var m2, act := Reading(x, i, r, t)[2].m, RefusedFill(x, i, r);
            Made(m2, t, i, ReadSteps(i, r, t)[2], act.s0, act.s1, act.move)
  {
    var m2 := Reading(x, i, r, t)[2].m;
    RefusedIsFill(x, i, r, t);
    assert m2.Sees(t) == x.m.disk && m2.disk + map[] == x.m.disk;
  }

  lemma ReadingRefused(x: Sized, i: nat, r: nat, t: nat)
    requires OneLeft(x, i, r, t)
    ensures var xs := Reading(x, i, r, t);
            Shaped(xs[2]) && Shaped(xs[3]) && SizedNext(xs[2], ReadSteps(i, r, t)[2], RefusedFill(x, i, r), xs[3])
  {
    var xs := Reading(x, i, r, t);
    ReadingWorks(x, i, r, t);
    ReadingMade(x, i, r, t);
  }

  lemma ReadingEnds(x: Sized, i: nat, r: nat, t: nat)
    requires OneLeft(x, i, r, t)
    ensures var xs := Reading(x, i, r, t); Enabled(xs[3].m, Commit(t)) && Next(xs[3].m, Commit(t), xs[4].m)
  {
    var m3, m4 := Reading(x, i, r, t)[3].m, Reading(x, i, r, t)[4].m;
    assert m3.Sees(t) == x.m.disk && x.m.inodes + Saved(m3.locals[t].objs) == x.m.inodes && m3.locals - {t} == map[];
    assert m3.num.bits + {r} - {} == m4.num.bits;
    assert m4.num == N.Apply(m3.num, N.Commit(t));
  }

  lemma ReadingCommits(x: Sized, i: nat, r: nat, t: nat)
    requires OneLeft(x, i, r, t)
    ensures var xs := Reading(x, i, r, t); Shaped(xs[3]) && Shaped(xs[4]) && SizedNext(xs[3], Commit(t), Idle, xs[4])
  {
    var held := Reading(x, i, r, t)[3].held;
    ReadingEnds(x, i, r, t);
    assert x.disk + held[t] == x.disk && held - {t} == map[];
  }

  /** That READ is a run of the machine, in which only the one allocation is refused. */
  lemma RefusedReadRuns(x: Sized, i: nat, r: nat, t: nat)
    requires OneLeft(x, i, r, t)
    ensures var xs, steps := Reading(x, i, r, t), ReadSteps(i, r, t);
            && Shaped(xs[1]) && Shaped(xs[2]) && Shaped(xs[3])
            && SizedNext(xs[0], steps[0], Idle, xs[1]) && SizedNext(xs[1], steps[1], Idle, xs[2])
            && SizedNext(xs[2], steps[2], RefusedFill(x, i, r), xs[3]) && SizedNext(xs[3], steps[3], Idle, xs[4])
  {
    ReadingBegins(x, i, r, t);
    ReadingRefused(x, i, r, t);
    ReadingCommits(x, i, r, t);
  }

  /** It loses the index block: the block is marked, after a crash too, and no inode on disk
      holds it. */
  lemma RefusedReadLeaks(x: Sized, i: nat, r: nat, t: nat)
    requires Tidy(x) && OneLeft(x, i, r, t)
    ensures var end := Reading(x, i, r, t)[4].m;
            r in N.Apply(end.num, N.Crash).used && forall j :: !OnDisk(end, j, r)
  {
    var end := Reading(x, i, r, t)[4].m;
    forall j ensures !OnDisk(end, j, r) { HeldByNone(x, r, end, j); }
  }

  lemma HeldByNone(x: Sized, r: nat, m4: State, j: nat)
    requires Tidy(x) && r !in x.m.num.used && m4.disk == x.m.disk && m4.inodes == x.m.inodes
    ensures !OnDisk(m4, j, r)
  {
    if OnDisk(x.m, j, r) { OnDiskMarked(x.m, j, r); }
  }
}
