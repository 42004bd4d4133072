/** The inode object on the machine: in every state that satisfies the invariant its
    operations may be called, and what they do is a step of the machine. */
module Refinement {
  import opened Basics
  import opened Bytes
  import opened Super
  import opened Tree
  import opened Slots
  import opened Files
  import opened AllocTxns
  import opened Inodes
  import opened Shrinks
  import opened Resizing
  import H = Histories
  import opened Machine
  import opened MachineInv
  import opened Consistency

  // ------------------------------------------------------------ before the call

  /** The blocks that are the transaction's. */
  ghost function MineSet(s: State, t: nat): set<nat> {
    set b | b in s.num.used && Mine(s, t, b)
  }

  lemma MineSetIs(s: State, t: nat, b: nat)
    requires Inv(s)
    ensures b in MineSet(s, t) <==> Mine(s, t, b)
  {
    if Mine(s, t, b) { MineUsed(s, t, b); }
  }

  /** What every inode operation requires of its transaction holds. */
  lemma TxnReady(s: State, t: nat, i: nat)
    requires Inv(s) && t in s.locals && i in s.locals[t].objs
    ensures TxnFits(s.sup, s.num.used, s.disk, s.Sees(t), s.locals[t].writes.Keys, MineSet(s, t))
    ensures InodeOk(s.Sees(t), s.locals[t].objs[i].blks, MineSet(s, t))
  {
    assert TxnOk(s, t) && ObjOk(s, t, i);
    forall b | b in s.locals[t].writes ensures b in MineSet(s, t) { MineSetIs(s, t, b); }
    forall b | s.sup.Data(b) && b !in s.num.used ensures Blk(s.Sees(t), b) == ZeroBlock() { UnmarkedZero(s, t, b); }
    var blks := s.locals[t].objs[i].blks;
    forall b | Owns(s.Sees(t), blks, b) ensures b in MineSet(s, t) {
      InTxnMine(s, t, i, b);
      MineSetIs(s, t, b);
    }
    SameTreeOk(s.Sees(t), s.Sees(t), blks, s.num.bits + s.Taken(t), MineSet(s, t));
  }

  lemma UnmarkedZero(s: State, t: nat, b: nat)
    requires Inv(s) && t in s.locals && s.sup.Data(b) && b !in s.num.used
    ensures Blk(s.Sees(t), b) == ZeroBlock()
  {
    assert b !in s.num.bits;
    assert TxnOk(s, t);
    if Mine(s, t, b) { MineUsed(s, t, b); }
  }

  /** So it does in every reachable state; in particular no block of any inode of any
      transaction fails AssertValidBlock. */
  lemma ReachableReady(states: seq<State>, steps: seq<Step>, n: nat, t: nat, i: nat)
    requires Run(states, steps) && Inv(states[0]) && n < |states| && t in states[n].locals
    requires i in states[n].locals[t].objs
    ensures var s := states[n];
            && TxnFits(s.sup, s.num.used, s.disk, s.Sees(t), s.locals[t].writes.Keys, MineSet(s, t))
            && InodeOk(s.Sees(t), s.locals[t].objs[i].blks, MineSet(s, t))
            && forall b :: InTxn(s, t, i, b) ==> s.sup.ValidBlock(b)
  {
    RunInv(states, steps, n);
    var s := states[n];
    TxnReady(s, t, i);
    forall b | InTxn(s, t, i, b) ensures s.sup.ValidBlock(b) {
      InTxnMine(s, t, i, b);
      MineUsed(s, t, b);
    }
  }

  // ------------------------------------------------------------- after the call

  ghost predicate SameView(v: View, w: View) { forall b :: Blk(v, b) == Blk(w, b) }

  lemma SameViewOwns(v: View, w: View, blks: seq<nat>)
    requires SameView(v, w) && |blks| == NBLKINO
    ensures forall b :: Owns(v, blks, b) <==> Owns(w, blks, b)
  {
    SameTree(v, w, blks);
  }

  lemma SameViewStep(v: View, v': View, blks: seq<nat>, w: View, w': View, blks': seq<nat>, news: set<nat>,
                     freed: set<nat>)
    requires SameView(v, v') && SameView(w, w') && TreeStep(v, blks, w, blks', news, freed)
    ensures TreeStep(v', blks, w', blks', news, freed)
    ensures NoLoss(v, blks, w, blks', news, freed) ==> NoLoss(v', blks, w', blks', news, freed)
  {
    SameViewOwns(v, v', blks);
    SameViewOwns(w, w', blks');
    forall b | b !in news && !Owns(v', blks, b) ensures Blk(w', b) == Blk(v', b) { assert Blk(w, b) == Blk(v, b); }
  }

  /** The blocks a transaction has written, as it sees them. */
  ghost function Overlay(view: View, dirty: set<nat>): View { map b | b in dirty :: Blk(view, b) }

  lemma OverlaySame(disk: View, view: View, dirty: set<nat>)
    requires forall b: nat :: b !in dirty ==> Blk(view, b) == Blk(disk, b)
    ensures SameView(view, disk + Overlay(view, dirty))
  {}

  /** An operation on an inode: the transaction's view before and after, the inode and the
      record after, and the blocks taken and freed. */
  datatype Call = Call(s: State, t: nat, i: nat, v: View, w: View, dirty: set<nat>, obj: Obj, news: set<nat>,
      freed: set<nat>)
  {
    ghost predicate Ok() {
      && Inv(s) && t in s.locals && t in s.num.txns && i in s.locals[t].objs && SameView(v, s.Sees(t))
      && TreeStep(v, s.locals[t].objs[i].blks, w, obj.blks, news, freed) && Behind(obj.saved, obj.blks)
      && news !! s.num.used && InodeOk(w, obj.blks, MineSet(s, t) + news)
      && TxnFits(s.sup, s.num.used + news, s.disk, w, dirty, MineSet(s, t) + news)
    }

    ghost function Step(): Step { Work(t, i, obj, Overlay(w, dirty), news, freed) }
  }

  lemma CallEnabled(k: Call)
    requires k.Ok()
    ensures Enabled(k.s, k.Step()) && N.Enabled(k.s.num, N.Work(k.t, k.news, k.freed))
    ensures NoLoss(k.v, k.s.locals[k.t].objs[k.i].blks, k.w, k.obj.blks, k.news, k.freed) ==> Careful(k.s, k.Step())
  {
    var s, t := k.s, k.t;
    var w' := s.disk + Overlay(k.w, k.dirty);
    OverlaySame(s.disk, k.w, k.dirty);
    SameViewStep(k.v, s.Sees(t), s.locals[t].objs[k.i].blks, k.w, w', k.obj.blks, k.news, k.freed);
    forall b | b in k.dirty ensures Mine(s, t, b) || b in k.news { MineSetIs(s, t, b); }
    forall b | Owns(k.w, k.obj.blks, b) ensures b in s.num.bits + s.Taken(t) + k.news {
      OwnsInDom(k.w, k.obj.blks, MineSet(s, t) + k.news, b);
      if b !in k.news { MineUsed(s, t, b); }
    }
    SameTreeOk(k.w, w', k.obj.blks, MineSet(s, t) + k.news, s.num.bits + s.Taken(t) + k.news);
    WorkAllowed(s, t, k.i, k.obj, Overlay(k.w, k.dirty), k.news, k.freed);
  }

  /** The state the operation leaves. */
  ghost function After(k: Call): State
    requires k.Ok()
  {
    CallEnabled(k);
    Worked(k.s, k.t, k.i, k.obj, Overlay(k.w, k.dirty), k.news, k.freed)
  }

  lemma CallKeepsInv(k: Call)
    requires k.Ok()
    ensures Enabled(k.s, k.Step()) && Next(k.s, k.Step(), After(k)) && Inv(After(k))
  {
    CallEnabled(k);
    InvStep(k.s, k.Step(), After(k));
  }

  /** What the state after the call is made of. */
  lemma AfterIs(k: Call)
    requires k.Ok()
    ensures var s' := After(k);
            && s'.sup == k.s.sup && s'.disk == k.s.disk && s'.inodes == k.s.inodes
            && k.t in s'.num.txns && s'.num.used == k.s.num.used + k.news && k.t in s'.locals
            && s'.locals[k.t] == Local(k.s.locals[k.t].objs[k.i := k.obj], Overlay(k.w, k.dirty))
            && SameView(k.w, s'.Sees(k.t))
  {
    OverlaySame(k.s.disk, k.w, k.dirty);
  }

  lemma MineSetAfter(k: Call)
    requires k.Ok() && Inv(After(k))
    ensures MineSet(After(k), k.t) == MineSet(k.s, k.t) + k.news
  {
    forall b ensures b in MineSet(After(k), k.t) <==> b in MineSet(k.s, k.t) + k.news {
      MineSetIs(After(k), k.t, b);
      MineSetIs(k.s, k.t, b);
      MineAfter(k, b);
    }
  }

  lemma MineAfter(k: Call, b: nat)
    requires k.Ok() && Inv(After(k))
    ensures Mine(After(k), k.t, b) <==> Mine(k.s, k.t, b) || b in k.news
  {
    var s, s', t := k.s, After(k), k.t;
    if Mine(s, t, b) && b !in s.Taken(t) {
      var j :| j in s.locals[t].objs && OnDisk(s, j, b);
      assert j in s'.locals[t].objs && OnDisk(s', j, b);
    }
    if Mine(s', t, b) && b !in s'.Taken(t) {
      var j :| j in s'.locals[t].objs && OnDisk(s', j, b);
      assert j in s.locals[t].objs && OnDisk(s, j, b);
    }
  }

  // ------------------------------------------------------------------ the object

  /** The record of inode i that a commit would leave on disk. */
  ghost function Record(dirtyInodes: map<nat, DInode>, s: State, i: nat): seq<nat>
    requires i in s.inodes
  {
    if i in dirtyInodes then dirtyInodes[i].blks else s.inodes[i]
  }

  /** A transaction's part of the machine, as the transaction and inode objects hold it. */
  datatype Held = Held(sup: FsSuper, disk: View, used: set<nat>, mine: set<nat>, dirty: set<nat>, view: View,
      blks: seq<nat>, dirtyInodes: map<nat, DInode>)

  ghost function Holding(op: AllocTxn, ip: Inode): Held
    reads op, op.balloc, ip
  {
    Held(op.super, op.disk, op.balloc.used, op.mine, op.dirty, op.view, ip.blks, op.dirtyInodes)
  }

  ghost predicate Agrees(h: Held, s: State, t: nat, i: nat) {
    && t in s.locals && t in s.num.txns && i in s.locals[t].objs && i in s.inodes
    && h.sup == s.sup && h.disk == s.disk && h.used == s.num.used && h.mine == MineSet(s, t)
    && h.dirty == s.locals[t].writes.Keys && SameView(h.view, s.Sees(t))
    && s.locals[t].objs[i] == Obj(h.blks, Record(h.dirtyInodes, s, i))
  }

  /** Transaction and inode objects are those of transaction t and inode i of the machine. */
  ghost predicate Mirrors(op: AllocTxn, ip: Inode, s: State, t: nat, i: nat)
    reads op, op.balloc, ip
  {
    && (forall n: nat :: 0 < n < op.balloc.size && n !in op.balloc.reserved ==> op.super.Data(n))
    && ip.inum == i && Agrees(Holding(op, ip), s, t, i)
  }

  /** Before the call the precondition of every inode method holds. */
  lemma HeldReady(h: Held, s: State, t: nat, i: nat)
    requires Inv(s) && Agrees(h, s, t, i)
    ensures TxnFits(h.sup, h.used, h.disk, h.view, h.dirty, h.mine) && InodeOk(h.view, h.blks, h.mine)
  {
    TxnReady(s, t, i);
    FitsSame(s.sup, s.num.used, s.disk, s.Sees(t), h.view, h.dirty, h.mine, h.blks);
  }

  lemma FitsSame(sup: FsSuper, used: set<nat>, disk: View, v: View, w: View, dirty: set<nat>, mine: set<nat>,
                 blks: seq<nat>)
    requires TxnFits(sup, used, disk, v, dirty, mine) && InodeOk(v, blks, mine) && SameView(w, v)
    ensures TxnFits(sup, used, disk, w, dirty, mine) && InodeOk(w, blks, mine)
  {
    forall b: nat | b !in dirty ensures Blk(w, b) == Blk(disk, b) { assert Blk(v, b) == Blk(disk, b); }
    forall b | Owns(v, blks, b) ensures b in mine { OwnsInDom(v, blks, mine, b); }
    SameTreeOk(v, w, blks, mine, mine);
  }

  lemma ObjBehind(s: State, t: nat, i: nat)
    requires Inv(s) && t in s.locals && i in s.locals[t].objs
    ensures Behind(s.locals[t].objs[i].saved, s.locals[t].objs[i].blks)
  {
    assert TxnOk(s, t) && ObjOk(s, t, i);
  }

  /** What a move does is what a step of the machine may do, and it loses no block of an
      inode without stray pointers. */
  lemma MoveIsStep(s: Snap, t: Snap, move: H.Move)
    requires H.Moved(s, t, move) && !move.Elsewhere?
    ensures TreeStep(s.v, s.blks, t.v, t.blks, H.Took(move), ToSet(H.Freed(move)))
    ensures Below(s.v, s.blks, s.Top()) && H.InSight(s, move) ==>
              NoLoss(s.v, s.blks, t.v, t.blks, H.Took(move), ToSet(H.Freed(move)))
  {
    match move
    case Fill(news, m, n) =>
      ExtIsStep(s.v, s.blks, t.v, t.blks, news, m, n);
    case Free(freed) =>
      ShedIsStep(s.v, s.blks, t.v, t.blks, freed);
      if Below(s.v, s.blks, s.Top()) { ShrunkNoLoss(s.v, s.blks, t.v, t.blks, t.Top(), freed); }
    case Size(sz, freed) =>
      ShedIsStep(s.v, s.blks, t.v, t.blks, freed);
      if Below(s.v, s.blks, s.Top()) && H.InSight(s, move) {
        H.BelowMono(s.v, s.blks, s.Top(), Reset(s, sz).Top());
        ShrunkNoLoss(s.v, s.blks, t.v, t.blks, t.Top(), freed);
      }
  }

  /** The records of a move, as Recorded has them. */
  ghost predicate RecordsOk(d0: map<nat, DInode>, d1: map<nat, DInode>, i: nat, blks: seq<nat>, move: H.Move) {
    if move.Fill? then d1 == d0 || (i in d1 && Behind(d1[i].blks, blks)) else i in d1 && d1[i].blks == blks
  }

  /** What an operation's contract says of the objects before and after. */
  ghost predicate Promised(h: Held, h': Held, s0: Snap, s1: Snap, move: H.Move, i: nat) {
    && h.view == s0.v && h.blks == s0.blks && h'.view == s1.v && h'.blks == s1.blks
    && h'.sup == h.sup && h'.disk == h.disk
    && H.Moved(s0, s1, move) && !move.Elsewhere? && H.Took(move) !! h.used
    && h'.used == h.used + H.Took(move) && h'.mine == h.mine + H.Took(move)
    && RecordsOk(h.dirtyInodes, h'.dirtyInodes, i, h'.blks, move)
    && TxnFits(h'.sup, h'.used, h'.disk, h'.view, h'.dirty, h'.mine) && InodeOk(h'.view, h'.blks, h'.mine)
  }

  lemma PromisedBehind(h: Held, h': Held, s0: Snap, s1: Snap, move: H.Move, s: State, t: nat, i: nat)
    requires Inv(s) && Agrees(h, s, t, i) && Promised(h, h', s0, s1, move, i)
    ensures Behind(Record(h'.dirtyInodes, s, i), h'.blks)
  {
    ObjBehind(s, t, i);
    if move.Fill? { ExtBehind(s0.v, s0.blks, s1.v, s1.blks, move.news, move.m, move.n, Record(h.dirtyInodes, s, i)); }
    assert |h'.blks| == NBLKINO;
  }

  ghost function CallOf(h: Held, h': Held, move: H.Move, s: State, t: nat, i: nat): Call
    requires i in s.inodes
  {
    Call(s, t, i, h.view, h'.view, h'.dirty, Obj(h'.blks, Record(h'.dirtyInodes, s, i)), H.Took(move),
        ToSet(H.Freed(move)))
  }

  lemma PromisedOk(h: Held, h': Held, s0: Snap, s1: Snap, move: H.Move, s: State, t: nat, i: nat)
    requires Inv(s) && Agrees(h, s, t, i) && Promised(h, h', s0, s1, move, i)
    ensures CallOf(h, h', move, s, t, i).Ok()
  {
    MoveIsStep(s0, s1, move);
    PromisedBehind(h, h', s0, s1, move, s, t, i);
  }

  lemma CallAgrees(h: Held, h': Held, move: H.Move, s: State, t: nat, i: nat, s': State)
    requires Agrees(h, s, t, i) && h'.sup == h.sup && h'.disk == h.disk
    requires h'.used == h.used + H.Took(move) && h'.mine == h.mine + H.Took(move)
    requires s'.sup == s.sup && s'.disk == s.disk && s'.inodes == s.inodes && t in s'.num.txns && t in s'.locals
    requires s'.num.used == s.num.used + H.Took(move) && MineSet(s', t) == MineSet(s, t) + H.Took(move)
    requires s'.locals[t] == Local(s.locals[t].objs[i := Obj(h'.blks, Record(h'.dirtyInodes, s, i))],
              Overlay(h'.view, h'.dirty))
    requires SameView(h'.view, s'.Sees(t))
    ensures Agrees(h', s', t, i)
  {
    assert Overlay(h'.view, h'.dirty).Keys == h'.dirty;
  }

  /** The step of transaction t on inode i that a move makes: the objects see what the
      machine has, and the step takes and frees what the move does. */
  ghost predicate Made(s: State, t: nat, i: nat, step: Step, s0: Snap, s1: Snap, move: H.Move) {
    && t in s.locals && i in s.locals[t].objs && SameView(s0.v, s.Sees(t)) && s0.blks == s.locals[t].objs[i].blks
    && step.Work? && step.t == t && step.i == i && SameView(s1.v, s.disk + step.writes) && s1.blks == step.obj.blks
    && step.news == H.Took(move) && step.freed == ToSet(H.Freed(move))
    && H.Moved(s0, s1, move) && !move.Elsewhere?
  }

  /** It is a step of the machine, after which objects and machine agree again. */
  lemma PromisedIsStep(h: Held, h': Held, s0: Snap, s1: Snap, move: H.Move, s: State, t: nat, i: nat)
    returns (step: Step, s': State)
    requires Inv(s) && Agrees(h, s, t, i) && Promised(h, h', s0, s1, move, i)
    ensures Enabled(s, step) && Next(s, step, s') && Inv(s') && Agrees(h', s', t, i)
    ensures Made(s, t, i, step, s0, s1, move) && step.obj.saved == Record(h'.dirtyInodes, s, i)
    ensures Below(s0.v, s0.blks, s0.Top()) && H.InSight(s0, move) ==> Careful(s, step)
  {
    var k := CallOf(h, h', move, s, t, i);
    PromisedOk(h, h', s0, s1, move, s, t, i);
    CallKeepsInv(k);
    CallEnabled(k);
    AfterIs(k);
    MineSetAfter(k);
    CallAgrees(h, h', move, s, t, i, After(k));
    MoveIsStep(s0, s1, move);
    OverlaySame(s.disk, h'.view, h'.dirty);
    step, s' := k.Step(), After(k);
  }

  /** Every operation of the inode object, in any state that satisfies the invariant, is a
      step of the machine; objects and machine stay in agreement.  It loses no block of an
      inode without stray pointers, unless Resize loses sight of some; and if no allocation
      is refused, an inode that was written back is so after it. */
  method Execute(op: AllocTxn, ip: Inode, cmd: H.Command, ghost s: State, ghost t: nat, ghost i: nat)
    returns (ghost step: Step, ghost s': State, ghost move: H.Move)
    requires Inv(s) && Mirrors(op, ip, s, t, i) && H.Allowed(ip, cmd)
    modifies ip`blks, ip`size, ip`shrinkSize
    modifies op`view, op`dirty, op`dirtyInodes, op`allocBnums, op`freeBnums, op`mine, op.balloc
    ensures Enabled(s, step) && Next(s, step, s') && Inv(s') && Mirrors(op, ip, s', t, i)
    ensures Made(s, t, i, step, old(Snapshot(ip, op)), Snapshot(ip, op), move)
    ensures move.Size? ==> cmd == H.Truncate(move.sz)
    ensures var s0 := old(Snapshot(ip, op));
            Below(s0.v, s0.blks, s0.Top()) && H.InSight(s0, move) ==> Careful(s, step)
    ensures op.balloc.refused == old(op.balloc.refused) ==>
              H.Exact(move) && H.Synced(ip, op, old(Snapshot(ip, op)), old(op.dirtyInodes))
    ensures op.balloc.refused == old(op.balloc.refused) && s.locals[t].objs[i].saved == old(ip.blks) ==>
              step.obj.saved == step.obj.blks
  {
    ghost var h, s0 := Holding(op, ip), Snapshot(ip, op);
    HeldReady(h, s, t, i);
    move := PerformKept(op, ip, cmd);
    step, s' := PromisedIsStep(h, Holding(op, ip), s0, Snapshot(ip, op), move, s, t, i);
    assert H.Synced(ip, op, s0, h.dirtyInodes) && s.locals[t].objs[i].saved == s0.blks ==>
        step.obj.saved == ip.blks by {
      SavedKept(h, Holding(op, ip), s, t, i);
    }
  }

  /** An inode that is unchanged, or has been written back, agrees with its record if it did before. */
  lemma SavedKept(h: Held, h': Held, s: State, t: nat, i: nat)
    requires Agrees(h, s, t, i)
    ensures h'.dirtyInodes == h.dirtyInodes && h'.blks == h.blks && s.locals[t].objs[i].saved == h.blks ==>
              Record(h'.dirtyInodes, s, i) == h'.blks
  {}

  /** The contract of an operation as a promise about the objects. */
  method PerformKept(op: AllocTxn, ip: Inode, cmd: H.Command) returns (ghost move: H.Move)
    requires ip.Ok(op) && H.Allowed(ip, cmd)
    modifies ip`blks, ip`size, ip`shrinkSize
    modifies op`view, op`dirty, op`dirtyInodes, op`allocBnums, op`freeBnums, op`mine, op.balloc
    ensures Promised(old(Holding(op, ip)), Holding(op, ip), old(Snapshot(ip, op)), Snapshot(ip, op), move, ip.inum)
    ensures move.Size? ==> cmd == H.Truncate(move.sz)
    ensures op.balloc.refused == old(op.balloc.refused) ==>
              H.Exact(move) && H.Synced(ip, op, old(Snapshot(ip, op)), old(op.dirtyInodes))
  {
    move := H.Perform(ip, op, cmd);
  }
}
