/** The whole file system as a state machine: many transactions at once, each working on
    the inodes it has locked through a private overlay, commits that install an overlay
    atomically, aborts, and crashes. */
module Machine {
  import opened Bytes
  import opened Super
  import opened Tree
  import opened Slots
  import N = Numbers

  // ---------------------------------------------------- one operation on an inode

  /** What every operation on a locked inode does to the disk the transaction sees: it
      touches only blocks of the inode and fresh ones, and what it frees is zeroed and no
      longer in the tree. */
  ghost predicate TreeStep(v: View, blks: seq<nat>, w: View, blks': seq<nat>, news: set<nat>, freed: set<nat>) {
    && |blks| == NBLKINO && |blks'| == NBLKINO
    && (forall b {:trigger Blk(w, b)} :: b !in news && !Owns(v, blks, b) ==> Blk(w, b) == Blk(v, b))
    && (forall b {:trigger Owns(w, blks', b)} :: Owns(w, blks', b) ==> (Owns(v, blks, b) || b in news) && b !in freed)
    && (forall b :: b in freed ==> (Owns(v, blks, b) || b in news) && Blk(w, b) == ZeroBlock())
  }

  /** The operation loses no block: what is neither freed nor in the tree was not there before. */
  ghost predicate NoLoss(v: View, blks: seq<nat>, w: View, blks': seq<nat>, news: set<nat>, freed: set<nat>)
    requires |blks| == NBLKINO && |blks'| == NBLKINO
  {
    forall b :: (Owns(v, blks, b) || b in news) && b !in freed ==> Owns(w, blks', b)
  }

  // ------------------------------------------------------------------- the state

  /** An inode as its transaction has it: in memory, and as last written to the overlay. */
  datatype Obj = Obj(blks: seq<nat>, saved: seq<nat>)

  datatype Local = Local(objs: map<nat, Obj>, writes: View)

  datatype State = State(sup: FsSuper, num: N.State, disk: View, inodes: map<nat, seq<nat>>, locals: map<nat, Local>)
  {
    ghost function Sees(t: nat): View requires t in locals { disk + locals[t].writes }
    ghost function Taken(t: nat): set<nat> requires t in num.txns { num.txns[t].taken }
    ghost function Freed(t: nat): set<nat> requires t in num.txns { num.txns[t].freed }
  }

  ghost predicate OnDisk(s: State, i: nat, b: nat) {
    i in s.inodes && |s.inodes[i]| == NBLKINO && Owns(s.disk, s.inodes[i], b)
  }

  /** Block b is in the tree of inode i as transaction t sees it. */
  ghost predicate InTxn(s: State, t: nat, i: nat, b: nat) {
    && t in s.locals && i in s.locals[t].objs && |s.locals[t].objs[i].blks| == NBLKINO
    && Owns(s.Sees(t), s.locals[t].objs[i].blks, b)
  }

  /** Block b belongs to transaction t: it has taken it, or an inode it has locked holds it on disk. */
  ghost predicate Mine(s: State, t: nat, b: nat) {
    t in s.locals && t in s.num.txns &&
    (b in s.Taken(t) || exists i :: i in s.locals[t].objs && OnDisk(s, i, b))
  }

  // --------------------------------------------------------------- the invariant

  ghost predicate DiskOk(s: State) {
    // a data block that is not marked on disk is zero on disk
    && (forall b :: s.sup.Data(b) && b !in s.num.bits ==> Blk(s.disk, b) == ZeroBlock())
    // every inode on disk is a tree of marked blocks, and no two share one
    && (forall i :: i in s.inodes ==> InodeOk(s.disk, s.inodes[i], s.num.bits))
    && (forall i, j, b :: OnDisk(s, i, b) && OnDisk(s, j, b) ==> i == j)
  }

  ghost predicate LocksOk(s: State) {
    && (forall t :: t in s.locals <==> s.num.Is(t, N.Active))
    && (forall t, i :: t in s.locals && i in s.locals[t].objs ==> i in s.inodes)
    && (forall t, u, i :: t in s.locals && u in s.locals && i in s.locals[t].objs && i in s.locals[u].objs ==> t == u)
  }

  ghost predicate ObjOk(s: State, t: nat, i: nat)
    requires t in s.locals && t in s.num.txns && i in s.locals[t].objs
  {
    var o := s.locals[t].objs[i];
    && Behind(o.saved, o.blks)
    && InodeOk(s.Sees(t), o.blks, s.num.bits + s.Taken(t))
    && (forall b :: InTxn(s, t, i, b) ==> b !in s.Freed(t) && (b in s.Taken(t) || OnDisk(s, i, b)))
  }

  ghost predicate WritesOk(s: State, t: nat)
    requires t in s.locals && t in s.num.txns
  {
    && (forall b :: b in s.locals[t].writes ==> Mine(s, t, b))
    && (forall b :: b in s.Taken(t) ==> s.sup.Data(b))
  }

  ghost predicate FreedOk(s: State, t: nat)
    requires t in s.locals && t in s.num.txns
  {
    forall b :: b in s.Freed(t) ==> Mine(s, t, b) && Blk(s.Sees(t), b) == ZeroBlock()
  }

  ghost predicate ObjsOk(s: State, t: nat)
    requires t in s.locals && t in s.num.txns
  {
    forall i :: i in s.locals[t].objs ==> ObjOk(s, t, i)
  }

  /** No two inodes of the transaction share a block. */
  ghost predicate Apart(s: State, t: nat) {
    forall i, j, b :: InTxn(s, t, i, b) && InTxn(s, t, j, b) ==> i == j
  }

  ghost predicate TxnOk(s: State, t: nat)
    requires t in s.locals && t in s.num.txns
  {
    WritesOk(s, t) && FreedOk(s, t) && ObjsOk(s, t) && Apart(s, t)
  }

  /** Only data blocks are ever marked. */
  ghost predicate DataOnly(s: State) {
    s.sup.Valid() && forall b :: b in s.num.used ==> s.sup.Data(b)
  }

  ghost predicate Inv(s: State) {
    && N.Inv(s.num) && DataOnly(s) && DiskOk(s) && LocksOk(s)
    && forall t :: t in s.locals ==> TxnOk(s, t)
  }

  // ------------------------------------------------------------------- the steps

  datatype Step =
    | Begin(t: nat)
    | Lock(t: nat, i: nat)
    | Work(t: nat, i: nat, obj: Obj, writes: View, news: set<nat>, freed: set<nat>)
    | Commit(t: nat)
    | Abort(t: nat)
    | LetGo(num: N.Step)
    | Crash

  ghost predicate Enabled(s: State, step: Step) {
    match step
    case Begin(t) => N.Enabled(s.num, N.Begin(t))
    case Lock(t, i) => t in s.locals && i in s.inodes && forall u :: u in s.locals ==> i !in s.locals[u].objs
    case Work(t, i, obj, writes, news, freed) =>
      && t in s.locals && t in s.num.txns && i in s.locals[t].objs && news !! s.num.used
      && (forall b :: b in news ==> s.sup.Data(b))
      && var v, w := s.Sees(t), s.disk + writes;
         var o := s.locals[t].objs[i];
         && TreeStep(v, o.blks, w, obj.blks, news, freed) && Behind(obj.saved, obj.blks)
         && InodeOk(w, obj.blks, s.num.bits + s.Taken(t) + news)
         && (forall b :: b in writes ==> Mine(s, t, b) || b in news)
    case Commit(t) => t in s.locals
    case Abort(t) => t in s.locals
    case LetGo(num) => (num.Release? || num.GiveBack? || num.Finish?) && N.Enabled(s.num, num)
    case Crash => true
  }

  ghost function Saved(objs: map<nat, Obj>): map<nat, seq<nat>> {
    map i | i in objs :: objs[i].saved
  }

  ghost predicate Next(s: State, step: Step, s': State)
    requires Enabled(s, step)
  {
    match step
    case Begin(t) => s' == s.(num := N.Apply(s.num, N.Begin(t)), locals := s.locals[t := Local(map[], map[])])
    case Lock(t, i) =>
      var l := s.locals[t];
      s' == s.(locals := s.locals[t := l.(objs := l.objs[i := Obj(s.inodes[i], s.inodes[i])])])
    case Work(t, i, obj, writes, news, freed) =>
      && N.Enabled(s.num, N.Work(t, news, freed))
      && s' == s.(num := N.Apply(s.num, N.Work(t, news, freed)),
                  locals := s.locals[t := Local(s.locals[t].objs[i := obj], writes)])
    case Commit(t) =>
      && N.Enabled(s.num, N.Commit(t))
      && s' == State(s.sup, N.Apply(s.num, N.Commit(t)), s.Sees(t), s.inodes + Saved(s.locals[t].objs), s.locals - {t})
    case Abort(t) =>
      && N.Enabled(s.num, N.Abort(t))
      && s' == s.(num := N.Apply(s.num, N.Abort(t)), locals := s.locals - {t})
    case LetGo(num) => s' == s.(num := N.Apply(s.num, num))
    case Crash => s' == s.(num := N.Apply(s.num, N.Crash), locals := map[])
  }
}
