/** The life of an inode: whatever sequence of reads, writes, resizings and shrinking
    steps it has seen, a shrinker finds all that is to be freed. */
module Histories {
  import opened Bytes
  import opened Tree
  import opened Slots
  import opened Files
  import opened Shrinking
  import opened AllocTxns
  import opened Inodes
  import opened Shrinks
  import opened Resizing

  /** What happens to an inode: slots are filled by Read and Write, the cursor moves down
      in Shrink, Resize sets size and cursor and may shrink, or other inodes change. */
  datatype Move = Fill(news: set<nat>, m: nat, n: nat) | Free(freed: seq<nat>) | Size(sz: nat, freed: seq<nat>)
      | Elsewhere

  ghost predicate Moved(s: Snap, t: Snap, move: Move) {
    match move
    case Fill(news, m, n) =>
      && Ext(s.v, s.blks, t.v, t.blks, news, m, n) && t.shrinkSize == s.shrinkSize
      && s.size <= t.size && m <= RoundUp(t.size)
    case Free(freed) => Shrank(s, t, freed)
    case Size(sz, freed) => Shrank(Reset(s, sz), t, freed)
    case Elsewhere =>
      && t.blks == s.blks && t.size == s.size && t.shrinkSize == s.shrinkSize
      && |s.blks| == NBLKINO && forall b :: Owns(s.v, s.blks, b) ==> Blk(t.v, b) == Blk(s.v, b)
  }

  /** Resize does not lose sight of blocks still to be freed: the cursor is not beyond the
      old and the new size. */
  predicate InSight(s: Snap, move: Move) { move.Size? ==> s.shrinkSize <= Reset(s, move.sz).shrinkSize }

  /** Nothing was mapped but what leads to a leaf: no allocation was refused. */
  predicate Exact(move: Move) { move.Fill? ==> move.n == move.m }

  /** What a move takes from the allocator, and what it frees. */
  ghost function Took(move: Move): set<nat> { if move.Fill? then move.news else {} }
  ghost function Freed(move: Move): seq<nat> { if move.Free? || move.Size? then move.freed else [] }

  /** Inode and record are as before, or the record is up to date. */
  ghost predicate Synced(ip: Inode, op: AllocTxn, s0: Snap, d0: map<nat, DInode>)
    reads ip, op
  {
    || (op.dirtyInodes == d0 && ip.blks == s0.blks && ip.size == s0.size && ip.shrinkSize == s0.shrinkSize)
    || (ip.inum in op.dirtyInodes && op.dirtyInodes[ip.inum] == ip.Record())
  }

  /** Between the two states exactly the blocks of the move were taken and freed. */
  ghost predicate Booked(l: Ledger, l': Ledger, frees: seq<nat>, frees': seq<nat>, move: Move) {
    l'.Extends(l) && l'.Since(l) == Took(move) && frees' == frees + Freed(move)
  }

  /** A shrinking step writes the inode back; filling slots may leave a record that lacks
      some pointers. */
  ghost predicate Recorded(ip: Inode, op: AllocTxn, d0: map<nat, DInode>, move: Move)
    reads ip, op
  {
    if move.Fill? then ip.RecordPart(op, d0) else op.dirtyInodes == d0[ip.inum := ip.Record()]
  }

  // ----------------------------------------------------- the operations are moves

  datatype Command = ReadAt(off: nat, count: nat) | WriteAt(off: nat, data: seq<Byte>) | Truncate(sz: nat) | ShrinkOn

  /** Sizes are at most MaxFileSize, and offsets do not wrap. */
  predicate Allowed(ip: Inode, cmd: Command)
    reads ip
  {
    && ip.size <= MaxFileSize() && ip.shrinkSize <= MaxBlocks()
    && match cmd
       case ReadAt(off, count) => off + count < U64
       case WriteAt(off, data) => off + |data| < U64
       case Truncate(sz) => sz <= MaxFileSize()
       case ShrinkOn => true
  }

  /** Any operation on an inode, with the move that its contract promises. */
  method Perform(ip: Inode, op: AllocTxn, cmd: Command) returns (ghost move: Move)
    requires ip.Ok(op) && Allowed(ip, cmd)
    modifies ip`blks, ip`size, ip`shrinkSize
    modifies op`view, op`dirty, op`dirtyInodes, op`allocBnums, op`freeBnums, op`mine, op.balloc
    ensures ip.Ok(op) && ip.size <= MaxFileSize() && ip.shrinkSize <= MaxBlocks()
    ensures Moved(old(Snapshot(ip, op)), Snapshot(ip, op), move) && !move.Elsewhere?
    ensures move.Size? ==> cmd == Truncate(move.sz)
    ensures op.balloc.refused == old(op.balloc.refused) ==>
              Exact(move) && Synced(ip, op, old(Snapshot(ip, op)), old(op.dirtyInodes))
    ensures Booked(old(op.Books()), op.Books(), old(op.freeBnums), op.freeBnums, move)
    ensures Recorded(ip, op, old(op.dirtyInodes), move)
  {
    match cmd
    case ReadAt(off, count) =>
      move := PerformRead(ip, op, off, count);
    case WriteAt(off, data) =>
      move := PerformWrite(ip, op, off, data);
    case Truncate(sz) =>
      move := PerformResize(ip, op, sz);
    case ShrinkOn =>
      move := PerformShrink(ip, op);
  }

  method PerformResize(ip: Inode, op: AllocTxn, sz: nat) returns (ghost move: Move)
    requires ip.Ok(op) && ip.size <= MaxFileSize() && sz <= MaxFileSize()
    modifies ip`blks, ip`size, ip`shrinkSize, op`view, op`dirty, op`dirtyInodes, op`freeBnums
    ensures ip.Ok(op) && ip.size <= MaxFileSize() && ip.shrinkSize <= MaxBlocks()
    ensures Moved(old(Snapshot(ip, op)), Snapshot(ip, op), move) && move.Size? && move.sz == sz
    ensures Synced(ip, op, old(Snapshot(ip, op)), old(op.dirtyInodes)) && Recorded(ip, op, old(op.dirtyInodes), move)
    ensures Booked(old(op.Books()), op.Books(), old(op.freeBnums), op.freeBnums, move)
  {
    var doshrink;
    ghost var freed;
    doshrink, freed := Resize(ip, op, sz);
    move := Size(sz, freed);
  }

  method PerformShrink(ip: Inode, op: AllocTxn) returns (ghost move: Move)
    requires ip.Ok(op) && ip.shrinkSize <= MaxBlocks()
    modifies ip`blks, ip`shrinkSize, op`view, op`dirty, op`dirtyInodes, op`freeBnums
    ensures ip.Ok(op) && ip.shrinkSize <= MaxBlocks()
    ensures Moved(old(Snapshot(ip, op)), Snapshot(ip, op), move) && move.Free?
    ensures Synced(ip, op, old(Snapshot(ip, op)), old(op.dirtyInodes)) && Recorded(ip, op, old(op.dirtyInodes), move)
    ensures Booked(old(op.Books()), op.Books(), old(op.freeBnums), op.freeBnums, move)
  {
    var more;
    ghost var freed;
    more, freed := Shrink(ip, op);
    move := Free(freed);
  }

  method PerformRead(ip: Inode, op: AllocTxn, off: nat, count: nat) returns (ghost move: Move)
    requires ip.Ok(op) && ip.size <= MaxFileSize() && off + count < U64
    modifies ip`blks, op`view, op`dirty, op`dirtyInodes, op`allocBnums, op`mine, op.balloc
    ensures ip.Ok(op) && Moved(old(Snapshot(ip, op)), Snapshot(ip, op), move) && move.Fill?
    ensures op.balloc.refused == old(op.balloc.refused) ==>
              Exact(move) && Synced(ip, op, old(Snapshot(ip, op)), old(op.dirtyInodes))
    ensures Booked(old(op.Books()), op.Books(), old(op.freeBnums), op.freeBnums, move)
    ensures Recorded(ip, op, old(op.dirtyInodes), move)
  {
    ghost var l0, m, n := op.Books(), 0, 0;
    var data, eof;
    data, eof, m, n := ip.Read(op, off, count);
    move := Fill(op.Books().Since(l0), m, n);
  }

  method PerformWrite(ip: Inode, op: AllocTxn, off: nat, data: seq<Byte>) returns (ghost move: Move)
    requires ip.Ok(op) && ip.size <= MaxFileSize() && off + |data| < U64
    modifies ip`blks, ip`size, op`view, op`dirty, op`dirtyInodes, op`allocBnums, op`mine, op.balloc
    ensures ip.Ok(op) && ip.size <= MaxFileSize() && Moved(old(Snapshot(ip, op)), Snapshot(ip, op), move) && move.Fill?
    ensures op.balloc.refused == old(op.balloc.refused) ==>
              Exact(move) && Synced(ip, op, old(Snapshot(ip, op)), old(op.dirtyInodes))
    ensures Booked(old(op.Books()), op.Books(), old(op.freeBnums), op.freeBnums, move)
    ensures Recorded(ip, op, old(op.dirtyInodes), move)
  {
    ghost var l0, m, n := op.Books(), 0, 0;
    var cnt, ok;
    cnt, ok, m, n := ip.Write(op, off, |data|, data);
    move := Fill(op.Books().Since(l0), m, n);
    if cnt > 0 { RoundUpMono(off + cnt, ip.size); }
  }

  // ------------------------------------------------------------------ one move

  /** Every move keeps all leaves below cursor or size, and if it is exact all pointers. */
  lemma MoveKeeps(s: Snap, t: Snap, move: Move)
    requires Moved(s, t, move) && InSight(s, move)
    ensures LeavesBelow(s.v, s.blks, s.Top()) ==> LeavesBelow(t.v, t.blks, t.Top())
    ensures Below(s.v, s.blks, s.Top()) && Exact(move) ==> Below(t.v, t.blks, t.Top())
  {
    match move
    case Fill(news, m, n) =>
      RoundUpMono(s.size, t.size);
      ExtBelow(s.v, s.blks, t.v, t.blks, news, m, n, s.Top(), t.Top());
    case Free(freed) =>
    case Size(sz, freed) =>
      BelowMono(s.v, s.blks, s.Top(), Reset(s, sz).Top());
    case Elsewhere =>
      forall x | Slot(x) ensures At(t.v, t.blks, x) == At(s.v, s.blks, x) { OthersKept(s.v, t.v, s.blks, x); }
  }

  lemma BelowMono(v: View, blks: seq<nat>, a: nat, b: nat)
    requires a <= b
    ensures LeavesBelow(v, blks, a) ==> LeavesBelow(v, blks, b)
    ensures Below(v, blks, a) ==> Below(v, blks, b)
  {}

  // ---------------------------------------------------------------------- runs

  /** A new inode, or one freed to the last block. */
  ghost predicate Empty(s: Snap) {
    s.blks == NoBlocks() && s.size == 0 && s.shrinkSize == 0
  }

  ghost predicate History(run: seq<Snap>, moves: seq<Move>) {
    && |run| == |moves| + 1 && Empty(run[0])
    && forall i :: 0 <= i < |moves| ==> Moved(run[i], run[i + 1], moves[i]) && InSight(run[i], moves[i])
  }

  /** No allocation was refused in the first n moves. */
  ghost predicate AllExact(moves: seq<Move>, n: nat)
    requires n <= |moves|
  {
    forall i :: 0 <= i < n ==> Exact(moves[i])
  }

  lemma EmptyBelow(s: Snap)
    requires Empty(s)
    ensures LeavesBelow(s.v, s.blks, s.Top()) && Below(s.v, s.blks, s.Top())
  {
    forall x | Slot(x) ensures At(s.v, s.blks, x) == 0 { WalkNull(s.v, x[1..]); }
  }

  /** In every history all leaves are below cursor or size; and all pointers, if no
      allocation was refused. */
  lemma {:induction false} HistoryKeeps(run: seq<Snap>, moves: seq<Move>, n: nat)
    requires History(run, moves) && n < |run|
    ensures LeavesBelow(run[n].v, run[n].blks, run[n].Top())
    ensures AllExact(moves, n) ==> Below(run[n].v, run[n].blks, run[n].Top())
    decreases n
  {
    if n == 0 {
      EmptyBelow(run[0]);
    } else {
      HistoryKeeps(run, moves, n - 1);
      assert Moved(run[n - 1], run[n - 1 + 1], moves[n - 1]);
      MoveKeeps(run[n - 1], run[n], moves[n - 1]);
    }
  }

  /** After any history, shrinking to the end leaves no leaf at or above the size; and if
      no allocation was ever refused, it frees exactly what starts there, each once. */
  lemma ShrinkFindsAll(run: seq<Snap>, moves: seq<Move>, t: Snap, freed: seq<nat>)
    requires History(run, moves) && Shrank(run[|moves|], t, freed) && t.shrinkSize <= RoundUp(t.size)
    ensures LeavesBelow(t.v, t.blks, RoundUp(t.size))
    ensures AllExact(moves, |moves|) ==>
              && ShrunkTo(run[|moves|].v, run[|moves|].blks, t.v, t.blks, RoundUp(t.size), freed)
              && Below(t.v, t.blks, RoundUp(t.size))
  {
    HistoryKeeps(run, moves, |moves|);
  }

  /** After any history without a refused allocation, resizing an inode that is not
      shrinking, and then shrinking it to the end, frees exactly what starts at or above
      the new size, each block once, and keeps the file below. */
  lemma ResizeFreesExactly(run: seq<Snap>, moves: seq<Move>, dom: set<nat>, sz: nat, mid: Snap, end: Snap,
                           f: seq<nat>, g: seq<nat>)
    requires History(run, moves) && AllExact(moves, |moves|)
    requires var s := run[|moves|];
              InodeOk(s.v, s.blks, dom) && s.shrinkSize <= RoundUp(s.size) && Shrank(Reset(s, sz), mid, f)
    requires Shrank(mid, end, g) && end.shrinkSize <= RoundUp(end.size)
    ensures ShrunkTo(run[|moves|].v, run[|moves|].blks, end.v, end.blks, RoundUp(sz), f + g)
    ensures Below(end.v, end.blks, RoundUp(sz))
  {
    var s := run[|moves|];
    HistoryKeeps(run, moves, |moves|);
    ResizedAndShrunk(s.v, s.blks, dom, s.size, sz, mid, end, f, g);
  }

  /** So after any such history a file that is removed, and shrunk to the end, has no block:
      all it had are freed, each once. */
  lemma RemovedIsEmpty(run: seq<Snap>, moves: seq<Move>, dom: set<nat>, mid: Snap, end: Snap, f: seq<nat>, g: seq<nat>)
    requires History(run, moves) && AllExact(moves, |moves|)
    requires var s := run[|moves|];
             InodeOk(s.v, s.blks, dom) && s.shrinkSize <= RoundUp(s.size) && Shrank(Reset(s, 0), mid, f)
    requires Shrank(mid, end, g) && end.shrinkSize <= RoundUp(end.size)
    ensures end.blks == NoBlocks() && forall b :: b in f + g <==> Owns(run[|moves|].v, run[|moves|].blks, b)
  {
    var s := run[|moves|];
    ResizeFreesExactly(run, moves, dom, 0, mid, end, f, g);
    RoundUpIff(0, 1);
    forall k | 0 <= k < NBLKINO ensures end.blks[k] == 0 {
      assert Slot([k]) && [k][1..] == [] && At(end.v, end.blks, [k]) == end.blks[k];
    }
    forall b ensures b in f + g <==> Owns(s.v, s.blks, b) {
      assert FromOn(s.v, s.blks, 0, b) <==> Owns(s.v, s.blks, b);
    }
  }
}
