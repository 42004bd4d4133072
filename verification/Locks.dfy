/** Inode locks held by concurrent transactions, as a state machine: the two-inode lookup
    of getInodesLocked with its retry in order, and lists locked by lockInodes. */
module Locks {
  import opened Basics
  import opened LockOrder

  /** Look: locking the directory to look a name up.  Again: locking child and directory
      in order.  Work: locking what the operation needs besides, then using it. */
  datatype Stage = Look | Again | Work

  /** A transaction: the locks it holds in the order it got them, and those still to get. */
  datatype Txn = Txn(dir: nat, stage: Stage, held: seq<nat>, want: seq<nat>)

  type State = map<nat, Txn>

  datatype Step =
    | Begin(t: nat, dir: nat)
    | BeginList(t: nat, inums: seq<nat>)
    | Acquire(t: nat)
    | Found(t: nat, child: nat)
    | Valid(t: nat)
    | Stale(t: nat)
    | End(t: nat)

  predicate HeldBy(s: State, u: nat, inum: nat) { u in s && inum in s[u].held }

  ghost predicate Blocked(s: State, t: nat) {
    t in s && s[t].want != [] && exists u :: HeldBy(s, u, s[t].want[0])
  }

  ghost predicate Enabled(s: State, step: Step) {
    match step
    case Begin(t, dir) => t !in s
    case BeginList(t, inums) => t !in s && Distinct(inums) && Layered(inums)
    case Acquire(t) => t in s && s[t].want != [] && !Blocked(s, t)
    case Found(t, child) => t in s && s[t].stage == Look && s[t].want == []
    case Valid(t) => t in s && s[t].stage == Again && s[t].want == []
    case Stale(t) => t in s && s[t].stage == Again && s[t].held != []
    case End(t) => t in s && s[t].want == []
  }

  ghost function Next(s: State, step: Step): State
    requires Enabled(s, step)
  {
    match step
    case Begin(t, dir) => s[t := Txn(dir, Look, [], [dir])]
    case BeginList(t, inums) => s[t := Txn(0, Work, [], Order(inums))]
    case Acquire(t) => s[t := s[t].(held := s[t].held + [s[t].want[0]], want := s[t].want[1..])]
    case Found(t, child) =>
      var dir := s[t].dir;
      if child == 0 || child == dir then s[t := s[t].(stage := Work)]
      // out of order: abort, then lock both with lockInodes
      else if child < dir then s[t := Txn(dir, Again, [], Order([child, dir]))]
      else s[t := s[t].(stage := Work, want := [child])]
    case Valid(t) => s[t := s[t].(stage := Work)]
    // abort and start over
    case Stale(t) => s[t := Txn(s[t].dir, Look, [], [s[t].dir])]
    case End(t) => s - {t}
  }

  // --------------------------------------------------------------- the invariant

  ghost predicate Rising(s: seq<nat>) {
    forall p, q :: 0 <= p < q < |s| ==> s[p] < s[q]
  }

  ghost predicate TxnOk(x: Txn) {
    && Rising(x.held + x.want)
    && (x.stage == Look ==> x.held + x.want == [x.dir])
  }

  ghost predicate Inv(s: State) {
    && (forall t :: t in s ==> TxnOk(s[t]))
    && (forall t, u, i :: HeldBy(s, t, i) && HeldBy(s, u, i) ==> t == u)
  }

  lemma TwiceInMultiset(r: seq<nat>, p: nat, q: nat)
    requires p < q < |r| && r[p] == r[q]
    ensures multiset(r)[r[p]] >= 2
  {
    SplitAt(r, q);
    assert r[p] in r[..q] && r[q] in r[q..];
  }

  lemma {:induction false} OnceInMultiset(r: seq<nat>, x: nat)
    requires Distinct(r)
    ensures multiset(r)[x] <= 1
  {
    if r != [] {
      var k := |r| - 1;
      OnceInMultiset(r[..k], x);
      assert r == r[..k] + [r[k]];
      if x in r[..k] { assert x != r[k]; }
    }
  }

  lemma DistinctSame(r: seq<nat>, s: seq<nat>)
    requires Distinct(s) && multiset(r) == multiset(s)
    ensures Distinct(r)
  {
    forall p, q | 0 <= p < q < |r| ensures r[p] != r[q] {
      OnceInMultiset(s, r[p]);
      if r[p] == r[q] { TwiceInMultiset(r, p, q); }
    }
  }

  /** Locking a layered list of distinct inodes rises. */
  lemma RisingList(inums: seq<nat>)
    requires Distinct(inums) && Layered(inums)
    ensures Rising(Order(inums))
  {
    var r := Order(inums);
    OrderedIff(inums);
    FlippedSame(inums, |inums|);
    assert inums[..|inums|] == inums;
    DistinctSame(r, inums);
  }

  lemma InvAcquire(s: State, t: nat)
    requires Inv(s) && Enabled(s, Acquire(t))
    ensures Inv(Next(s, Acquire(t)))
  {
    var s' := Next(s, Acquire(t));
    assert s'[t].held + s'[t].want == s[t].held + s[t].want;
    forall u, v, i | HeldBy(s', u, i) && HeldBy(s', v, i) ensures u == v {
      assert HeldBy(s, u, i) || (u == t && i == s[t].want[0]);
      assert HeldBy(s, v, i) || (v == t && i == s[t].want[0]);
    }
  }

  /** The transaction that moves starts over or holds no more than before. */
  lemma InvMoved(s: State, t: nat, x: Txn)
    requires Inv(s) && TxnOk(x) && (x.held == [] || (t in s && x.held == s[t].held))
    ensures Inv(s[t := x])
  {
    var s' := s[t := x];
    forall u, v, i | HeldBy(s', u, i) && HeldBy(s', v, i) ensures u == v {
      assert HeldBy(s, u, i) && HeldBy(s, v, i);
    }
  }

  lemma InvBeginList(s: State, t: nat, inums: seq<nat>)
    requires Inv(s) && Enabled(s, BeginList(t, inums))
    ensures Inv(Next(s, BeginList(t, inums)))
  {
    var x := Txn(0, Work, [], Order(inums));
    RisingList(inums);
    assert x.held + x.want == x.want;
    InvMoved(s, t, x);
  }

  lemma InvFound(s: State, t: nat, child: nat)
    requires Inv(s) && Enabled(s, Found(t, child))
    ensures Inv(Next(s, Found(t, child)))
  {
    var x := Next(s, Found(t, child))[t];
    TwoOrdered(child, s[t].dir);
    assert s[t].held + [] == s[t].held;
    InvMoved(s, t, x);
  }

  lemma InvEnd(s: State, t: nat)
    requires Inv(s)
    ensures Inv(s - {t})
  {
    forall u, v, i | HeldBy(s - {t}, u, i) && HeldBy(s - {t}, v, i) ensures u == v {
      assert HeldBy(s, u, i) && HeldBy(s, v, i);
    }
  }

  /** Every step keeps locks exclusive and every transaction's locks rising. */
  lemma InvStep(s: State, step: Step)
    requires Inv(s) && Enabled(s, step)
    ensures Inv(Next(s, step))
  {
    match step
    case Begin(t, dir) => InvMoved(s, t, Txn(dir, Look, [], [dir]));
    case BeginList(t, inums) => InvBeginList(s, t, inums);
    case Acquire(t) => InvAcquire(s, t);
    case Found(t, child) => InvFound(s, t, child);
    case Valid(t) => InvMoved(s, t, s[t].(stage := Work));
    case Stale(t) => InvMoved(s, t, Txn(s[t].dir, Look, [], [s[t].dir]));
    case End(t) => InvEnd(s, t);
  }

  ghost predicate Run(states: seq<State>, steps: seq<Step>) {
    && |states| == |steps| + 1 && states[0] == map[]
    && forall i :: 0 <= i < |steps| ==> Enabled(states[i], steps[i]) && states[i + 1] == Next(states[i], steps[i])
  }

  lemma {:induction false} RunInv(states: seq<State>, steps: seq<Step>, n: nat)
    requires Run(states, steps) && n < |states|
    ensures Inv(states[n])
    decreases n
  {
    if n > 0 {
      RunInv(states, steps, n - 1);
      InvStep(states[n - 1], steps[n - 1]);
      assert states[n - 1 + 1] == Next(states[n - 1], steps[n - 1]);
    }
  }

  // ---------------------------------------------------------- what a lookup gets

  /** Transaction t is past its lookup and has locked, or is about to lock, these two. */
  ghost predicate GetsBoth(s: State, t: nat, dir: nat, child: nat) {
    && t in s && s[t].stage != Look
    && dir in s[t].held + s[t].want && child in s[t].held + s[t].want
  }

  lemma FoundGetsBoth(s: State, t: nat, child: nat)
    requires Inv(s) && Enabled(s, Found(t, child)) && child != 0
    ensures GetsBoth(Next(s, Found(t, child)), t, s[t].dir, child)
  {
    var dir := s[t].dir;
    var x := Next(s, Found(t, child))[t];
    assert s[t].held + s[t].want == [dir] && s[t].held + [] == s[t].held;
    TwoOrdered(child, dir);
    if child < dir {
      assert x.held + x.want == [child, dir];
      assert [child, dir][0] == child && [child, dir][1] == dir;
    } else if child > dir {
      assert x.held + x.want == [dir, child];
      assert [dir, child][0] == dir && [dir, child][1] == child;
    } else {
      assert x.held + x.want == [dir];
    }
  }

  lemma StillGetsBoth(s: State, step: Step, t: nat, dir: nat, child: nat)
    requires Enabled(s, step) && GetsBoth(s, t, dir, child) && step != End(t) && step != Stale(t)
    ensures GetsBoth(Next(s, step), t, dir, child)
  {
    if step == Acquire(t) {
      var x := Next(s, step)[t];
      assert x.held + x.want == s[t].held + s[t].want;
    }
  }

  /** A lookup that finds a child comes to hold directory and child, whichever order it has to
      take and whatever others do, unless it gives up. */
  lemma {:induction false} LookupGetsBoth(states: seq<State>, steps: seq<Step>, n: nat, m: nat, t: nat, child: nat)
    requires Run(states, steps) && n < m < |states| && steps[n] == Found(t, child) && child != 0
    requires forall k :: n < k < m ==> steps[k] != End(t) && steps[k] != Stale(t)
    ensures t in states[n] && GetsBoth(states[m], t, states[n][t].dir, child)
    ensures states[m][t].want == [] ==> HeldBy(states[m], t, states[n][t].dir) && HeldBy(states[m], t, child)
    decreases m
  {
    RunInv(states, steps, n);
    assert Enabled(states[n], steps[n]);
    if m == n + 1 {
      FoundGetsBoth(states[n], t, child);
      assert states[n + 1] == Next(states[n], steps[n]);
    } else {
      LookupGetsBoth(states, steps, n, m - 1, t, child);
      StillGetsBoth(states[m - 1], steps[m - 1], t, states[n][t].dir, child);
      assert states[m - 1 + 1] == Next(states[m - 1], steps[m - 1]);
    }
    assert states[m][t].held + [] == states[m][t].held;
  }

  // -------------------------------------------------------------------- deadlock

  ghost predicate WaitsFor(s: State, t: nat, u: nat) {
    t in s && s[t].want != [] && HeldBy(s, u, s[t].want[0])
  }

  /** Each transaction of the list waits for the next. */
  ghost predicate Chain(s: State, c: seq<nat>) {
    forall i :: 0 < i < |c| ==> WaitsFor(s, c[i - 1], c[i])
  }

  /** The holder waits, if at all, for a greater inode number. */
  lemma WaitRises(s: State, t: nat, u: nat)
    requires Inv(s) && WaitsFor(s, t, u) && s[u].want != []
    ensures s[t].want[0] < s[u].want[0]
  {
    var x := s[u];
    var p :| 0 <= p < |x.held| && x.held[p] == s[t].want[0];
    assert (x.held + x.want)[p] == x.held[p] && (x.held + x.want)[|x.held|] == x.want[0];
  }

  lemma {:induction false} ChainRises(s: State, c: seq<nat>)
    requires Inv(s) && |c| >= 2 && Chain(s, c) && c[|c| - 1] in s && s[c[|c| - 1]].want != []
    ensures c[0] in s && s[c[0]].want != [] && s[c[0]].want[0] < s[c[|c| - 1]].want[0]
  {
    var k := |c| - 1;
    assert WaitsFor(s, c[k - 1], c[k]);
    WaitRises(s, c[k - 1], c[k]);
    if k > 1 {
      assert Chain(s, c[..k]);
      ChainRises(s, c[..k]);
    }
  }

  /** In every reachable state no inode is locked twice, every transaction's locks rise in
      the order it got them, and no chain of waiting transactions closes. */
  lemma NoDeadlock(states: seq<State>, steps: seq<Step>, n: nat)
    requires Run(states, steps) && n < |states|
    ensures forall t, u, i :: HeldBy(states[n], t, i) && HeldBy(states[n], u, i) ==> t == u
    ensures forall t :: t in states[n] ==> Rising(states[n][t].held)
    ensures forall c :: |c| >= 2 && Chain(states[n], c) ==> c[0] != c[|c| - 1]
  {
    RunInv(states, steps, n);
    var s := states[n];
    forall t | t in s ensures Rising(s[t].held) {
      forall p, q | 0 <= p < q < |s[t].held| ensures s[t].held[p] < s[t].held[q] {
        assert (s[t].held + s[t].want)[p] < (s[t].held + s[t].want)[q];
      }
    }
    forall c | |c| >= 2 && Chain(s, c) ensures c[0] != c[|c| - 1] {
      assert WaitsFor(s, c[1 - 1], c[1]);
      if c[|c| - 1] in s && s[c[|c| - 1]].want != [] { ChainRises(s, c); }
    }
  }

  lemma {:induction false} Bound(s: State) returns (b: nat)
    ensures forall t :: t in s && s[t].want != [] ==> s[t].want[0] < b
    decreases |s|
  {
    b := 0;
    if s != map[] {
      var t :| t in s;
      var r := s - {t};
      assert |r| < |s| by {
        assert s == r[t := s[t]];
      }
      b := Bound(r);
      forall u | u in s && u != t ensures u in r && r[u] == s[u] {}
      if s[t].want != [] && b <= s[t].want[0] { b := s[t].want[0] + 1; }
    }
  }

  lemma {:induction false} Unblocked(s: State, t: nat, b: nat) returns (c: seq<nat>)
    requires Inv(s) && t in s && forall u :: u in s && s[u].want != [] ==> s[u].want[0] < b
    ensures |c| >= 1 && c[0] == t && Chain(s, c) && c[|c| - 1] in s && !Blocked(s, c[|c| - 1])
    decreases if s[t].want == [] then 0 else b - s[t].want[0]
  {
    if Blocked(s, t) {
      var u :| HeldBy(s, u, s[t].want[0]);
      if s[u].want != [] { WaitRises(s, t, u); }
      c := Unblocked(s, u, b);
      c := [t] + c;
      forall i | 0 < i < |c| ensures WaitsFor(s, c[i - 1], c[i]) {
        if i > 1 { assert c[i - 1] == c[1..][i - 2] && c[i] == c[1..][i - 1]; }
      }
    } else {
      c := [t];
    }
  }

  /** Progress: in every reachable state whoever waits does so, through others, for a
      transaction that can go on. */
  lemma SomeoneRuns(states: seq<State>, steps: seq<Step>, n: nat, t: nat)
    requires Run(states, steps) && n < |states| && t in states[n]
    ensures exists c :: |c| >= 1 && c[0] == t && Chain(states[n], c) && c[|c| - 1] in states[n] &&
              !Blocked(states[n], c[|c| - 1])
  {
    RunInv(states, steps, n);
    var b := Bound(states[n]);
    var c := Unblocked(states[n], t, b);
  }

  /** The order of lockInodes matters: two transactions that lock [2, 3, 1] and [1, 2] with
      it can come to wait for each other. */
  lemma ThreeCanDeadlock() returns (s: State)
    ensures var s0: State := map[0 := Txn(0, Work, [], Order([2, 3, 1])), 1 := Txn(0, Work, [], Order([1, 2]))];
            && Enabled(s0, Acquire(0)) && Enabled(Next(s0, Acquire(0)), Acquire(1))
            && s == Next(Next(s0, Acquire(0)), Acquire(1)) && WaitsFor(s, 0, 1) && WaitsFor(s, 1, 0)
  {
    ThreeUnordered();
    TwoOrdered(1, 2);
    var s0: State := map[0 := Txn(0, Work, [], [2, 1, 3]), 1 := Txn(0, Work, [], [1, 2])];
    assert s0[0].want[1..] == [1, 3] && s0[1].want[1..] == [2] && s0[0].held + [2] == [2] && s0[1].held + [1] == [1];
    assert Next(s0, Acquire(0)) == map[0 := Txn(0, Work, [2], [1, 3]), 1 := Txn(0, Work, [], [1, 2])];
    s := map[0 := Txn(0, Work, [2], [1, 3]), 1 := Txn(0, Work, [1], [2])];
  }
}
