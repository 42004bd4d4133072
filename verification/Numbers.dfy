/** The two-level allocator under concurrent transactions and crashes.

    Numbers are marked in memory as soon as a transaction takes them, and unmarked only
    after the transaction that gave them back has committed; the bitmap on disk changes
    only when a transaction commits.  The same protocol serves block numbers and inode
    numbers. */
module Numbers {
  import opened Basics

  /** Active until commit or abort; then the numbers to be unmarked are let go one by one. */
  datatype Phase = Active | Committed | Aborted

  datatype Txn = Txn(phase: Phase, taken: set<nat>, freed: set<nat>)
  {
    /** The numbers marked in memory, but not on disk, on behalf of this transaction. */
    function Held(): set<nat> { if phase == Committed then freed else taken }
  }

  datatype State = State(bits: set<nat>, used: set<nat>, txns: map<nat, Txn>)
  {
    predicate Is(t: nat, phase: Phase) { t in txns && txns[t].phase == phase }
  }

  datatype Step =
    | Begin(t: nat)
    | Work(t: nat, news: set<nat>, frees: set<nat>)
    | Commit(t: nat)
    | Release(t: nat, n: nat)
    | Abort(t: nat)
    | GiveBack(t: nat, n: nat)
    | Finish(t: nat)
    | Crash

  /** A number the transaction may give back: it is marked on disk or it has taken it, and
      no transaction is giving it back already. */
  ghost predicate MayFree(s: State, t: nat, taken: set<nat>, n: nat) {
    && (n in s.bits || n in taken)
    && forall u :: s.Is(u, Active) ==> n !in s.txns[u].freed
  }

  ghost predicate Enabled(s: State, step: Step) {
    match step
    case Begin(t) => t !in s.txns
    case Work(t, news, frees) =>
      s.Is(t, Active) && news !! s.used && forall n :: n in frees ==> MayFree(s, t, s.txns[t].taken + news, n)
    case Commit(t) => s.Is(t, Active)
    case Release(t, n) => s.Is(t, Committed) && n in s.txns[t].freed
    case Abort(t) => s.Is(t, Active)
    case GiveBack(t, n) => s.Is(t, Aborted) && n in s.txns[t].taken
    case Finish(t) => t in s.txns && s.txns[t].phase != Active && s.txns[t].Held() == {}
    case Crash => true
  }

  ghost function Apply(s: State, step: Step): State
    requires Enabled(s, step)
  {
    match step
    case Begin(t) => s.(txns := s.txns[t := Txn(Active, {}, {})])
    case Work(t, news, frees) =>
      var x := s.txns[t];
      s.(used := s.used + news, txns := s.txns[t := x.(taken := x.taken + news, freed := x.freed + frees)])
    case Commit(t) =>
      // PreCommit writes the bits of what was taken, then clears those of what was freed
      var x := s.txns[t];
      s.(bits := (s.bits + x.taken) - x.freed, txns := s.txns[t := x.(phase := Committed)])
    case Release(t, n) =>
      var x := s.txns[t];
      s.(used := s.used - {n}, txns := s.txns[t := x.(freed := x.freed - {n})])
    case Abort(t) => s.(txns := s.txns[t := s.txns[t].(phase := Aborted)])
    case GiveBack(t, n) =>
      var x := s.txns[t];
      s.(used := s.used - {n}, txns := s.txns[t := x.(taken := x.taken - {n})])
    case Finish(t) => s.(txns := s.txns - {t})
    case Crash => State(s.bits, s.bits, map[])
  }

  ghost predicate HeldBySome(s: State, n: nat) {
    exists t :: t in s.txns && n in s.txns[t].Held()
  }

  ghost predicate Inv(s: State) {
    // in memory: what is on disk, what live transactions took, what committed ones freed
    && (forall n :: n in s.used <==> n in s.bits || HeldBySome(s, n))
    && (forall t, n :: t in s.txns && n in s.txns[t].Held() ==> n !in s.bits)
    // no number belongs to two transactions
    && (forall t, u, n :: t in s.txns && u in s.txns && n in s.txns[t].Held() && n in s.txns[u].Held() ==> t == u)
    // a transaction gives back only numbers that exist, and no two give back the same
    && (forall t, n :: s.Is(t, Active) && n in s.txns[t].freed ==> n in s.bits || n in s.txns[t].taken)
    && (forall t, u, n :: s.Is(t, Active) && s.Is(u, Active) && n in s.txns[t].freed && n in s.txns[u].freed ==> t == u)
  }

  lemma InvWork(s: State, t: nat, news: set<nat>, frees: set<nat>)
    requires Inv(s) && Enabled(s, Work(t, news, frees))
    ensures Inv(Apply(s, Work(t, news, frees)))
  {
    var s' := Apply(s, Work(t, news, frees));
    forall n ensures n in s'.used <==> n in s'.bits || HeldBySome(s', n) {
      if HeldBySome(s, n) {
        var u :| u in s.txns && n in s.txns[u].Held();
        assert u in s'.txns && n in s'.txns[u].Held();
      }
      if n in news { assert n in s'.txns[t].Held(); }
      if HeldBySome(s', n) && n !in news {
        var u :| u in s'.txns && n in s'.txns[u].Held();
        assert n in s.txns[u].Held();
      }
    }
  }

  lemma InvCommit(s: State, t: nat)
    requires Inv(s) && s.Is(t, Active)
    ensures Inv(Apply(s, Commit(t)))
  {
    var s' := Apply(s, Commit(t));
    forall n ensures n in s'.used <==> n in s'.bits || HeldBySome(s', n) {
      if HeldBySome(s, n) {
        var u :| u in s.txns && n in s.txns[u].Held();
        if u != t { assert n in s'.txns[u].Held(); }
      }
      if n in s.txns[t].freed { assert n in s'.txns[t].Held(); }
      if HeldBySome(s', n) {
        var u :| u in s'.txns && n in s'.txns[u].Held();
        if u != t { assert n in s.txns[u].Held(); } else if n !in s.bits { assert n in s.txns[t].Held(); }
      }
    }
  }

  /** Letting go of one held number. */
  lemma InvLetGo(s: State, t: nat, n: nat, x: Txn)
    requires Inv(s) && t in s.txns && s.txns[t].phase != Active && n in s.txns[t].Held()
    requires x.phase == s.txns[t].phase && x.Held() == s.txns[t].Held() - {n}
    ensures Inv(State(s.bits, s.used - {n}, s.txns[t := x]))
  {
    var s' := State(s.bits, s.used - {n}, s.txns[t := x]);
    forall m ensures m in s'.used <==> m in s'.bits || HeldBySome(s', m) {
      if m != n && HeldBySome(s, m) {
        var u :| u in s.txns && m in s.txns[u].Held();
        assert m in s'.txns[u].Held();
      }
      if HeldBySome(s', m) {
        var u :| u in s'.txns && m in s'.txns[u].Held();
        assert m in s.txns[u].Held();
      }
    }
  }

  lemma InvOther(s: State, step: Step)
    requires Inv(s) && Enabled(s, step) && (step.Begin? || step.Abort? || step.Finish? || step.Crash?)
    ensures Inv(Apply(s, step))
  {
    var s' := Apply(s, step);
    forall n ensures n in s'.used <==> n in s'.bits || HeldBySome(s', n) {
      if !step.Crash? && HeldBySome(s, n) {
        var u :| u in s.txns && n in s.txns[u].Held();
        assert u in s'.txns && n in s'.txns[u].Held();
      }
      if HeldBySome(s', n) {
        var u :| u in s'.txns && n in s'.txns[u].Held();
        assert u in s.txns && n in s.txns[u].Held();
      }
    }
  }

  /** Every step keeps the in-memory allocator in agreement with the disk. */
  lemma InvStep(s: State, step: Step)
    requires Inv(s) && Enabled(s, step)
    ensures Inv(Apply(s, step))
  {
    match step
    case Work(t, news, frees) => InvWork(s, t, news, frees);
    case Commit(t) => InvCommit(s, t);
    case Release(t, n) => InvLetGo(s, t, n, s.txns[t].(freed := s.txns[t].freed - {n}));
    case GiveBack(t, n) => InvLetGo(s, t, n, s.txns[t].(taken := s.txns[t].taken - {n}));
    case _ => InvOther(s, step);
  }

  /** A run: each state follows from the one before by an enabled step. */
  ghost predicate Run(states: seq<State>, steps: seq<Step>) {
    && |states| == |steps| + 1
    && forall i :: 0 <= i < |steps| ==> Enabled(states[i], steps[i]) && states[i + 1] == Apply(states[i], steps[i])
  }

  lemma {:induction false} RunInv(states: seq<State>, steps: seq<Step>)
    requires Run(states, steps) && Inv(states[0])
    ensures forall i :: 0 <= i < |states| ==> Inv(states[i])
    decreases |steps|
  {
    if |steps| > 0 {
      var n := |steps| - 1;
      RunInv(states[..n + 1], steps[..n]);
      assert Inv(states[..n + 1][n]);
      InvStep(states[n], steps[n]);
    }
  }

  /** In every reachable state, a number handed out is marked nowhere, is held by no other
      transaction, and is not waiting to be released by one that freed it. */
  lemma FreshIsFree(states: seq<State>, steps: seq<Step>, i: nat, n: nat)
    requires Run(states, steps) && Inv(states[0]) && i < |steps| && steps[i].Work? && n in steps[i].news
    ensures n !in states[i].bits
    ensures forall u :: u in states[i].txns ==> n !in states[i].txns[u].Held()
    ensures forall u :: states[i].Is(u, Active) ==> n !in states[i].txns[u].freed
  {
    RunInv(states, steps);
    var s := states[i];
    assert Inv(s) && Enabled(s, steps[i]);
    forall u | u in s.txns ensures n !in s.txns[u].Held() {
      if n in s.txns[u].Held() { assert HeldBySome(s, n); }
    }
  }

  /** A number given back by a transaction stays marked while the transaction is active,
      so that nobody can be handed it before the commit. */
  lemma FreedStaysMarked(states: seq<State>, steps: seq<Step>, i: nat, t: nat, n: nat)
    requires Run(states, steps) && Inv(states[0]) && i < |states| && states[i].Is(t, Active)
    requires n in states[i].txns[t].freed
    ensures n in states[i].used
  {
    RunInv(states, steps);
    var s := states[i];
    assert Inv(s);
    if n !in s.bits { assert n in s.txns[t].Held(); }
  }

  /** Gives back the numbers of an aborted transaction, one by one, in any order. */
  ghost function Drain(s: State, t: nat, order: seq<nat>): State
    requires t in s.txns
    decreases |order|
  {
    if order == [] then s
    else
      var x := s.txns[t];
      Drain(State(s.bits, s.used - {order[0]}, s.txns[t := x.(taken := x.taken - {order[0]})]), t, order[1..])
  }

  lemma {:induction false} DrainAll(s: State, t: nat, order: seq<nat>)
    requires t in s.txns
    ensures Drain(s, t, order).used == s.used - ToSet(order)
    ensures Drain(s, t, order).bits == s.bits
    decreases |order|
  {
    if order != [] {
      var x := s.txns[t];
      DrainAll(State(s.bits, s.used - {order[0]}, s.txns[t := x.(taken := x.taken - {order[0]})]), t, order[1..]);
      assert order == [order[0]] + order[1..];
    }
  }

  /** Abort returns exactly what was taken: with the transaction gone, the marks are those
      the other transactions and the disk account for. */
  lemma AbortReturnsAll(s: State, t: nat, order: seq<nat>)
    requires Inv(s) && s.Is(t, Active) && s.txns[t].taken == ToSet(order)
    ensures var end := Drain(Apply(s, Abort(t)), t, order);
            && end.bits == s.bits
            && forall n :: n in end.used <==> n in s.bits || exists u :: u != t && u in s.txns && n in s.txns[u].Held()
  {
    var a := Apply(s, Abort(t));
    DrainAll(a, t, order);
    forall n
      ensures n in s.used - s.txns[t].taken <==> n in s.bits || exists u ::
                u != t && u in s.txns && n in s.txns[u].Held()
    {
      if n in s.used && n !in s.bits { assert HeldBySome(s, n); }
      if exists u :: u != t && u in s.txns && n in s.txns[u].Held() {
        var u :| u != t && u in s.txns && n in s.txns[u].Held();
        assert HeldBySome(s, n);
      }
    }
  }
}
