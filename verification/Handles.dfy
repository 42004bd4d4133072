/** File handles and generations: a handle names an inode number and the generation its
    inode had, and every creation and every removal moves the generation on. */
module Handles {
  import opened Bytes

  datatype Fh = Fh(ino: nat, gen: nat)
  {
    predicate Fits() { ino < U64 && gen < U64 }

    /** MakeFh3: the handle as the client sees it. */
    function Encode(): (data: seq<Byte>)
      ensures |data| == 16
    {
      PutInt(ino) + PutInt(gen)
    }
  }

  /** MakeFh: only the first sixteen bytes matter. */
  function MakeFh(data: seq<Byte>): (fh: Fh)
    requires |data| >= 16
  {
    Fh(GetInt(data[..8]), GetInt(data[8..16]))
  }

  const ROOTINUM: nat := 1

  function MkRootFh3(): (data: seq<Byte>)
    ensures |data| == 16
  {
    PutInt(ROOTINUM) + PutInt(1)
  }

  /** Number first, then generation; and a handle is read as it was made. */
  lemma DecodeEncode(fh: Fh)
    requires fh.Fits()
    ensures GetInt(fh.Encode()[..8]) == fh.ino && GetInt(fh.Encode()[8..]) == fh.gen
    ensures MakeFh(fh.Encode()) == fh
  {
    assert fh.Encode()[..8] == PutInt(fh.ino) && fh.Encode()[8..16] == PutInt(fh.gen) == fh.Encode()[8..];
    GetPutInt(fh.ino);
    GetPutInt(fh.gen);
  }

  lemma TwoInts(x: seq<Byte>, y: seq<Byte>)
    requires |x| == 8 && |y| == 8
    ensures Fh(GetInt(x), GetInt(y)).Fits() && Fh(GetInt(x), GetInt(y)).Encode() == x + y
  {
    PutGetInt(x);
    PutGetInt(y);
  }

  lemma EncodeDecode(data: seq<Byte>)
    requires |data| == 16
    ensures MakeFh(data).Fits() && MakeFh(data).Encode() == data
  {
    var x, y := data[..8], data[8..16];
    assert x + y == data;
    TwoInts(x, y);
  }

  // -------------------------------------------------------------- incarnations

  /** What a handle is checked against. */
  datatype Ino = Ino(kind: nat, gen: nat)

  const FREE: nat := 0

  type Table = map<nat, Ino>

  datatype Step = Create(i: nat, kind: nat) | Remove(i: nat) | Other

  /** The next value of a 64-bit counter. */
  function Bump(gen: nat): nat { if gen + 1 >= U64 then gen + 1 - U64 else gen + 1 }

  ghost predicate Enabled(s: Table, step: Step) {
    match step
    case Create(i, kind) => i in s && s[i].kind == FREE && kind != FREE
    case Remove(i) => i in s && s[i].kind != FREE
    case Other => true
  }

  /** InitInode and FreeInode. */
  ghost function Next(s: Table, step: Step): Table
    requires Enabled(s, step)
  {
    match step
    case Create(i, kind) => s[i := Ino(kind, Bump(s[i].gen))]
    case Remove(i) => s[i := Ino(FREE, Bump(s[i].gen))]
    case Other => s
  }

  ghost predicate Run(states: seq<Table>, steps: seq<Step>) {
    && |states| == |steps| + 1
    && (forall i :: i in states[0] ==> states[0][i].gen < U64)
    && forall n :: 0 <= n < |steps| ==> Enabled(states[n], steps[n]) && states[n + 1] == Next(states[n], steps[n])
  }

  /** GetInodeFh finds an inode for the handle. */
  predicate Resolves(s: Table, fh: Fh) {
    fh.ino in s && s[fh.ino].kind != FREE && s[fh.ino].gen == fh.gen
  }

  predicate Changes(step: Step, i: nat) { (step.Create? || step.Remove?) && step.i == i }

  /** How often inode i is created or removed from state a to state b. */
  function Count(steps: seq<Step>, i: nat, a: nat, b: nat): nat
    requires a <= b <= |steps|
    decreases b
  {
    if a == b then 0 else Count(steps, i, a, b - 1) + if Changes(steps[b - 1], i) then 1 else 0
  }

  /** The generation, and whether the inode is in use, after so many changes. */
  lemma {:induction false} GenAfter(states: seq<Table>, steps: seq<Step>, i: nat, a: nat, b: nat) returns (wraps: nat)
    requires Run(states, steps) && a <= b < |states| && i in states[a] && states[a][i].gen < U64
    ensures i in states[b] && states[b][i].gen < U64
    ensures states[a][i].gen + Count(steps, i, a, b) == states[b][i].gen + U64 * wraps
    ensures (Count(steps, i, a, b) % 2 == 0) <==> ((states[a][i].kind == FREE) == (states[b][i].kind == FREE))
    decreases b
  {
    wraps := 0;
    if a < b {
      wraps := GenAfter(states, steps, i, a, b - 1);
      var s, s' := states[b - 1], states[b - 1 + 1];
      assert Enabled(s, steps[b - 1]) && s' == Next(s, steps[b - 1]);
      if Changes(steps[b - 1], i) && s[i].gen + 1 >= U64 { wraps := wraps + 1; }
    }
  }

  lemma {:induction false} GenFits(states: seq<Table>, steps: seq<Step>, i: nat, n: nat)
    requires Run(states, steps) && n < |states| && i in states[n]
    ensures i in states[0] && states[n][i].gen < U64
    decreases n
  {
    if n > 0 {
      assert Enabled(states[n - 1], steps[n - 1]) && states[n - 1 + 1] == Next(states[n - 1], steps[n - 1]);
      GenFits(states, steps, i, n - 1);
    }
  }

  /** The handle issued for an inode in state a. */
  ghost function Issued(s: Table, i: nat): Fh
    requires i in s
  {
    Fh(i, s[i].gen)
  }

  lemma CounterBack(g: nat, g': nat, c: nat, w: nat)
    requires g < U64 && g' < U64 && g + c == g' + U64 * w
    ensures g == g' <==> c % U64 == 0
    ensures c % U64 == 0 ==> c % 2 == 0
  {}

  /** A handle resolves later exactly when the inode was created and removed, together, a
      multiple of 2^64 times since. */
  lemma ResolvesIff(states: seq<Table>, steps: seq<Step>, i: nat, a: nat, b: nat)
    requires Run(states, steps) && a <= b < |states| && i < U64 && i in states[a] && states[a][i].kind != FREE
    ensures Issued(states[a], i).Fits()
    ensures Resolves(states[b], Issued(states[a], i)) <==> Count(steps, i, a, b) % U64 == 0
  {
    GenFits(states, steps, i, a);
    var w := GenAfter(states, steps, i, a, b);
    CounterBack(states[a][i].gen, states[b][i].gen, Count(steps, i, a, b), w);
  }

  /** The inode of state a is still there in state b if it has not been removed. */
  ghost predicate SameIncarnation(steps: seq<Step>, i: nat, a: nat, b: nat)
    requires a <= b <= |steps|
  {
    forall n :: a <= n < b ==> steps[n] != Remove(i)
  }

  lemma {:induction false} SameIffNoChange(states: seq<Table>, steps: seq<Step>, i: nat, a: nat, b: nat)
    requires Run(states, steps) && a <= b < |states| && i in states[a] && states[a][i].kind != FREE
    ensures SameIncarnation(steps, i, a, b) <==> Count(steps, i, a, b) == 0
    ensures SameIncarnation(steps, i, a, b) ==> i in states[b] && states[b][i] == states[a][i]
    decreases b
  {
    if a < b {
      SameIffNoChange(states, steps, i, a, b - 1);
      assert Enabled(states[b - 1], steps[b - 1]) && states[b - 1 + 1] == Next(states[b - 1], steps[b - 1]);
      assert SameIncarnation(steps, i, a, b) <==> SameIncarnation(steps, i, a, b - 1) && steps[b - 1] != Remove(i);
    }
  }

  /** Stale handles stay stale: within 2^64 changes of an inode, a handle resolves exactly
      as long as the incarnation it was issued for is there. */
  lemma StaleStaysStale(states: seq<Table>, steps: seq<Step>, i: nat, a: nat, b: nat)
    requires Run(states, steps) && a <= b < |states| && i < U64 && i in states[a] && states[a][i].kind != FREE
    requires Count(steps, i, a, b) < U64
    ensures Resolves(states[b], Issued(states[a], i)) <==> SameIncarnation(steps, i, a, b)
  {
    ResolvesIff(states, steps, i, a, b);
    SameIffNoChange(states, steps, i, a, b);
  }

  /** The root's handle, which is fixed, is that of the first incarnation of inode 1. */
  lemma RootHandle(states: seq<Table>, steps: seq<Step>, kind: nat, n: nat)
    requires Run(states, steps) && |steps| > 0 && steps[0] == Create(ROOTINUM, kind) && states[0][ROOTINUM].gen == 0
    requires 1 <= n < |states| && SameIncarnation(steps, ROOTINUM, 1, n)
    ensures Resolves(states[n], MakeFh(MkRootFh3()))
  {
    assert Enabled(states[0], steps[0]) && states[0 + 1] == Next(states[0], steps[0]);
    SameIffNoChange(states, steps, ROOTINUM, 1, n);
    DecodeEncode(Fh(ROOTINUM, 1));
  }
}
