/** Small notions that many modules share. */
module Basics {

  datatype Option<T> = None | Some(value: T)

  function Max(a: nat, b: nat): nat { if a < b then b else a }
  function Min(a: nat, b: nat): nat { if a < b then a else b }

  ghost predicate Distinct(s: seq<nat>) {
    forall i, j :: 0 <= i < j < |s| ==> s[i] != s[j]
  }

  function ToSet(s: seq<nat>): set<nat> { set x | x in s }

  lemma ToSetAppend(s: seq<nat>, x: nat)
    ensures ToSet(s + [x]) == ToSet(s) + {x}
  {}

  /** The list without x. */
  function Without(l: seq<nat>, x: nat): seq<nat> {
    if l == [] then [] else if l[0] == x then Without(l[1..], x) else [l[0]] + Without(l[1..], x)
  }

  lemma {:induction false} WithoutAbsent(l: seq<nat>, x: nat)
    requires x !in l
    ensures Without(l, x) == l
  {
    if l != [] { WithoutAbsent(l[1..], x); }
  }

  lemma {:induction false} WithoutHas(l: seq<nat>, x: nat, y: nat)
    ensures y in Without(l, x) <==> y in l && y != x
  {
    if l != [] { WithoutHas(l[1..], x, y); }
  }

  lemma WithoutSet(l: seq<nat>, x: nat)
    ensures ToSet(Without(l, x)) == ToSet(l) - {x}
  {
    forall y ensures y in Without(l, x) <==> y in l && y != x { WithoutHas(l, x, y); }
  }

  lemma {:induction false} WithoutLast(l: seq<nat>, x: nat)
    requires x !in l
    ensures Without(l + [x], x) == l
  {
    if l != [] {
      assert (l + [x])[1..] == l[1..] + [x];
      WithoutLast(l[1..], x);
    }
  }
}
