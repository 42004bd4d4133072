/** The order in which lockInodes acquires locks.

    It sorts a copy of the inode numbers, but compares entries of the original at the
    positions of the copy.  On short slices sorting is by insertion, so the effect is to
    turn round every falling run of the original. */
module LockOrder {

  ghost predicate Ascending(s: seq<nat>) {
    forall p, q :: 0 <= p < q < |s| ==> s[p] <= s[q]
  }

  /** The entries p..q fall strictly. */
  ghost predicate Falling(s: seq<nat>, p: nat, q: nat)
    requires q < |s|
  {
    forall i, j :: p <= i < j <= q ==> s[i] > s[j]
  }

  /** Every two entries out of order are in one falling run. */
  ghost predicate Layered(s: seq<nat>) {
    forall p, q :: 0 <= p < q < |s| && s[p] > s[q] ==> Falling(s, p, q)
  }

  /** Where the falling run that ends at i starts. */
  function RunStart(s: seq<nat>, i: nat): (r: nat)
    requires i < |s|
    ensures r <= i
  {
    if i > 0 && s[i] < s[i - 1] then RunStart(s, i - 1) else i
  }

  lemma {:induction false} RunFalls(s: seq<nat>, i: nat)
    requires i < |s|
    ensures Falling(s, RunStart(s, i), i)
    ensures RunStart(s, i) > 0 ==> s[RunStart(s, i) - 1] <= s[RunStart(s, i)]
  {
    if i > 0 && s[i] < s[i - 1] { RunFalls(s, i - 1); }
  }

  /** The first n entries with every falling run turned round. */
  ghost function Flipped(s: seq<nat>, n: nat): (r: seq<nat>)
    requires n <= |s|
    ensures |r| == n
  {
    if n == 0 then [] else
    var r, lo := Flipped(s, n - 1), RunStart(s, n - 1);
    Ins(r, lo, s[n - 1])
  }

  /** The order in which the inodes are locked. */
  ghost function Order(inums: seq<nat>): (r: seq<nat>)
    ensures |r| == |inums|
  {
    Flipped(inums, |inums|)
  }

  function Ins(r: seq<nat>, k: nat, x: nat): (t: seq<nat>)
    requires k <= |r|
    ensures |t| == |r| + 1
  {
    r[..k] + [x] + r[k..]
  }

  lemma SplitAt(r: seq<nat>, k: nat)
    requires k <= |r|
    ensures multiset(r) == multiset(r[..k]) + multiset(r[k..])
  {
    assert r == r[..k] + r[k..];
  }

  lemma TakeDrop(s: seq<nat>, n: nat, lo: nat)
    requires lo <= n <= |s|
    ensures s[..n][..lo] == s[..lo] && s[..n][lo..] == s[lo..n]
  {}

  lemma TakeNext(s: seq<nat>, n: nat)
    requires 0 < n <= |s|
    ensures multiset(s[..n]) == multiset(s[..n - 1]) + multiset{s[n - 1]}
  {
    assert s[..n] == s[..n - 1] + [s[n - 1]];
  }

  lemma RestSame(r: seq<nat>, t: seq<nat>, k: nat)
    requires k <= |r| && k <= |t| && multiset(r) == multiset(t) && multiset(r[..k]) == multiset(t[..k])
    ensures multiset(r[k..]) == multiset(t[k..])
  {
    SplitAt(r, k);
    SplitAt(t, k);
    assert multiset(r[k..]) == multiset(r) - multiset(r[..k]) && multiset(t[k..]) == multiset(t) - multiset(t[..k]);
  }

  lemma InsSame(r: seq<nat>, k: nat, x: nat)
    requires k <= |r|
    ensures multiset(Ins(r, k, x)) == multiset(r) + multiset{x}
  {
    SplitAt(r, k);
  }

  /** The locks acquired are those asked for. */
  lemma {:induction false} FlippedSame(s: seq<nat>, n: nat)
    requires n <= |s|
    ensures multiset(Flipped(s, n)) == multiset(s[..n])
  {
    if n > 0 {
      FlippedSame(s, n - 1);
      InsSame(Flipped(s, n - 1), RunStart(s, n - 1), s[n - 1]);
      TakeNext(s, n);
    }
  }

  /** What comes before a run keeps to itself. */
  lemma {:induction false} FlippedBefore(s: seq<nat>, n: nat)
    requires n < |s|
    ensures Flipped(s, n)[..RunStart(s, n)] == Flipped(s, RunStart(s, n))
  {
    if n > 0 && s[n] < s[n - 1] {
      FlippedBefore(s, n - 1);
      assert Flipped(s, n)[..RunStart(s, n)] == Flipped(s, n - 1)[..RunStart(s, n)];
    }
  }

  /** Before a run are the entries before it, and in it those of the run. */
  lemma FlippedParts(s: seq<nat>, n: nat)
    requires n < |s|
    ensures var lo := RunStart(s, n);
            multiset(Flipped(s, n)[..lo]) == multiset(s[..lo]) && multiset(Flipped(s, n)[lo..]) == multiset(s[lo..n])
  {
    var lo := RunStart(s, n);
    FlippedBefore(s, n);
    FlippedSame(s, lo);
    FlippedSame(s, n);
    TakeDrop(s, n, lo);
    RestSame(Flipped(s, n), s[..n], lo);
  }

  lemma SameMembers(a: seq<nat>, b: seq<nat>, x: nat)
    requires multiset(a) == multiset(b) && x in a
    ensures x in b
  {
    assert x in multiset(a);
  }

  /** Where entry n goes in, everything at or after it in its run is greater. */
  lemma RunGreater(s: seq<nat>, n: nat, x: nat)
    requires n < |s| && x in Flipped(s, n)[RunStart(s, n)..]
    ensures x > s[n]
  {
    var lo := RunStart(s, n);
    FlippedParts(s, n);
    SameMembers(Flipped(s, n)[lo..], s[lo..n], x);
    var i :| lo <= i < n && s[i] == x;
    RunFalls(s, n);
  }

  lemma NotFallingAcross(s: seq<nat>, p: nat, n: nat)
    requires n < |s| && p < RunStart(s, n)
    ensures !Falling(s, p, n)
  {
    RunFalls(s, n);
  }

  /** Everything before the run is no greater, if the list is layered. */
  lemma RunNotLess(s: seq<nat>, n: nat, x: nat)
    requires n < |s| && Layered(s) && x in Flipped(s, n)[..RunStart(s, n)]
    ensures x <= s[n]
  {
    var lo := RunStart(s, n);
    FlippedParts(s, n);
    SameMembers(Flipped(s, n)[..lo], s[..lo], x);
    var i :| 0 <= i < lo && s[i] == x;
    NotFallingAcross(s, i, n);
  }

  lemma EntryBefore(s: seq<nat>, n: nat, p: nat)
    requires n < |s| && p < RunStart(s, n)
    ensures s[p] in Flipped(s, n)[..RunStart(s, n)]
  {
    var lo := RunStart(s, n);
    FlippedParts(s, n);
    assert s[p] in s[..lo];
    SameMembers(s[..lo], Flipped(s, n)[..lo], s[p]);
  }

  ghost predicate Fits(r: seq<nat>, k: nat, x: nat)
    requires k <= |r|
  {
    (forall y :: y in r[..k] ==> y <= x) && (forall y :: y in r[k..] ==> x <= y)
  }

  lemma RunFits(s: seq<nat>, n: nat)
    requires n < |s| && Layered(s)
    ensures Fits(Flipped(s, n), RunStart(s, n), s[n])
  {
    forall x | x in Flipped(s, n)[..RunStart(s, n)] ensures x <= s[n] { RunNotLess(s, n, x); }
    forall x | x in Flipped(s, n)[RunStart(s, n)..] ensures x >= s[n] { RunGreater(s, n, x); }
  }

  lemma {:induction false} LayeredSorted(s: seq<nat>, n: nat)
    requires n <= |s| && Layered(s)
    ensures Ascending(Flipped(s, n))
  {
    if n > 0 {
      LayeredSorted(s, n - 1);
      RunFits(s, n - 1);
      InsAscending(Flipped(s, n - 1), RunStart(s, n - 1), s[n - 1]);
    }
  }

  /** Inserting keeps order where what stands before is no greater and what stands after no less. */
  lemma InsAscending(r: seq<nat>, k: nat, x: nat)
    requires k <= |r| && Ascending(r) && Fits(r, k, x)
    ensures Ascending(Ins(r, k, x))
  {
    forall p | 0 <= p < k ensures r[p] <= x { assert r[p] in r[..k]; }
    forall p | k <= p < |r| ensures x <= r[p] { assert r[p] in r[k..]; }
  }

  lemma AscendingIns(r: seq<nat>, k: nat, x: nat)
    requires k <= |r| && Ascending(Ins(r, k, x))
    ensures Ascending(r) && Fits(r, k, x)
  {
    var t := Ins(r, k, x);
    assert t[k] == x;
    forall p, q | 0 <= p < q < |r| ensures r[p] <= r[q] {
      assert r[p] == t[if p < k then p else p + 1] && r[q] == t[if q < k then q else q + 1];
    }
    forall y | y in r[..k] ensures y <= x { var p :| 0 <= p < k && r[p] == y; assert t[p] == y; }
    forall y | y in r[k..] ensures x <= y { var p :| k <= p < |r| && r[p] == y; assert t[p + 1] == y; }
  }

  lemma {:induction false} SortedLayered(s: seq<nat>, n: nat, p: nat, q: nat)
    requires n <= |s| && Ascending(Flipped(s, n)) && p < q < n && s[p] > s[q]
    ensures Falling(s, p, q)
  {
    var r, lo := Flipped(s, n - 1), RunStart(s, n - 1);
    AscendingIns(r, lo, s[n - 1]);
    if q < n - 1 {
      SortedLayered(s, n - 1, p, q);
    } else if p < lo {
      EntryBefore(s, n - 1, p);
    } else {
      RunFalls(s, n - 1);
    }
  }

  /** The locks are acquired in ascending order if and only if every two inode numbers that
      are out of order are in one falling run. */
  lemma OrderedIff(s: seq<nat>)
    ensures Ascending(Order(s)) <==> Layered(s)
  {
    if Layered(s) { LayeredSorted(s, |s|); }
    if Ascending(Flipped(s, |s|)) {
      forall p, q | 0 <= p < q < |s| && s[p] > s[q] ensures Falling(s, p, q) { SortedLayered(s, |s|, p, q); }
    }
  }

  /** Two are always in order. */
  lemma TwoOrdered(a: nat, b: nat)
    ensures Order([a, b]) == if b < a then [b, a] else [a, b]
  {
    assert Flipped([a, b], 1) == [a];
  }

  /** Three need not be. */
  lemma ThreeUnordered()
    ensures Order([2, 3, 1]) == [2, 1, 3] && !Ascending(Order([2, 3, 1]))
  {
    var s := [2, 3, 1];
    assert Flipped(s, 1) == [2];
    assert Flipped(s, 2) == [2, 3];
    assert RunStart(s, 2) == 1;
    assert Flipped(s, 3) == [2, 1, 3];
    assert Flipped(s, 3)[0] > Flipped(s, 3)[1];
  }

  /** The sort of lockInodes. */
  method SortByOriginal(inums: seq<nat>) returns (sorted: array<nat>)
    ensures fresh(sorted) && sorted[..] == Order(inums)
  {
    sorted := new nat[|inums|](i requires 0 <= i < |inums| => inums[i]);
    var i := 0;
    while i < sorted.Length
      invariant i <= sorted.Length == |inums|
      invariant sorted[..i] == Flipped(inums, i) && sorted[i..] == inums[i..]
    {
      SinkEntry(inums, sorted, i);
      i := i + 1;
    }
    assert sorted[..] == sorted[..i];
  }

  /** Moves entry i down as far as the comparisons of the original tell. */
  method SinkEntry(inums: seq<nat>, sorted: array<nat>, i: nat)
    requires i < sorted.Length == |inums| && sorted[..i] == Flipped(inums, i) && sorted[i..] == inums[i..]
    modifies sorted
    ensures sorted[..i + 1] == Flipped(inums, i + 1) && sorted[i + 1..] == inums[i + 1..]
  {
    ghost var r := Flipped(inums, i);
    var j := i;
    assert forall p :: i <= p < |inums| ==> sorted[p] == inums[i..][p - i];
    while j > 0 && inums[j] < inums[j - 1]
      invariant 0 <= j <= i && RunStart(inums, i) == RunStart(inums, j)
      invariant sorted[j] == inums[i] && forall p {:trigger sorted[p]} :: 0 <= p < |inums| && p != j ==>
        sorted[p] == if p < j then r[p] else if p <= i then r[p - 1] else inums[p]
    {
      sorted[j], sorted[j - 1] := sorted[j - 1], sorted[j];
      j := j - 1;
    }
    assert sorted[..i + 1] == Ins(r, j, inums[i]);
  }
}
