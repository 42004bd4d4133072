/** Which identifiers a least-recently-used cache holds after a history of lookups. */
module Lru {
  import opened Basics

  /** The identifiers looked up, the least recently used first. */
  function ByLastUse(h: seq<nat>): seq<nat> {
    if h == [] then [] else var x := h[|h| - 1]; Without(ByLastUse(h[..|h| - 1]), x) + [x]
  }

  function Last(l: seq<nat>, sz: nat): (r: seq<nat>)
    ensures |r| == Min(sz, |l|)
  {
    l[|l| - Min(sz, |l|)..]
  }

  /** The last so many of them. */
  function Recent(h: seq<nat>, sz: nat): seq<nat> { Last(ByLastUse(h), sz) }

  // ------------------------------------------------------------------- removing

  lemma {:induction false} WithoutAt(l: seq<nat>, p: nat)
    requires Distinct(l) && p < |l|
    ensures Without(l, l[p]) == l[..p] + l[p + 1..]
  {
    if p == 0 {
      WithoutAbsent(l[1..], l[0]);
    } else {
      WithoutAt(l[1..], p - 1);
      assert l[1..][..p - 1] == l[1..p] && l[1..][p..] == l[p + 1..];
    }
  }

  /** Removing one and putting it last. */
  function MoveLast(l: seq<nat>, x: nat): seq<nat> { Without(l, x) + [x] }

  lemma Moved(l: seq<nat>, x: nat) returns (p: nat)
    requires Distinct(l)
    ensures p <= |l| && (x in l <==> p < |l|) && (p < |l| ==> l[p] == x)
    ensures Without(l, x) == l[..p] + l[if p < |l| then p + 1 else p..]
    ensures Distinct(MoveLast(l, x))
  {
    if x in l {
      p :| 0 <= p < |l| && l[p] == x;
      WithoutAt(l, p);
    } else {
      p := |l|;
      WithoutAbsent(l, x);
    }
  }

  lemma {:induction false} ByLastUseDistinct(h: seq<nat>)
    ensures Distinct(ByLastUse(h))
  {
    if h != [] {
      ByLastUseDistinct(h[..|h| - 1]);
      var p := Moved(ByLastUse(h[..|h| - 1]), h[|h| - 1]);
    }
  }

  lemma Step(h: seq<nat>, x: nat)
    ensures ByLastUse(h + [x]) == MoveLast(ByLastUse(h), x)
  {
    assert (h + [x])[..|h|] == h;
  }

  // --------------------------------------------------------- one lookup at a time

  /** The list after a lookup: a hit moves to the end, a miss goes there, and drops the
      first if the cache is full. */
  function After(l: seq<nat>, x: nat, sz: nat): seq<nat> {
    if x in l then MoveLast(l, x) else if |l| >= sz > 0 then l[1..] + [x] else l + [x]
  }

  lemma RecentHit(l: seq<nat>, m: nat, x: nat)
    requires Distinct(l) && m <= |l| && x in l[|l| - m..]
    ensures |MoveLast(l, x)| == |l| && MoveLast(l, x)[|l| - m..] == MoveLast(l[|l| - m..], x)
  {
    var k := |l| - m;
    var p := Moved(l, x);
    var q := Moved(l[k..], x);
    assert l[k..][q] == l[k + q];
    assert p == k + q;
    assert l[k..][..q] == l[k..p] && l[k..][q + 1..] == l[p + 1..];
  }

  lemma RecentMiss(l: seq<nat>, m: nat, x: nat)
    requires Distinct(l) && m <= |l| && x !in l[|l| - m..]
    ensures |MoveLast(l, x)| >= m + 1 && MoveLast(l, x)[|MoveLast(l, x)| - m - 1..] == l[|l| - m..] + [x]
  {
    var k := |l| - m;
    var p := Moved(l, x);
    assert p < |l| ==> p < k by { assert forall q :: k <= q < |l| ==> l[q] in l[k..]; }
  }

  lemma LastHit(l: seq<nat>, x: nat, sz: nat)
    requires Distinct(l) && x in Last(l, sz)
    ensures Last(MoveLast(l, x), sz) == MoveLast(Last(l, sz), x)
  {
    RecentHit(l, Min(sz, |l|), x);
  }

  lemma LastMiss(l: seq<nat>, x: nat, sz: nat)
    requires sz > 0 && Distinct(l) && x !in Last(l, sz)
    ensures Last(MoveLast(l, x), sz) == (if |Last(l, sz)| >= sz then Last(l, sz)[1..] else Last(l, sz)) + [x]
  {
    RecentMiss(l, Min(sz, |l|), x);
    if |l| < sz { WithoutAbsent(l, x); }
  }

  lemma LastMoved(l: seq<nat>, x: nat, sz: nat)
    requires sz > 0 && Distinct(l)
    ensures Last(MoveLast(l, x), sz) == After(Last(l, sz), x, sz)
  {
    if x in Last(l, sz) { LastHit(l, x, sz); } else { LastMiss(l, x, sz); }
  }

  lemma RecentStep(h: seq<nat>, x: nat, sz: nat)
    requires sz > 0
    ensures Recent(h + [x], sz) == After(Recent(h, sz), x, sz)
  {
    Step(h, x);
    ByLastUseDistinct(h);
    LastMoved(ByLastUse(h), x, sz);
  }

  // ------------------------------------------------- what being recent comes to

  /** When x was last used. */
  function LastUse(h: seq<nat>, x: nat): (i: nat)
    requires x in h
    ensures i < |h| && h[i] == x && x !in h[i + 1..]
  {
    if h[|h| - 1] == x then |h| - 1 else
    assert x in h[..|h| - 1];
    LastUse(h[..|h| - 1], x)
  }

  lemma {:induction false} ByLastUseHas(h: seq<nat>, x: nat)
    ensures x in ByLastUse(h) <==> x in h
  {
    if h != [] {
      var g, y := h[..|h| - 1], h[|h| - 1];
      ByLastUseHas(g, x);
      ByLastUseDistinct(g);
      var p := Moved(ByLastUse(g), y);
      assert h == g + [y];
      MoveLastHas(ByLastUse(g), y, x);
    }
  }

  lemma MoveLastHas(l: seq<nat>, y: nat, x: nat)
    requires Distinct(l)
    ensures x in MoveLast(l, y) <==> x == y || x in l
  {
    var p := Moved(l, y);
    if x in l && x != y {
      var q :| 0 <= q < |l| && l[q] == x;
      assert MoveLast(l, y)[if q < p then q else q - 1] == x;
    }
  }

  lemma LastUseNext(g: seq<nat>, y: nat, x: nat)
    requires x in g && x != y
    ensures x in g + [y] && LastUse(g + [y], x) == LastUse(g, x)
    ensures ToSet((g + [y])[LastUse(g, x) + 1..]) == ToSet(g[LastUse(g, x) + 1..]) + {y}
  {
    var i := LastUse(g, x);
    assert (g + [y])[..|g|] == g;
    assert (g + [y])[i + 1..] == g[i + 1..] + [y];
    ToSetAppend(g[i + 1..], y);
  }

  lemma SinceNow(g: seq<nat>, y: nat)
    ensures var l := ByLastUse(g + [y]); |l| > 0 && l[|l| - 1] == y && ToSet(l[|l|..]) == {}
    ensures y in g + [y] && LastUse(g + [y], y) == |g| && ToSet((g + [y])[|g| + 1..]) == {}
  {
    Step(g, y);
  }

  lemma SinceNext(g: seq<nat>, y: nat, x: nat, k: nat) returns (p: nat)
    requires x in g && x != y && k < |ByLastUse(g)| && ByLastUse(g)[k] == x
    requires ToSet(ByLastUse(g)[k + 1..]) == ToSet(g[LastUse(g, x) + 1..])
    ensures x in g + [y] && p < |ByLastUse(g + [y])| && ByLastUse(g + [y])[p] == x
    ensures ToSet(ByLastUse(g + [y])[p + 1..]) == ToSet((g + [y])[LastUse(g + [y], x) + 1..])
  {
    ByLastUseDistinct(g);
    Step(g, y);
    p := BehindMoved(ByLastUse(g), y, k);
    LastUseNext(g, y, x);
  }

  /** What stands behind x is what was used since. */
  lemma {:induction false} UsedSince(h: seq<nat>, x: nat) returns (p: nat)
    requires x in h
    ensures p < |ByLastUse(h)| && ByLastUse(h)[p] == x && ToSet(ByLastUse(h)[p + 1..]) == ToSet(h[LastUse(h, x) + 1..])
  {
    var g, y := h[..|h| - 1], h[|h| - 1];
    assert h == g + [y];
    if y == x {
      SinceNow(g, y);
      p := |ByLastUse(h)| - 1;
    } else {
      var k := UsedSince(g, x);
      p := SinceNext(g, y, x, k);
    }
  }

  lemma BehindMoved(l: seq<nat>, y: nat, k: nat) returns (p: nat)
    requires Distinct(l) && k < |l| && l[k] != y
    ensures p < |MoveLast(l, y)| && MoveLast(l, y)[p] == l[k]
    ensures ToSet(MoveLast(l, y)[p + 1..]) == ToSet(l[k + 1..]) + {y}
  {
    var j := Moved(l, y);
    if j < k {
      p := k - 1;
      MovedBefore(l, y, j, k);
    } else if j < |l| {
      p := k;
      MovedBehind(l, y, j, k);
    } else {
      p := k;
      MovedIn(l, y, k);
    }
  }

  /** One from before position k goes to the end, */
  lemma MovedBefore(l: seq<nat>, y: nat, j: nat, k: nat)
    requires j < k < |l|
    ensures var t := l[..j] + l[j + 1..] + [y]; t[k - 1] == l[k] && ToSet(t[k..]) == ToSet(l[k + 1..]) + {y}
  {
    var t := l[..j] + l[j + 1..] + [y];
    assert t[k..] == l[k + 1..] + [y];
    ToSetAppend(l[k + 1..], y);
  }

  /** or one from behind it, */
  lemma MovedBehind(l: seq<nat>, y: nat, j: nat, k: nat)
    requires k < j < |l| && l[j] == y
    ensures var t := l[..j] + l[j + 1..] + [y]; t[k] == l[k] && ToSet(t[k + 1..]) == ToSet(l[k + 1..]) + {y}
  {
    var t := l[..j] + l[j + 1..] + [y];
    var a, b := l[k + 1..j], l[j + 1..];
    assert t[k + 1..] == a + b + [y];
    assert l[k + 1..] == a + [y] + b;
    ToSetAppend(a + b, y);
    forall x ensures x in a + [y] + b <==> x in a + b || x == y {}
  }

  /** or a new one. */
  lemma MovedIn(l: seq<nat>, y: nat, k: nat)
    requires k < |l|
    ensures var t := l[..|l|] + l[|l|..] + [y]; t[k] == l[k] && ToSet(t[k + 1..]) == ToSet(l[k + 1..]) + {y}
  {
    var t := l[..|l|] + l[|l|..] + [y];
    assert t[k + 1..] == l[k + 1..] + [y];
    ToSetAppend(l[k + 1..], y);
  }

  lemma {:induction false} CountDistinct(l: seq<nat>)
    requires Distinct(l)
    ensures |ToSet(l)| == |l|
  {
    if l != [] {
      CountDistinct(l[1..]);
      assert ToSet(l) == ToSet(l[1..]) + {l[0]};
    }
  }

  /** The list is ordered by last use. */
  lemma Ordered(h: seq<nat>, p: nat, q: nat)
    requires p < q < |ByLastUse(h)|
    ensures ByLastUse(h)[p] in h && ByLastUse(h)[q] in h && LastUse(h, ByLastUse(h)[p]) < LastUse(h, ByLastUse(h)[q])
  {
    var x, y := ByLastUse(h)[p], ByLastUse(h)[q];
    ByLastUseHas(h, x);
    ByLastUseHas(h, y);
    ByLastUseDistinct(h);
    var k := UsedSince(h, x);
    assert y in ByLastUse(h)[k + 1..];
    assert y in ToSet(h[LastUse(h, x) + 1..]);
    var j :| LastUse(h, x) < j < |h| && h[j] == y;
    assert h[LastUse(h, y) + 1..] == [] || forall i :: LastUse(h, y) < i < |h| ==> h[i] in h[LastUse(h, y) + 1..];
  }

  /** The cache holds x exactly when fewer than sz other identifiers were looked up since. */
  lemma RecentIff(h: seq<nat>, x: nat, sz: nat)
    ensures x in Recent(h, sz) <==> x in h && |ToSet(h[LastUse(h, x) + 1..])| < sz
  {
    ByLastUseHas(h, x);
    if x in h {
      var l := ByLastUse(h);
      var m := Min(sz, |l|);
      ByLastUseDistinct(h);
      var p := UsedSince(h, x);
      CountDistinct(l[p + 1..]);
      assert x in l[|l| - m..] <==> p >= |l| - m by {
        if p >= |l| - m { assert l[|l| - m..][p - (|l| - m)] == x; }
      }
    }
  }

  /** It holds as many as there is room for. */
  lemma RecentCount(h: seq<nat>, sz: nat)
    ensures |Recent(h, sz)| == Min(sz, |ToSet(h)|) && Distinct(Recent(h, sz))
  {
    ByLastUseDistinct(h);
    CountDistinct(ByLastUse(h));
    assert ToSet(ByLastUse(h)) == ToSet(h) by {
      forall x ensures x in ByLastUse(h) <==> x in h { ByLastUseHas(h, x); }
    }
  }

  lemma RecentOrdered(h: seq<nat>, sz: nat, p: nat, q: nat)
    requires p < q < |Recent(h, sz)|
    ensures Recent(h, sz)[p] in h && Recent(h, sz)[q] in h
    ensures LastUse(h, Recent(h, sz)[p]) < LastUse(h, Recent(h, sz)[q])
  {
    var l := ByLastUse(h);
    var k := |l| - Min(sz, |l|);
    Ordered(h, k + p, k + q);
  }
}
