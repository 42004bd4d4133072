/** Listing a directory page by page, with cookies that are the offsets of entries. */
module Paging {
  import opened Basics
  import opened DirEnts

  /** The budget of one reply.  READDIR counts bytes of the reply only; READDIRPLUS counts
      directory bytes too, and more per entry. */
  datatype Limits = Readdir(maxcount: nat) | Readdirplus(dircount: nat, maxcount: nat)
  {
    /** Bytes of the reply for an entry, its name not counted. */
    function Baggage(): nat { if Readdir? then 16 + 8 + 8 else 8 + 4 + 8 + (4 + 84) + 16 + 8 }
    predicate Spent(dirbytes: nat, n: nat) { n >= maxcount || (Readdirplus? && dirbytes >= dircount) }
  }

  /** The fixed part of a reply. */
  const HEADER: nat := 64

  /** The live entries from index a up to b, in order. */
  function LiveIn(ents: seq<DirEnt>, a: nat, b: nat): seq<nat>
    requires a <= b <= |ents|
    decreases b - a
  {
    if a == b then []
    else if ents[a].Live() then [a] + LiveIn(ents, a + 1, b)
    else LiveIn(ents, a + 1, b)
  }

  /** It has every live entry, once, in increasing order of offset, and nothing else. */
  lemma {:induction false} LiveInExact(ents: seq<DirEnt>, a: nat, b: nat)
    requires a <= b <= |ents|
    ensures forall e :: e in LiveIn(ents, a, b) <==> a <= e < b && ents[e].Live()
    ensures forall i, j :: 0 <= i < j < |LiveIn(ents, a, b)| ==> LiveIn(ents, a, b)[i] < LiveIn(ents, a, b)[j]
    decreases b - a
  {
    if a < b {
      LiveInExact(ents, a + 1, b);
      if ents[a].Live() {
        var rest := LiveIn(ents, a + 1, b);
        assert LiveIn(ents, a, b) == [a] + rest;
        forall i | 0 <= i < |rest| ensures a < rest[i] { assert rest[i] in rest; }
      }
    }
  }

  lemma {:induction false} LiveInJoin(ents: seq<DirEnt>, a: nat, b: nat, c: nat)
    requires a <= b <= c <= |ents|
    ensures LiveIn(ents, a, b) + LiveIn(ents, b, c) == LiveIn(ents, a, c)
    decreases b - a
  {
    if a < b { LiveInJoin(ents, a + 1, b, c); }
  }

  /** Where a call that starts at index k ends: at the entry after whose report the budget is
      spent, or at the end of the directory. */
  function StopAt(ents: seq<DirEnt>, k: nat, dirbytes: nat, n: nat, lim: Limits): (s: nat)
    requires k <= |ents|
    ensures k <= s <= |ents| && (s < |ents| ==> ents[s].Live())
    decreases |ents| - k
  {
    if k == |ents| then k
    else if !ents[k].Live() then StopAt(ents, k + 1, dirbytes, n, lim)
    else
      var d, m := dirbytes + 8 + |ents[k].name|, n + lim.Baggage() + |ents[k].name|;
      if lim.Spent(d, m) then k else StopAt(ents, k + 1, d, m, lim)
  }

  /** Where a call with a cookie starts: at the beginning for cookie 0, else after the
      entry at that offset. */
  function BeginAt(cookie: nat): nat {
    if cookie == 0 then 0 else cookie / DIRENTSZ + 1
  }

  lemma BeginAtSlot(e: nat)
    ensures BeginAt(DIRENTSZ * e) == if e == 0 then 0 else e + 1
  {}

  /** The reply to one call: the entries reported, and whether the end was reached. */
  function Page(ents: seq<DirEnt>, cookie: nat, lim: Limits): (seq<nat>, bool) {
    var k := BeginAt(cookie);
    if k > |ents| then ([], true)
    else
      var s := StopAt(ents, k, 0, HEADER, lim);
      if s == |ents| then (LiveIn(ents, k, s), true) else (LiveIn(ents, k, s + 1), false)
  }

  // ------------------------------------------------------- what a page costs

  /** The bytes of the reply that the entries of a page take: for each its name, and 32
      bytes in READDIR or 132 in READDIRPLUS. */
  function ReplyBytes(ents: seq<DirEnt>, vs: seq<nat>, plus: bool): nat
    requires forall i :: 0 <= i < |vs| ==> vs[i] < |ents|
  {
    if vs == [] then 0
    else (if plus then 132 else 32) + |ents[vs[0]].name| + ReplyBytes(ents, vs[1..], plus)
  }

  /** The directory bytes that they take: for each its name and 8 bytes. */
  function NameBytes(ents: seq<DirEnt>, vs: seq<nat>): nat
    requires forall i :: 0 <= i < |vs| ==> vs[i] < |ents|
  {
    if vs == [] then 0 else 8 + |ents[vs[0]].name| + NameBytes(ents, vs[1..])
  }

  /** With d directory bytes and n bytes of the reply spent before, the entries stay below
      the counts the client gave. */
  predicate Within(ents: seq<DirEnt>, vs: seq<nat>, d: nat, n: nat, lim: Limits)
    requires forall i :: 0 <= i < |vs| ==> vs[i] < |ents|
  {
    match lim
    case Readdir(count) => n + ReplyBytes(ents, vs, false) < count
    case Readdirplus(dircount, maxcount) =>
      n + ReplyBytes(ents, vs, true) < maxcount && d + NameBytes(ents, vs) < dircount
  }

  /** The entries from index k up to where a call stops, the last one included. */
  function Stretch(ents: seq<DirEnt>, k: nat, d: nat, n: nat, lim: Limits): (vs: seq<nat>)
    requires k <= |ents|
    ensures forall i :: 0 <= i < |vs| ==> vs[i] < |ents|
  {
    var s := StopAt(ents, k, d, n, lim);
    var e := if s == |ents| then s else s + 1;
    LiveInExact(ents, k, e);
    var vs := LiveIn(ents, k, e);
    assert forall i :: 0 <= i < |vs| ==> vs[i] in vs;
    vs
  }

  /** Unfolding a stretch by its first slot. */
  lemma StretchNext(ents: seq<DirEnt>, k: nat, d: nat, n: nat, lim: Limits)
    requires k < |ents|
    ensures var d', n' := d + 8 + |ents[k].name|, n + lim.Baggage() + |ents[k].name|;
            Stretch(ents, k, d, n, lim) ==
            if !ents[k].Live() then Stretch(ents, k + 1, d, n, lim)
            else if lim.Spent(d', n') then [k]
            else [k] + Stretch(ents, k + 1, d', n', lim)
  {
    assert LiveIn(ents, k + 1, k + 1) == [];
  }

  /** A call reports entries until they are no longer within the counts: all but the last
      are, and the last one is unless the end is reached. */
  lemma {:induction false} StretchBudget(ents: seq<DirEnt>, k: nat, d: nat, n: nat, lim: Limits)
    requires k <= |ents|
    ensures var vs := Stretch(ents, k, d, n, lim);
            && (forall j :: 0 < j < |vs| ==> Within(ents, vs[..j], d, n, lim))
            && (StopAt(ents, k, d, n, lim) == |ents| <==> vs == [] || Within(ents, vs, d, n, lim))
    decreases |ents| - k
  {
    if k < |ents| {
      StretchNext(ents, k, d, n, lim);
      var vs := Stretch(ents, k, d, n, lim);
      var d', n' := d + 8 + |ents[k].name|, n + lim.Baggage() + |ents[k].name|;
      if !ents[k].Live() {
        StretchBudget(ents, k + 1, d, n, lim);
      } else if lim.Spent(d', n') {
        OneWithin(ents, k, d, n, lim);
      } else {
        StretchBudget(ents, k + 1, d', n', lim);
        OneWithin(ents, k, d, n, lim);
        forall j | 0 < j <= |vs| ensures Within(ents, vs[..j], d, n, lim) <==> Within(ents, vs[1..j], d', n', lim) {
          assert vs[..j][1..] == vs[1..j];
        }
        forall j | 0 < j < |vs| ensures Within(ents, vs[..j], d, n, lim) {
          assert vs[1..j] == vs[1..][..j - 1];
        }
        assert vs[..|vs|] == vs && vs[1..|vs|] == vs[1..];
      }
    }
  }

  lemma OneWithin(ents: seq<DirEnt>, k: nat, d: nat, n: nat, lim: Limits)
    requires k < |ents|
    ensures Within(ents, [k], d, n, lim) <==> !lim.Spent(d + 8 + |ents[k].name|, n + lim.Baggage() + |ents[k].name|)
  {
    assert ReplyBytes(ents, [k][1..], true) == 0 && ReplyBytes(ents, [k][1..], false) == 0;
    assert NameBytes(ents, [k][1..]) == 0;
  }

  /** What a page costs: 64 bytes and its entries before the last stay below the counts, and
      with the last one they do so if and only if the page says that the end is reached. */
  lemma PageBudget(ents: seq<DirEnt>, cookie: nat, lim: Limits)
    ensures var (vs, eof) := Page(ents, cookie, lim);
            && (forall i :: 0 <= i < |vs| ==> vs[i] < |ents|)
            && (forall j :: 0 < j < |vs| ==> Within(ents, vs[..j], 0, 64, lim))
            && (eof <==> vs == [] || Within(ents, vs, 0, 64, lim))
  {
    var k := BeginAt(cookie);
    if k <= |ents| { StretchBudget(ents, k, 0, HEADER, lim); }
  }

  /** A page that is not the last ends with the entry at which the call stopped. */
  lemma {:induction false} LastLive(ents: seq<DirEnt>, a: nat, s: nat)
    requires a <= s < |ents| && ents[s].Live()
    ensures var vs := LiveIn(ents, a, s + 1); |vs| > 0 && vs[|vs| - 1] == s
    decreases s - a
  {
    if a < s { LastLive(ents, a + 1, s); }
  }

  /** A client that passes the last cookie back until it sees the end.  None: the next
      request is the one just answered, and so are all that follow. */
  function Follow(ents: seq<DirEnt>, cookie: nat, lim: Limits): Option<seq<nat>>
    decreases if cookie < DIRENTSZ * |ents| then DIRENTSZ * |ents| - cookie else 0
  {
    var (vs, eof) := Page(ents, cookie, lim);
    if eof || vs == [] then Some(vs)
    else
      var next := DIRENTSZ * vs[|vs| - 1];
      if next <= cookie || next >= DIRENTSZ * |ents| then None
      else
        match Follow(ents, next, lim)
        case None => None
        case Some(rest) => Some(vs + rest)
  }

  /** Past the first entry the client always gets everything that is left. */
  lemma {:induction false} FollowRest(ents: seq<DirEnt>, e: nat, lim: Limits)
    requires 0 < e < |ents|
    ensures Follow(ents, DIRENTSZ * e, lim) == Some(LiveIn(ents, e + 1, |ents|))
    decreases |ents| - e
  {
    assert BeginAt(DIRENTSZ * e) == e + 1;
    var s := StopAt(ents, e + 1, 0, HEADER, lim);
    if s < |ents| {
      LastLive(ents, e + 1, s);
      FollowRest(ents, s, lim);
      LiveInJoin(ents, e + 1, s + 1, |ents|);
    }
  }

  /** Paged listing: a directory that starts with "." is listed completely, every live
      entry once and in order, exactly when the budget of the first reply is not spent by
      that entry alone; else the client asks the same question for ever. */
  lemma ListingIff(ents: seq<DirEnt>, lim: Limits)
    requires |ents| > 0 && ents[0].Live() && |ents[0].name| == 1
    ensures Follow(ents, 0, lim) ==
            if lim.Spent(8 + 1, HEADER + lim.Baggage() + 1) then None else Some(LiveIn(ents, 0, |ents|))
  {
    var s := StopAt(ents, 0, 0, HEADER, lim);
    if s < |ents| {
      LastLive(ents, 0, s);
      if s > 0 {
        FollowRest(ents, s, lim);
        LiveInJoin(ents, 0, s + 1, |ents|);
      }
    }
  }

  /** For READDIR that budget is a count above 97, for READDIRPLUS a dircount above 9 and a
      maxcount above 197. */
  lemma ListingBudget(ents: seq<DirEnt>, count: nat, dircount: nat)
    requires |ents| > 0 && ents[0].Live() && |ents[0].name| == 1
    ensures Follow(ents, 0, Readdir(count)) == Some(LiveIn(ents, 0, |ents|)) <==> count > 97
    ensures Follow(ents, 0, Readdirplus(dircount, count)) == Some(LiveIn(ents, 0, |ents|)) <==>
              dircount > 9 && count > 197
  {
    ListingIff(ents, Readdir(count));
    ListingIff(ents, Readdirplus(dircount, count));
  }

  // ------------------------------------------------------ what a call reports

  /** An entry as the callback gets it. */
  datatype Report = Report(name: Name, inum: nat, off: nat)

  function Reports(ents: seq<DirEnt>, a: nat, b: nat): seq<Report>
    requires a <= b <= |ents|
    decreases b
  {
    if a == b then []
    else if ents[b - 1].Live() then
      Reports(ents, a, b - 1) + [Report(ents[b - 1].name, ents[b - 1].inum, DIRENTSZ * (b - 1))]
    else Reports(ents, a, b - 1)
  }

  /** The reports are those of the live entries of the page. */
  lemma {:induction false} ReportsAreLive(ents: seq<DirEnt>, a: nat, b: nat)
    requires a <= b <= |ents|
    ensures var vs := LiveIn(ents, a, b);
            |Reports(ents, a, b)| == |vs| &&
            forall i :: 0 <= i < |vs| ==>
              && vs[i] < |ents|
              && Reports(ents, a, b)[i] == Report(ents[vs[i]].name, ents[vs[i]].inum, DIRENTSZ * vs[i])
    decreases b
  {
    if a < b {
      ReportsAreLive(ents, a, b - 1);
      LiveInJoin(ents, a, b - 1, b);
      assert LiveIn(ents, b - 1, b) == if ents[b - 1].Live() then [b - 1] else [];
    }
  }

  /** The callback of mkDcache, for one report after another. */
  function AddAll(rs: seq<Report>): Cache {
    if rs == [] then map[]
    else
      var r := rs[|rs| - 1];
      AddAll(rs[..|rs| - 1])[r.name := Dentry(r.inum, r.off)]
  }

  lemma AddAllNext(rs: seq<Report>, r: Report)
    ensures AddAll(rs + [r]) == AddAll(rs)[r.name := Dentry(r.inum, r.off)]
  {
    assert (rs + [r])[..|rs|] == rs;
  }

  lemma CacheOfNext(ents: seq<DirEnt>, n: nat)
    requires n < |ents|
    ensures CacheOf(ents[..n + 1]) ==
            if ents[n].Live() then CacheOf(ents[..n])[ents[n].name := Dentry(ents[n].inum, DIRENTSZ * n)]
            else CacheOf(ents[..n])
  {
    assert ents[..n + 1][..n] == ents[..n];
  }

  lemma {:induction false} AddAllIsCache(ents: seq<DirEnt>, b: nat)
    requires b <= |ents|
    ensures AddAll(Reports(ents, 0, b)) == CacheOf(ents[..b])
  {
    if b > 0 {
      var n := b - 1;
      AddAllIsCache(ents, n);
      CacheOfNext(ents, n);
      AddAllNext(Reports(ents, 0, n), Report(ents[n].name, ents[n].inum, DIRENTSZ * n));
    }
  }

  // ------------------------------------------- the budget of the name cache

  /** The budget of replies that mkDcache gives Apply. */
  const CACHEMAX: nat := 100000000

  /** The budget that mkDcache gives Apply for a directory of n slots. */
  function CacheLimits(n: nat): Limits { Readdirplus(DIRENTSZ * n, CACHEMAX) }

  /** What Apply counts for the live entries below index k. */
  function Cost(ents: seq<DirEnt>, k: nat): (c: nat)
    requires k <= |ents|
    ensures c >= HEADER
  {
    if k == 0 then HEADER
    else Cost(ents, k - 1) + if ents[k - 1].Live() then CacheLimits(0).Baggage() + |ents[k - 1].name| else 0
  }

  /** The directory bytes it counts for them. */
  function DirBytes(ents: seq<DirEnt>, k: nat): nat
    requires k <= |ents|
  {
    if k == 0 then 0 else DirBytes(ents, k - 1) + if ents[k - 1].Live() then 8 + |ents[k - 1].name| else 0
  }

  ghost predicate AllFit(ents: seq<DirEnt>) {
    forall i :: 0 <= i < |ents| ==> ents[i].Fits()
  }

  /** What is counted before any live entry, so before the last one, is within the budget. */
  ghost predicate CacheFits(ents: seq<DirEnt>) {
    forall k: nat :: k < |ents| && ents[k].Live() ==> Cost(ents, k) < CACHEMAX
  }

  /** Where the scan for the cache ends, one past the last entry it reports. */
  function CacheEnd(ents: seq<DirEnt>): (e: nat)
    ensures e <= |ents|
  {
    var s := StopAt(ents, 0, 0, HEADER, CacheLimits(|ents|));
    if s == |ents| then s else s + 1
  }

  /** The cache that mkDcache builds. */
  function BuiltCache(ents: seq<DirEnt>): Cache { AddAll(Reports(ents, 0, CacheEnd(ents))) }

  lemma {:induction false} CostMono(ents: seq<DirEnt>, j: nat, k: nat)
    requires j <= k <= |ents|
    ensures Cost(ents, j) <= Cost(ents, k)
    decreases k
  {
    if j < k { CostMono(ents, j, k - 1); }
  }

  /** The directory bytes alone never exhaust the budget. */
  lemma {:induction false} DirBytesFit(ents: seq<DirEnt>, k: nat)
    requires k <= |ents| && AllFit(ents)
    ensures DirBytes(ents, k) <= 119 * k
  {
    if k > 0 { DirBytesFit(ents, k - 1); }
  }

  /** Where the scan stops that has come to index k. */
  function StopFrom(ents: seq<DirEnt>, k: nat): (s: nat)
    requires k <= |ents|
    ensures k <= s <= |ents|
  {
    StopAt(ents, k, DirBytes(ents, k), Cost(ents, k), CacheLimits(|ents|))
  }

  lemma StopNext(ents: seq<DirEnt>, k: nat)
    requires k < |ents| && AllFit(ents)
    ensures StopFrom(ents, k) == if ents[k].Live() && Cost(ents, k + 1) >= CACHEMAX then k else StopFrom(ents, k + 1)
  {
    DirBytesFit(ents, k + 1);
  }

  /** The live entry i does not spend the budget. */
  ghost predicate Cheap(ents: seq<DirEnt>, i: nat)
    requires i < |ents|
  {
    ents[i].Live() ==> Cost(ents, i + 1) < CACHEMAX
  }

  /** The scan stops after the first live entry that spends the budget. */
  lemma {:induction false} StopAtCost(ents: seq<DirEnt>, k: nat)
    requires k <= |ents| && AllFit(ents)
    ensures forall i: nat :: k <= i < StopFrom(ents, k) ==> Cheap(ents, i)
    ensures StopFrom(ents, k) < |ents| ==> Cost(ents, StopFrom(ents, k) + 1) >= CACHEMAX
    decreases |ents| - k
  {
    if k < |ents| {
      StopNext(ents, k);
      if Cheap(ents, k) { StopAtCost(ents, k + 1); }
    }
  }

  /** The scan reports every live entry if and only if the directory fits. */
  lemma CacheEndIff(ents: seq<DirEnt>)
    requires AllFit(ents)
    ensures (forall i: nat :: CacheEnd(ents) <= i < |ents| ==> !ents[i].Live()) <==> CacheFits(ents)
  {
    StopAtCost(ents, 0);
    var e := CacheEnd(ents);
    forall i: nat | i < |ents| && ents[i].Live() ensures i < e <==> Cost(ents, i) < CACHEMAX {
      var s := StopFrom(ents, 0);
      if s < i { CostMono(ents, s + 1, i); }
      if i <= s { CostMono(ents, i, s); BeforeStop(ents, i, s); }
    }
  }

  /** Before an entry there is only what earlier live entries cost. */
  lemma {:induction false} BeforeStop(ents: seq<DirEnt>, i: nat, s: nat)
    requires i <= s <= |ents| && forall j: nat :: j < s ==> Cheap(ents, j)
    ensures Cost(ents, i) < CACHEMAX
  {
    if i > 0 {
      BeforeStop(ents, i - 1, s);
      assert Cheap(ents, i - 1);
    }
  }

  lemma BuiltIs(ents: seq<DirEnt>)
    ensures BuiltCache(ents) == CacheOf(ents[..CacheEnd(ents)])
  {
    AddAllIsCache(ents, CacheEnd(ents));
  }

  lemma PrefixUnique(ents: seq<DirEnt>, n: nat)
    requires UniqueNames(ents) && n <= |ents|
    ensures UniqueNames(ents[..n])
  {
    forall i: nat, j: nat | i < j < n && ents[i].Live() && ents[j].Live()
      ensures NameAt(ents[..n], i) != NameAt(ents[..n], j)
    {
      NamesDiffer(ents, i, j);
    }
  }

  /** The cache built has exactly the live entries the scan reports. */
  lemma BuiltHas(ents: seq<DirEnt>, i: nat)
    requires UniqueNames(ents) && i < |ents| && ents[i].Live()
    ensures ents[i].name in BuiltCache(ents) <==> i < CacheEnd(ents)
    ensures i < CacheEnd(ents) ==> BuiltCache(ents)[ents[i].name] == Dentry(ents[i].inum, DIRENTSZ * i)
  {
    var e := CacheEnd(ents);
    BuiltIs(ents);
    PrefixUnique(ents, e);
    if i < e {
      CacheAt(ents[..e], i);
    } else if ents[i].name in CacheOf(ents[..e]) {
      CacheHit(ents[..e], ents[i].name);
      var j: nat :| j < e && ents[..e][j].Live() && ents[..e][j].name == ents[i].name;
      NamesDiffer(ents, j, i);
    }
  }

  /** Every entry of a cache is one of the cache of the directory. */
  ghost predicate Sound(c: Cache, ents: seq<DirEnt>) {
    forall name :: name in c ==> name in CacheOf(ents) && CacheOf(ents)[name] == c[name]
  }

  /** Whatever the budget, the cache built has no wrong entry. */
  lemma BuiltSound(ents: seq<DirEnt>)
    requires UniqueNames(ents)
    ensures Sound(BuiltCache(ents), ents)
  {
    var e := CacheEnd(ents);
    BuiltIs(ents);
    forall name | name in BuiltCache(ents)
      ensures name in CacheOf(ents) && CacheOf(ents)[name] == BuiltCache(ents)[name]
    {
      CacheHit(ents[..e], name);
      var j: nat :| j < e && ents[..e][j].Live() && ents[..e][j].name == name;
      CacheAt(ents, j);
      BuiltHas(ents, j);
    }
  }

  /** The name cache answers every lookup as the scan does if and only if what is counted
      before the last live entry is below the budget. */
  lemma CacheIffFits(ents: seq<DirEnt>)
    requires UniqueNames(ents) && AllFit(ents)
    ensures BuiltCache(ents) == CacheOf(ents) <==> CacheFits(ents)
    ensures (forall name :: Cached(BuiltCache(ents), name) == Found(ents, name)) <==> CacheFits(ents)
  {
    CacheEndIff(ents);
    forall name ensures Cached(CacheOf(ents), name) == Found(ents, name) { CacheIsScan(ents, name); }
    if CacheFits(ents) {
      BuiltComplete(ents);
    } else {
      var i: nat :| CacheEnd(ents) <= i < |ents| && ents[i].Live();
      LookupDiffers(ents, i);
    }
  }

  lemma BuiltComplete(ents: seq<DirEnt>)
    requires UniqueNames(ents) && forall i: nat :: CacheEnd(ents) <= i < |ents| ==> !ents[i].Live()
    ensures BuiltCache(ents) == CacheOf(ents)
  {
    BuiltSound(ents);
    forall i: nat | i < |ents| && ents[i].Live()
      ensures ents[i].name in BuiltCache(ents) && BuiltCache(ents)[ents[i].name] == Dentry(ents[i].inum, DIRENTSZ * i)
    {
      BuiltHas(ents, i);
    }
    forall name | name in BuiltCache(ents)
      ensures exists i: nat :: i < |ents| && ents[i].Live() && ents[i].name == name
    {
      CacheHit(ents, name);
    }
    CacheExtensional(ents, BuiltCache(ents));
  }

  /** A live entry that the scan does not reach is found by ScanName and not by LookupName. */
  lemma LookupDiffers(ents: seq<DirEnt>, i: nat)
    requires UniqueNames(ents) && CacheEnd(ents) <= i < |ents| && ents[i].Live()
    ensures Cached(BuiltCache(ents), ents[i].name) == (0, 0) != Found(ents, ents[i].name)
    ensures BuiltCache(ents) != CacheOf(ents)
  {
    BuiltHas(ents, i);
    CacheAt(ents, i);
    CacheIsScan(ents, ents[i].name);
  }

  /** Names of AddName's length: 411523 live entries always fit. */
  lemma {:induction false} CostBound(ents: seq<DirEnt>, k: nat)
    requires k <= |ents| && AllFit(ents)
    ensures Cost(ents, k) <= HEADER + 243 * LiveCount(ents, k)
  {
    if k > 0 { CostBound(ents, k - 1); }
  }

  /** The number of live entries below index k. */
  function LiveCount(ents: seq<DirEnt>, k: nat): (c: nat)
    requires k <= |ents|
    ensures c <= k
  {
    if k == 0 then 0 else LiveCount(ents, k - 1) + if ents[k - 1].Live() then 1 else 0
  }

  lemma {:induction false} LiveCountMono(ents: seq<DirEnt>, j: nat, k: nat)
    requires j <= k <= |ents|
    ensures LiveCount(ents, j) <= LiveCount(ents, k)
    decreases k
  {
    if j < k { LiveCountMono(ents, j, k - 1); }
  }

  /** A directory of up to 411523 live entries fits, whatever their names. */
  lemma ManyFit(ents: seq<DirEnt>)
    requires AllFit(ents) && LiveCount(ents, |ents|) <= 411523
    ensures CacheFits(ents)
  {
    forall k: nat | k < |ents| && ents[k].Live() ensures Cost(ents, k) < CACHEMAX {
      CostBound(ents, k);
      LiveCountMono(ents, k + 1, |ents|);
    }
  }

  /** One more, with the longest names, does not. */
  lemma {:induction false} TooMany(ents: seq<DirEnt>, k: nat)
    requires |ents| > 411523 && k <= 411523
    requires forall i :: 0 <= i < |ents| ==> ents[i].Live() && |ents[i].name| == 111
    ensures Cost(ents, k) == HEADER + 243 * k
    ensures k == 411523 ==> !CacheFits(ents)
  {
    if k > 0 { TooMany(ents, k - 1); }
  }
}
