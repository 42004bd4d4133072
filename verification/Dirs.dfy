/** Directory operations on an inode, and the name cache kept beside it. */
module Dirs {
  import opened Bytes
  import opened Tree
  import opened Files
  import opened AllocTxns
  import opened Inodes
  import opened DirEnts
  import opened DirFiles
  import opened Paging

  /** The file type of directories. */
  const NF3DIR: nat := 2

  /** A map from names to inode numbers and offsets, and the offset to search from. */
  class Dcache {
    var cache: Cache
    var lastoff: nat

    constructor ()
      ensures cache == map[] && lastoff == 0
    {
      cache, lastoff := map[], 0;
    }

    method Add(name: Name, inum: nat, off: nat)
      modifies this`cache
      ensures cache == old(cache)[name := Dentry(inum, off)]
    {
      cache := cache[name := Dentry(inum, off)];
    }

    method Lookup(name: Name) returns (d: Dentry, ok: bool)
      ensures ok <==> name in cache
      ensures ok ==> d == cache[name]
    {
      ok := name in cache;
      d := if ok then cache[name] else Dentry(0, 0);
    }

    method Del(name: Name) returns (ok: bool)
      modifies this`cache
      ensures ok <==> name in old(cache)
      ensures cache == old(cache) - {name}
    {
      ok := name in cache;
      if ok {
        cache := cache - {name};
      } else {
        assert cache == cache - {name};
      }
    }
  }

  /** The inode is a directory with these entries: whole slots, no holes, unique names. */
  ghost predicate DirIs(dip: Inode, op: AllocTxn, ents: seq<DirEnt>)
    reads dip, op, op.balloc
  {
    && dip.Ok(op) && dip.kind == NF3DIR && dip.size == DIRENTSZ * |ents| <= MaxFileSize() < U64 - DIRENTSZ
    && DirHas(op.view, dip.blks, ents) && UniqueNames(ents)
  }

  /** Reads the entry at offset off, slot k; the directory does not change. */
  method ReadEnt(dip: Inode, op: AllocTxn, off: nat, ghost k: nat, ghost ents: seq<DirEnt>) returns (de: DirEnt)
    requires DirIs(dip, op, ents) && k < |ents| && off == DIRENTSZ * k
    modifies dip`blks, op`view, op`dirty, op`dirtyInodes, op`allocBnums, op`mine, op.balloc
    ensures DirIs(dip, op, ents) && de == ents[k] && op.balloc.refused == old(op.balloc.refused)
  {
    ghost var v0, b0, l0 := op.view, dip.blks, op.Books();
    var data, eof;
    ghost var m, l;
    data, eof, m, l := dip.Read(op, off, DIRENTSZ);
    ReadIsEnt(v0, b0, ents, k, data);
    EntsFilled(v0, b0, op.view, dip.blks, op.Books().Since(l0), m, l, ents);
    de := Decode(data);
  }

  /** The slow lookup: a scan of the whole directory. */
  method ScanName(dip: Inode, op: AllocTxn, name: Name, ghost ents: seq<DirEnt>) returns (inum: nat, finalOffset: nat)
    requires dip.kind == NF3DIR ==> DirIs(dip, op, ents)
    modifies dip`blks, op`view, op`dirty, op`dirtyInodes, op`allocBnums, op`mine, op.balloc
    ensures dip.kind == NF3DIR ==> DirIs(dip, op, ents) && (inum, finalOffset) == Found(ents, name)
    ensures dip.kind != NF3DIR ==> inum == 0 && finalOffset == 0 && dip.blks == old(dip.blks) && op.view == old(op.view)
    ensures op.balloc.refused == old(op.balloc.refused)
  {
    if dip.kind != NF3DIR {
      return 0, 0;
    }
    inum, finalOffset := 0, 0;
    var off := 0;
    ghost var k := 0;
    while off < dip.size
      invariant op.balloc.refused == old(op.balloc.refused)
      invariant DirIs(dip, op, ents)
      invariant off == DIRENTSZ * k && k <= |ents| && inum == 0 && finalOffset == 0
      invariant Scan(ents, name, 0) == Scan(ents, name, k)
      decreases |ents| - k
    {
      var de := ReadEnt(dip, op, off, k, ents);
      if de.inum != 0 && de.name == name {
        inum := de.inum;
        finalOffset := off;
        break;
      }
      off, k := off + DIRENTSZ, k + 1;
    }
  }

  /** Whether there is no live entry after the first two. */
  method IsDirEmpty(dip: Inode, op: AllocTxn, ghost ents: seq<DirEnt>) returns (empty: bool)
    requires DirIs(dip, op, ents)
    modifies dip`blks, op`view, op`dirty, op`dirtyInodes, op`allocBnums, op`mine, op.balloc
    ensures DirIs(dip, op, ents) && op.balloc.refused == old(op.balloc.refused)
    ensures empty <==> forall i :: 2 <= i < |ents| ==> !ents[i].Live()
  {
    empty := true;
    var off := 2 * DIRENTSZ;
    ghost var k := 2;
    while off < dip.size
      invariant DirIs(dip, op, ents) && op.balloc.refused == old(op.balloc.refused) && empty && off == DIRENTSZ * k
      invariant forall i :: 2 <= i < k && i < |ents| ==> !ents[i].Live()
      decreases dip.size - off
    {
      var de := ReadEnt(dip, op, off, k, ents);
      if de.inum == 0 {
        off, k := off + DIRENTSZ, k + 1;
        continue;
      }
      empty := false;
      break;
    }
  }

  /** The slot that AddNameDir uses when it searches from index j on: an empty one, but
      never the first, or a new one at the end. */
  function Place(ents: seq<DirEnt>, j: nat): (k: nat)
    requires j <= |ents|
    ensures k <= |ents| && (k < |ents| ==> j <= k && !ents[k].Live() && forall i :: j <= i < k ==> ents[i].Live())
    ensures k == |ents| ==> (j == 0 < |ents| && !ents[0].Live()) || forall i :: j <= i < |ents| ==> ents[i].Live()
  {
    var f := FirstFree(ents, j);
    if f == 0 then |ents| else f
  }

  /** Writes an entry at offset off, slot k, whole or not at all. */
  method WriteEnt(dip: Inode, op: AllocTxn, off: nat, de: DirEnt, ghost k: nat, ghost ents: seq<DirEnt>)
    returns (ok: bool)
    requires DirIs(dip, op, ents) && k <= |ents| && off == DIRENTSZ * k && de.Fits() && (k == |ents| ==> de.Live())
    requires UniqueNames(PutEnt(ents, k, de))
    modifies dip`blks, dip`size, op`view, op`dirty, op`dirtyInodes, op`allocBnums, op`mine, op.balloc
    ensures DirIs(dip, op, if ok then PutEnt(ents, k, de) else ents)
    ensures ok <==> k < |ents| || (off + DIRENTSZ <= MaxFileSize() && op.balloc.refused == old(op.balloc.refused))
  {
    ghost var v0, b0, l0 := op.view, dip.blks, op.Books();
    var ent := Encode(de);
    var n, okay;
    ghost var m, l;
    n, okay, m, l := dip.Write(op, off, DIRENTSZ, ent);
    if 0 < n < DIRENTSZ { NoPartialSlot(k, n); }
    ok := n == DIRENTSZ;
    if ok {
      assert ent[..n] == ent;
      EntsStored(v0, b0, op.view, dip.blks, op.Books().Since(l0), m, l, ents, k, de);
    } else {
      NothingStored(v0, b0, op.view, dip.blks, op.Books().Since(l0), off, ent[..n], m, l);
      EntsFilled(v0, b0, op.view, dip.blks, op.Books().Since(l0), m, l, ents);
    }
  }

  /** Adds an entry in the first empty slot from lastoff on, else at the end. */
  method AddNameDir(dip: Inode, op: AllocTxn, inum: nat, name: Name, lastoff: nat, ghost ents: seq<DirEnt>,
                    ghost j0: nat)
    returns (finalOff: nat, ok: bool)
    requires DirIs(dip, op, ents) && lastoff == DIRENTSZ * j0 && j0 <= |ents|
    requires inum != 0 && DirEnt(inum, name).Fits() && Found(ents, name).0 == 0
    modifies dip`blks, dip`size, op`view, op`dirty, op`dirtyInodes, op`allocBnums, op`mine, op.balloc
    ensures finalOff == DIRENTSZ * Place(ents, j0)
    ensures DirIs(dip, op, if ok then PutEnt(ents, Place(ents, j0), DirEnt(inum, name)) else ents)
    ensures ok <==>
              || Place(ents, j0) < |ents|
              || (finalOff + DIRENTSZ <= MaxFileSize() && op.balloc.refused == old(op.balloc.refused))
  {
    finalOff := FindSlot(dip, op, lastoff, ents, j0);
    if finalOff == 0 {
      finalOff := dip.size;
    }
    AddKeepsCache(ents, Place(ents, j0), DirEnt(inum, name));
    ok := WriteEnt(dip, op, finalOff, DirEnt(inum, name), Place(ents, j0), ents);
  }

  /** The search of AddNameDir: the offset of the first empty slot, or 0. */
  method FindSlot(dip: Inode, op: AllocTxn, lastoff: nat, ghost ents: seq<DirEnt>, ghost j0: nat)
    returns (finalOff: nat)
    requires DirIs(dip, op, ents) && lastoff == DIRENTSZ * j0 && j0 <= |ents|
    modifies dip`blks, op`view, op`dirty, op`dirtyInodes, op`allocBnums, op`mine, op.balloc
    ensures DirIs(dip, op, ents) && op.balloc.refused == old(op.balloc.refused)
    ensures finalOff == if FirstFree(ents, j0) < |ents| then DIRENTSZ * FirstFree(ents, j0) else 0
  {
    finalOff := 0;
    var off := lastoff;
    ghost var j := j0;
    while off < dip.size
      invariant op.balloc.refused == old(op.balloc.refused)
      invariant DirIs(dip, op, ents) && off == DIRENTSZ * j && j <= |ents| && finalOff == 0
      invariant FirstFree(ents, j0) == FirstFree(ents, j)
      decreases |ents| - j
    {
      var de := ReadEnt(dip, op, off, j, ents);
      if de.inum == 0 {
        finalOff := off;
        break;
      }
      off, j := off + DIRENTSZ, j + 1;
    }
  }

  // -------------------------------------------------------------- page by page

  /** The scan of Apply and ApplyEnts from offset begin on, within a budget; the callback is
      the list of reports. */
  method Apply(dip: Inode, op: AllocTxn, begin: nat, lim: Limits, ghost ents: seq<DirEnt>, ghost k0: nat)
    returns (rs: seq<Report>, eof: bool)
    requires DirIs(dip, op, ents) && begin == DIRENTSZ * k0
    modifies dip`blks, op`view, op`dirty, op`dirtyInodes, op`allocBnums, op`mine, op.balloc
    ensures DirIs(dip, op, ents) && op.balloc.refused == old(op.balloc.refused)
    ensures k0 > |ents| ==> eof && rs == []
    ensures k0 <= |ents| ==>
              var s := StopAt(ents, k0, 0, HEADER, lim);
              eof == (s == |ents|) && rs == Reports(ents, k0, if eof then s else s + 1)
  {
    eof, rs := true, [];
    var off: nat, n: nat, dirbytes: nat := begin, HEADER, 0;
    ghost var k := k0;
    while off < dip.size
      invariant op.balloc.refused == old(op.balloc.refused) && DirIs(dip, op, ents) && off == DIRENTSZ * k && eof
      invariant k0 > |ents| ==> k == k0 && rs == []
      invariant k0 <= |ents| ==> k0 <= k <= |ents| && rs == Reports(ents, k0, k)
      invariant k0 <= |ents| ==> StopAt(ents, k0, 0, HEADER, lim) == StopAt(ents, k, dirbytes, n, lim)
      decreases |ents| - k
    {
      var de := ReadEnt(dip, op, off, k, ents);
      if de.inum == 0 {
        off, k := off + DIRENTSZ, k + 1;
        continue;
      }
      rs := rs + [Report(de.name, de.inum, off)];
      off, k := off + DIRENTSZ, k + 1;
      dirbytes := dirbytes + 8 + |de.name|;
      n := n + lim.Baggage() + |de.name|;
      if lim.Spent(dirbytes, n) {
        eof := false;
        break;
      }
    }
  }

  /** One READDIR or READDIRPLUS reply: the page of the cookie. */
  method ReadPage(dip: Inode, op: AllocTxn, start: nat, lim: Limits, ghost ents: seq<DirEnt>, ghost e: nat)
    returns (rs: seq<Report>, eof: bool)
    requires DirIs(dip, op, ents) && start == DIRENTSZ * e
    modifies dip`blks, op`view, op`dirty, op`dirtyInodes, op`allocBnums, op`mine, op.balloc
    ensures DirIs(dip, op, ents) && op.balloc.refused == old(op.balloc.refused)
    ensures var (vs, end) := Page(ents, start, lim);
            eof == end && |rs| == |vs| &&
            forall i :: 0 <= i < |vs| ==>
              && vs[i] < |ents|
              && rs[i] == Report(ents[vs[i]].name, ents[vs[i]].inum, DIRENTSZ * vs[i])
  {
    var begin := start;
    if begin != 0 {
      begin := begin + DIRENTSZ;
    }
    ghost var k := if e == 0 then 0 else e + 1;
    BeginAtSlot(e);
    rs, eof := Apply(dip, op, begin, lim, ents, k);
    if k <= |ents| { ReportsAreLive(ents, k, if eof then |ents| else StopAt(ents, k, 0, HEADER, lim) + 1); }
  }

  method FillCache(dc: Dcache, rs: seq<Report>)
    requires dc.cache == map[]
    modifies dc`cache
    ensures dc.cache == AddAll(rs)
  {
    for i := 0 to |rs|
      invariant dc.cache == AddAll(rs[..i])
    {
      assert rs[..i + 1][..i] == rs[..i];
      dc.Add(rs[i].name, rs[i].inum, rs[i].off);
    }
    assert rs[..|rs|] == rs;
  }

  // ------------------------------------------------------------ with the cache

  /** A directory inode with its name cache, which may not have been built yet. */
  class Directory {
    const dip: Inode
    var dcache: Dcache?

    constructor (dip: Inode)
      ensures this.dip == dip && dcache == null
    {
      this.dip, dcache := dip, null;
    }

    /** The cache that lookups consult: the one there is, or the one mkDcache would build. */
    ghost function Names(ents: seq<DirEnt>): Cache
      reads this, dcache
    {
      if dcache == null then BuiltCache(ents) else dcache.cache
    }

    /** The cache, where there is one, has no wrong entry, and its hint is a slot. */
    ghost predicate CacheOk(ents: seq<DirEnt>)
      reads this, dcache
    {
      dcache != null ==> Sound(dcache.cache, ents) && exists j: nat :: j <= |ents| && dcache.lastoff == DIRENTSZ * j
    }

    /** The slot from which a place for a new name is searched. */
    ghost function Hint(): nat
      reads this, dcache
    {
      if dcache == null then 0 else dcache.lastoff / DIRENTSZ
    }

    ghost predicate DirOk(op: AllocTxn, ents: seq<DirEnt>)
      reads this, dcache, dip, op, op.balloc
    {
      DirIs(dip, op, ents) && CacheOk(ents)
    }

    ghost predicate Untouched(op: AllocTxn, blks: seq<nat>, view: View)
      reads dip, op
    {
      dip.blks == blks && op.view == view
    }

    /** Builds the cache by a scan within Apply's budget. */
    method MkDcache(op: AllocTxn, ghost ents: seq<DirEnt>)
      requires DirIs(dip, op, ents)
      modifies this`dcache, dip`blks, op`view, op`dirty, op`dirtyInodes, op`allocBnums, op`mine, op.balloc
      ensures DirOk(op, ents) && dcache != null && fresh(dcache) && op.balloc.refused == old(op.balloc.refused)
      ensures dcache.cache == BuiltCache(ents) && dcache.lastoff == 0
      ensures dcache.cache == CacheOf(ents) <==> CacheFits(ents)
    {
      var rs, eof := Apply(dip, op, 0, Readdirplus(dip.size, CACHEMAX), ents, 0);
      assert Sound(BuiltCache(ents), ents) && (BuiltCache(ents) == CacheOf(ents) <==> CacheFits(ents)) by {
        EntsFit(dip, op, ents);
        CacheIffFits(ents);
        BuiltSound(ents);
      }
      dcache := new Dcache();
      FillCache(dcache, rs);
      assert DIRENTSZ * 0 == 0;
    }

    /** The fast lookup; it gives what the scan would, if the cache is complete. */
    method LookupName(op: AllocTxn, name: Name, ghost ents: seq<DirEnt>) returns (inum: nat, finalOffset: nat)
      requires dip.kind == NF3DIR ==> DirOk(op, ents)
      modifies this`dcache, dip`blks, op`view, op`dirty, op`dirtyInodes, op`allocBnums, op`mine, op.balloc
      ensures dip.kind == NF3DIR ==>
                DirOk(op, ents) && dcache != null && Names(ents) == old(Names(ents)) && Hint() == old(Hint())
      ensures dip.kind == NF3DIR ==> (inum, finalOffset) == Cached(Names(ents), name)
      ensures dip.kind == NF3DIR && Names(ents) == CacheOf(ents) ==> (inum, finalOffset) == Found(ents, name)
      ensures dip.kind != NF3DIR ==>
                inum == 0 && finalOffset == 0 && Untouched(op, old(dip.blks), old(op.view)) && dcache == old(dcache)
      ensures (dcache == old(dcache) || fresh(dcache)) && op.balloc.refused == old(op.balloc.refused)
    {
      if dip.kind != NF3DIR {
        return 0, 0;
      }
      if dcache == null {
        MkDcache(op, ents);
      }
      var dentry, ok := dcache.Lookup(name);
      inum, finalOffset := 0, 0;
      if ok {
        inum, finalOffset := dentry.inum, dentry.off;
      }
      CacheIsScan(ents, name);
    }

    /** Adds a name that is not there; the cache follows the file. */
    method AddName(op: AllocTxn, inum: nat, name: Name, ghost ents: seq<DirEnt>) returns (ok: bool, ghost k: nat)
      requires dip.kind == NF3DIR ==> DirOk(op, ents) && 0 < inum < U64 && Found(ents, name).0 == 0
      modifies this`dcache, dcache, dip`blks, dip`size, op`view, op`dirty, op`dirtyInodes, op`allocBnums, op`mine
      modifies op.balloc
      ensures k <= |ents| && (k < |ents| ==> !ents[k].Live())
      ensures dip.kind == NF3DIR && |name| < MAXNAMELEN ==>
                old(Hint()) <= |ents| && k == Place(ents, old(Hint())) && Hint() == if ok then k else old(Hint())
      ensures dcache == old(dcache) || fresh(dcache)
      ensures ok <==> (dip.kind == NF3DIR && |name| < MAXNAMELEN &&
                      (|| k < |ents|
                       || (DIRENTSZ * (k + 1) <= MaxFileSize() && op.balloc.refused == old(op.balloc.refused))))
      ensures dip.kind != NF3DIR ==> Untouched(op, old(dip.blks), old(op.view)) && dcache == old(dcache)
      ensures dip.kind == NF3DIR ==> DirOk(op, if ok then PutEnt(ents, k, DirEnt(inum, name)) else ents)
      ensures dip.kind == NF3DIR && !ok ==> Names(ents) == old(Names(ents))
      ensures ok ==> dcache != null && dcache.cache == old(Names(ents))[name := Dentry(inum, DIRENTSZ * k)]
      ensures ok && old(Names(ents)) == CacheOf(ents) ==> dcache.cache == CacheOf(PutEnt(ents, k, DirEnt(inum, name)))
    {
      k := 0;
      if dip.kind != NF3DIR || |name| >= MAXNAMELEN {
        k := |ents|;
        return false, k;
      }
      if dcache == null {
        MkDcache(op, ents);
      }
      ok, k := PutName(op, inum, name, ents);
    }

    /** The part of AddName after the cache is there. */
    method PutName(op: AllocTxn, inum: nat, name: Name, ghost ents: seq<DirEnt>) returns (ok: bool, ghost k: nat)
      requires DirOk(op, ents) && dcache != null && DirEnt(inum, name).Fits() && inum != 0 && Found(ents, name).0 == 0
      modifies dcache, dip`blks, dip`size, op`view, op`dirty, op`dirtyInodes, op`allocBnums, op`mine, op.balloc
      ensures k <= |ents| && (k < |ents| ==> !ents[k].Live())
      ensures old(Hint()) <= |ents| && k == Place(ents, old(Hint())) && Hint() == if ok then k else old(Hint())
      ensures ok <==> k < |ents| || (DIRENTSZ * (k + 1) <= MaxFileSize() && op.balloc.refused == old(op.balloc.refused))
      ensures DirOk(op, if ok then PutEnt(ents, k, DirEnt(inum, name)) else ents)
      ensures dcache.cache == if ok then old(dcache.cache)[name := Dentry(inum, DIRENTSZ * k)] else old(dcache.cache)
      ensures ok && old(dcache.cache) == CacheOf(ents) ==> dcache.cache == CacheOf(PutEnt(ents, k, DirEnt(inum, name)))
    {
      ghost var j: nat :| j <= |ents| && dcache.lastoff == DIRENTSZ * j;
      k := Place(ents, j);
      AddSound(dcache.cache, ents, k, DirEnt(inum, name));
      var off;
      off, ok := AddNameDir(dip, op, inum, name, dcache.lastoff, ents, j);
      if ok {
        dcache.lastoff := off;
        dcache.Add(name, inum, off);
      }
    }

    /** Empties the slot of a name; fails where the cache does not have the name. */
    method RemName(op: AllocTxn, name: Name, ghost ents: seq<DirEnt>) returns (ok: bool)
      requires dip.kind == NF3DIR ==> DirOk(op, ents)
      modifies this`dcache, dcache, dip`blks, dip`size, op`view, op`dirty, op`dirtyInodes, op`allocBnums, op`mine
      modifies op.balloc
      ensures ok <==> dip.kind == NF3DIR && |name| < MAXNAMELEN && name in old(Names(ents))
      ensures ok ==> Scan(ents, name, 0) < |ents| && Hint() == Scan(ents, name, 0)
      ensures dip.kind == NF3DIR && !ok ==> Hint() == old(Hint())
      ensures dip.kind == NF3DIR && old(Names(ents)) == CacheOf(ents) ==>
                (ok <==> |name| < MAXNAMELEN && Found(ents, name).0 != 0)
      ensures dip.kind != NF3DIR ==> Untouched(op, old(dip.blks), old(op.view)) && dcache == old(dcache)
      ensures dip.kind == NF3DIR ==> DirOk(op, if ok then PutEnt(ents, Scan(ents, name, 0), FREE) else ents)
      ensures dip.kind == NF3DIR && !ok ==> Names(ents) == old(Names(ents))
      ensures ok ==> dcache != null && dcache.cache == old(Names(ents)) - {name}
      ensures ok && old(Names(ents)) == CacheOf(ents) ==>
                dcache.cache == CacheOf(PutEnt(ents, Scan(ents, name, 0), FREE))
    {
      EntryLive(ents, name);
      if dip.kind == NF3DIR { NamesSound(op, ents); }
      if dip.kind != NF3DIR || |name| >= MAXNAMELEN {
        return false;
      }
      var inum, off := LookupName(op, name, ents);
      if inum == 0 {
        return false;
      }
      ghost var k := Scan(ents, name, 0);
      RemKeepsCache(ents, k);
      ok := WriteEnt(dip, op, off, FREE, k, ents);
      if ok {
        dcache.lastoff := off;
        var del := dcache.Del(name);
        assert del;
      }
    }

    lemma NamesSound(op: AllocTxn, ents: seq<DirEnt>)
      requires DirOk(op, ents)
      ensures Sound(Names(ents), ents)
    {
      BuiltSound(ents);
    }
  }

  /** One change of a cache without wrong entries follows an addition. */
  lemma AddSound(c: Cache, ents: seq<DirEnt>, k: nat, de: DirEnt)
    requires UniqueNames(ents) && k <= |ents| && (k < |ents| ==> !ents[k].Live()) && de.Live()
    requires Found(ents, de.name).0 == 0
    requires Sound(c, ents)
    ensures var c' := c[de.name := Dentry(de.inum, DIRENTSZ * k)];
            Sound(c', PutEnt(ents, k, de)) && (c == CacheOf(ents) ==> c' == CacheOf(PutEnt(ents, k, de)))
  {
    AddKeepsCache(ents, k, de);
  }

  /** What the cache of a directory has is found by the scan. */
  lemma EntryLive(ents: seq<DirEnt>, name: Name)
    ensures UniqueNames(ents) && name in CacheOf(ents) ==>
            && CacheOf(ents)[name].inum != 0 && Scan(ents, name, 0) < |ents| && ents[Scan(ents, name, 0)].name == name
            && CacheOf(ents)[name].off == DIRENTSZ * Scan(ents, name, 0)
  {
    if UniqueNames(ents) && name in CacheOf(ents) {
      CacheHit(ents, name);
      var i: nat :| i < |ents| && ents[i].Live() && ents[i].name == name;
      CacheAt(ents, i);
      CacheIsScan(ents, name);
    }
  }

  const DOT: Name := [46]
  const DOTDOT: Name := [46, 46]

  /** Adds a name behind entries that are all live. */
  method AddBehind(d: Directory, op: AllocTxn, de: DirEnt, ghost ents: seq<DirEnt>, ghost now: seq<DirEnt>)
    returns (ok: bool)
    requires d.DirOk(op, ents) && d.Names(ents) == CacheOf(ents) && (forall i :: 0 <= i < |ents| ==> ents[i].Live())
    requires de.Live() && de.Fits() && Found(ents, de.name).0 == 0 && now == ents + [de]
    modifies d`dcache, d.dcache, d.dip`blks, d.dip`size, op`view, op`dirty, op`dirtyInodes, op`allocBnums, op`mine
    modifies op.balloc
    ensures d.dcache == old(d.dcache) || fresh(d.dcache)
    ensures ok <==> DIRENTSZ * (|ents| + 1) <= MaxFileSize() && op.balloc.refused == old(op.balloc.refused)
    ensures ok ==> d.DirOk(op, now) && d.Names(now) == CacheOf(now)
  {
    ghost var k;
    ok, k := d.AddName(op, de.inum, de.name, ents);
    assert PutEnt(ents, |ents|, de) == now;
  }

  /** A new directory holds itself and its parent, if there is room for a block. */
  method InitDir(d: Directory, op: AllocTxn, parent: nat) returns (ok: bool)
    requires DirIs(d.dip, op, []) && d.CacheOk([]) && 0 < d.dip.inum < U64 && 0 < parent < U64
    modifies d`dcache, d.dcache, d.dip`blks, d.dip`size, op`view, op`dirty, op`dirtyInodes, op`allocBnums, op`mine
    modifies op.balloc
    ensures ok ==>
              var ents := [DirEnt(d.dip.inum, DOT), DirEnt(parent, DOTDOT)];
              d.DirOk(op, ents) && d.Names(ents) == CacheOf(ents)
    ensures ok <==> 2 * DIRENTSZ <= MaxFileSize() && op.balloc.refused == old(op.balloc.refused)
  {
    var dot, dotdot := DirEnt(d.dip.inum, DOT), DirEnt(parent, DOTDOT);
    FirstTwo(dot, dotdot, d.Names([]));
    ok := AddTwo(d, op, dot, dotdot, [], [dot], [dot, dotdot]);
  }

  method AddTwo(d: Directory, op: AllocTxn, a: DirEnt, b: DirEnt, ghost none: seq<DirEnt>, ghost one: seq<DirEnt>,
                ghost two: seq<DirEnt>)
    returns (ok: bool)
    requires d.DirOk(op, none) && d.Names(none) == CacheOf(none) && TwoNames(a, b, none, one, two)
    modifies d`dcache, d.dcache, d.dip`blks, d.dip`size, op`view, op`dirty, op`dirtyInodes, op`allocBnums, op`mine
    modifies op.balloc
    ensures ok ==> d.DirOk(op, two) && d.Names(two) == CacheOf(two)
    ensures ok <==> DIRENTSZ * |two| <= MaxFileSize() && op.balloc.refused == old(op.balloc.refused)
  {
    ok := AddBehind(d, op, a, none, one);
    if !ok {
      return false;
    }
    ok := AddBehind(d, op, b, one, two);
  }

  /** Two live entries that are added one after the other to an empty directory. */
  ghost predicate TwoNames(a: DirEnt, b: DirEnt, none: seq<DirEnt>, one: seq<DirEnt>, two: seq<DirEnt>) {
    && none == [] && one == none + [a] && two == one + [b] && a.Live() && b.Live() && a.Fits() && b.Fits()
    && Found(none, a.name).0 == 0 && Found(one, b.name).0 == 0
  }

  lemma FirstTwo(dot: DirEnt, dotdot: DirEnt, c: Cache)
    requires dot.Live() && dot.Fits() && dot.name == DOT && dotdot.Live() && dotdot.Fits() && dotdot.name == DOTDOT
    ensures TwoNames(dot, dotdot, [], [dot], [dot, dotdot])
    ensures Sound(c, []) ==> c == CacheOf([])
    ensures BuiltCache([]) == CacheOf([])
  {
    BuiltIs([]);
    assert DOT != DOTDOT && [dot][0] == dot;
  }

  lemma EntsFit(dip: Inode, op: AllocTxn, ents: seq<DirEnt>)
    requires DirIs(dip, op, ents)
    ensures AllFit(ents)
  {
    forall k | 0 <= k < |ents| ensures ents[k].Fits() { EntryFits(op.view, dip.blks, ents, k); }
  }
}
