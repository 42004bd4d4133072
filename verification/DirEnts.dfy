/** Directory entries: their bytes, the scan for a name, and the name cache. */
module DirEnts {
  import opened Bytes

  const DIRENTSZ: nat := 128
  const MAXNAMELEN: nat := 112

  type Name = seq<Byte>

  datatype DirEnt = DirEnt(inum: nat, name: Name)
  {
    predicate Live() { inum != 0 }
    /** An entry that AddName accepts, or an empty slot. */
    predicate Fits() { inum < U64 && |name| < MAXNAMELEN }
  }

  /** A slot as RemName leaves it. */
  const FREE: DirEnt := DirEnt(0, [])

  // ------------------------------------------------------------------ encoding

  function Encode(de: DirEnt): (d: seq<Byte>)
    requires |de.name| <= MAXNAMELEN
    ensures |d| == DIRENTSZ
  {
    PutInt(de.inum) + PutInt(|de.name|) + de.name + Zeros(MAXNAMELEN - |de.name|)
  }

  /** The length field does not reach beyond the entry. */
  predicate WellFormed(d: seq<Byte>) {
    |d| == DIRENTSZ && GetInt(d[8..16]) <= MAXNAMELEN
  }

  function Decode(d: seq<Byte>): DirEnt
    requires WellFormed(d)
  {
    DirEnt(GetInt(d[..8]), d[16..16 + GetInt(d[8..16])])
  }

  lemma DecodeEncode(de: DirEnt)
    requires de.inum < U64 && |de.name| <= MAXNAMELEN
    ensures WellFormed(Encode(de)) && Decode(Encode(de)) == de
  {
    GetPutInt(de.inum);
    GetPutInt(|de.name|);
    EncodedFields(de);
  }

  lemma EncodedFields(de: DirEnt)
    requires |de.name| <= MAXNAMELEN
    ensures Encode(de)[..8] == PutInt(de.inum) && Encode(de)[8..16] == PutInt(|de.name|)
    ensures Encode(de)[16..16 + |de.name|] == de.name
  {}

  // ---------------------------------------------------------------------- scan

  /** The first live entry called name, from index k on; |ents| if there is none. */
  function Scan(ents: seq<DirEnt>, name: Name, k: nat): (r: nat)
    requires k <= |ents|
    ensures k <= r <= |ents|
    ensures r < |ents| ==> ents[r].Live() && ents[r].name == name
    ensures forall i :: k <= i < r ==> !(ents[i].Live() && ents[i].name == name)
    decreases |ents| - k
  {
    if k == |ents| || (ents[k].Live() && ents[k].name == name) then k else Scan(ents, name, k + 1)
  }

  /** What ScanName returns: the inode number and the offset, or twice zero. */
  function Found(ents: seq<DirEnt>, name: Name): (nat, nat) {
    var k := Scan(ents, name, 0);
    if k < |ents| then (ents[k].inum, DIRENTSZ * k) else (0, 0)
  }

  /** The first empty slot from index k on; |ents| if there is none. */
  function FirstFree(ents: seq<DirEnt>, k: nat): (r: nat)
    requires k <= |ents|
    ensures k <= r <= |ents| && (r < |ents| ==> !ents[r].Live())
    ensures forall i :: k <= i < r ==> ents[i].Live()
    decreases |ents| - k
  {
    if k == |ents| || !ents[k].Live() then k else FirstFree(ents, k + 1)
  }

  /** The directory with slot k overwritten, or with one more slot. */
  function PutEnt(ents: seq<DirEnt>, k: nat, de: DirEnt): seq<DirEnt>
    requires k <= |ents|
  {
    if k < |ents| then ents[k := de] else ents + [de]
  }

  /** The name in slot i; only names that a proof mentions so are compared. */
  ghost function NameAt(ents: seq<DirEnt>, i: nat): Name
    requires i < |ents|
  {
    ents[i].name
  }

  ghost predicate UniqueNames(ents: seq<DirEnt>) {
    forall i: nat, j: nat {:trigger NameAt(ents, i), NameAt(ents, j)} ::
      i < j < |ents| && ents[i].Live() && ents[j].Live() ==> NameAt(ents, i) != NameAt(ents, j)
  }

  lemma NamesDiffer(ents: seq<DirEnt>, i: nat, j: nat)
    requires UniqueNames(ents) && i < |ents| && j < |ents| && i != j && ents[i].Live() && ents[j].Live()
    ensures ents[i].name != ents[j].name
  {
    assert NameAt(ents, i) != NameAt(ents, j);
  }

  // --------------------------------------------------------------------- cache

  datatype Dentry = Dentry(inum: nat, off: nat)

  type Cache = map<Name, Dentry>

  /** The cache after a scan of the whole directory. */
  function CacheOf(ents: seq<DirEnt>): Cache {
    if ents == [] then map[]
    else
      var n := |ents| - 1;
      var c := CacheOf(ents[..n]);
      if ents[n].Live() then c[ents[n].name := Dentry(ents[n].inum, DIRENTSZ * n)] else c
  }

  /** What LookupName returns from the cache. */
  function Cached(c: Cache, name: Name): (nat, nat) {
    if name in c then (c[name].inum, c[name].off) else (0, 0)
  }

  /** Every name in the cache is that of a live entry, and the cache has it with its place. */
  lemma {:induction false} CacheHit(ents: seq<DirEnt>, name: Name)
    requires name in CacheOf(ents)
    ensures exists i :: 0 <= i < |ents| && ents[i].Live() && ents[i].name == name &&
              CacheOf(ents)[name] == Dentry(ents[i].inum, DIRENTSZ * i)
    decreases |ents|
  {
    var n := |ents| - 1;
    if ents[n].Live() && ents[n].name == name {
    } else {
      CacheHit(ents[..n], name);
      var i :| 0 <= i < n && ents[..n][i].Live() && ents[..n][i].name == name &&
          CacheOf(ents[..n])[name] == Dentry(ents[..n][i].inum, DIRENTSZ * i);
      assert ents[i] == ents[..n][i];
    }
  }

  lemma {:induction false} CacheHas(ents: seq<DirEnt>, i: nat)
    requires i < |ents| && ents[i].Live()
    ensures ents[i].name in CacheOf(ents)
    decreases |ents|
  {
    var n := |ents| - 1;
    if i < n {
      assert ents[..n][i] == ents[i];
      CacheHas(ents[..n], i);
    }
  }

  /** Where names are unique, the cache has each live entry at its place. */
  lemma CacheAt(ents: seq<DirEnt>, i: nat)
    requires UniqueNames(ents) && i < |ents| && ents[i].Live()
    ensures ents[i].name in CacheOf(ents) && CacheOf(ents)[ents[i].name] == Dentry(ents[i].inum, DIRENTSZ * i)
  {
    CacheHas(ents, i);
    CacheHit(ents, ents[i].name);
    var j :| 0 <= j < |ents| && ents[j].Live() && ents[j].name == ents[i].name &&
        CacheOf(ents)[ents[i].name] == Dentry(ents[j].inum, DIRENTSZ * j);
    if j != i { NamesDiffer(ents, i, j); }
  }

  /** The name cache refines the scan: both give the same answer for every name. */
  lemma CacheIsScan(ents: seq<DirEnt>, name: Name)
    requires UniqueNames(ents)
    ensures Cached(CacheOf(ents), name) == Found(ents, name)
  {
    var k := Scan(ents, name, 0);
    if k < |ents| {
      CacheAt(ents, k);
    } else if name in CacheOf(ents) {
      CacheHit(ents, name);
    }
  }

  /** A cache that has exactly the live entries is the cache of the directory. */
  lemma CacheExtensional(ents: seq<DirEnt>, c: Cache)
    requires UniqueNames(ents)
    requires forall i: nat :: i < |ents| && ents[i].Live() ==>
              ents[i].name in c && c[ents[i].name] == Dentry(ents[i].inum, DIRENTSZ * i)
    requires forall name :: name in c ==> exists i: nat :: i < |ents| && ents[i].Live() && ents[i].name == name
    ensures CacheOf(ents) == c
  {
    forall name ensures name in CacheOf(ents) <==> name in c {
      if name in c {
        var i: nat :| i < |ents| && ents[i].Live() && ents[i].name == name;
        CacheAt(ents, i);
      }
      if name in CacheOf(ents) {
        CacheHit(ents, name);
      }
    }
    forall name | name in c ensures CacheOf(ents)[name] == c[name] {
      var i: nat :| i < |ents| && ents[i].Live() && ents[i].name == name;
      CacheAt(ents, i);
    }
  }

  /** Adding an absent name in an empty or new slot keeps names unique and needs just one
      more entry in the cache. */
  lemma AddKeepsCache(ents: seq<DirEnt>, k: nat, de: DirEnt)
    requires UniqueNames(ents) && k <= |ents| && (k < |ents| ==> !ents[k].Live()) && de.Live()
    requires Found(ents, de.name).0 == 0
    ensures UniqueNames(PutEnt(ents, k, de))
    ensures CacheOf(PutEnt(ents, k, de)) == CacheOf(ents)[de.name := Dentry(de.inum, DIRENTSZ * k)]
  {
    var new_ := PutEnt(ents, k, de);
    var c := CacheOf(ents)[de.name := Dentry(de.inum, DIRENTSZ * k)];
    assert Scan(ents, de.name, 0) == |ents|;
    forall i: nat, j: nat | i < j < |new_| && new_[i].Live() && new_[j].Live()
      ensures NameAt(new_, i) != NameAt(new_, j)
    {
      if i != k && j != k { NamesDiffer(ents, i, j); }
    }
    forall i: nat | i < |new_| && new_[i].Live()
      ensures new_[i].name in c && c[new_[i].name] == Dentry(new_[i].inum, DIRENTSZ * i)
    {
      if i != k { assert new_[i] == ents[i]; CacheAt(ents, i); }
    }
    forall name | name in c ensures exists i: nat :: i < |new_| && new_[i].Live() && new_[i].name == name {
      if name == de.name {
        assert new_[k] == de;
      } else {
        CacheHit(ents, name);
        var i: nat :| i < |ents| && ents[i].Live() && ents[i].name == name;
        assert new_[i] == ents[i];
      }
    }
    CacheExtensional(new_, c);
  }

  /** Afterwards the name is found in its slot, and every other name as before. */
  lemma AddThenFound(ents: seq<DirEnt>, k: nat, de: DirEnt, name: Name)
    requires UniqueNames(ents) && k <= |ents| && (k < |ents| ==> !ents[k].Live()) && de.Live()
    requires Found(ents, de.name).0 == 0
    ensures Found(PutEnt(ents, k, de), name) == if name == de.name then (de.inum, DIRENTSZ * k) else Found(ents, name)
  {
    AddKeepsCache(ents, k, de);
    CacheIsScan(PutEnt(ents, k, de), name);
    CacheIsScan(ents, name);
  }

  /** Emptying the slot of a name removes that name and no other. */
  lemma RemKeepsCache(ents: seq<DirEnt>, k: nat)
    requires UniqueNames(ents) && k < |ents| && ents[k].Live()
    ensures UniqueNames(PutEnt(ents, k, FREE))
    ensures CacheOf(PutEnt(ents, k, FREE)) == CacheOf(ents) - {ents[k].name}
  {
    var new_ := PutEnt(ents, k, FREE);
    var c := CacheOf(ents) - {ents[k].name};
    forall i: nat, j: nat | i < j < |new_| && new_[i].Live() && new_[j].Live()
      ensures NameAt(new_, i) != NameAt(new_, j)
    {
      NamesDiffer(ents, i, j);
    }
    forall i: nat | i < |new_| && new_[i].Live()
      ensures new_[i].name in c && c[new_[i].name] == Dentry(new_[i].inum, DIRENTSZ * i)
    {
      assert new_[i] == ents[i];
      CacheAt(ents, i);
      NamesDiffer(ents, i, k);
    }
    forall name | name in c ensures exists i: nat :: i < |new_| && new_[i].Live() && new_[i].name == name {
      CacheHit(ents, name);
      var i: nat :| i < |ents| && ents[i].Live() && ents[i].name == name;
      assert new_[i] == ents[i];
    }
    CacheExtensional(new_, c);
  }

  /** Afterwards the name is gone, and every other name is found as before. */
  lemma RemThenFound(ents: seq<DirEnt>, k: nat, name: Name)
    requires UniqueNames(ents) && k < |ents| && ents[k].Live()
    ensures Found(PutEnt(ents, k, FREE), name) == if name == ents[k].name then (0, 0) else Found(ents, name)
  {
    RemKeepsCache(ents, k);
    CacheIsScan(PutEnt(ents, k, FREE), name);
    CacheIsScan(ents, name);
  }

  // ---------------------------------------------------------------------- runs

  /** A change of the directory: an entry put into slot k, or the one in slot k removed. */
  datatype Change = AddEnt(k: nat, de: DirEnt) | RemEnt(k: nat)

  ghost predicate Allowed(ents: seq<DirEnt>, c: Change) {
    match c
    case AddEnt(k, de) => k <= |ents| && (k < |ents| ==> !ents[k].Live()) && de.Live() && Found(ents, de.name).0 == 0
    case RemEnt(k) => k < |ents| && ents[k].Live()
  }

  ghost function After(ents: seq<DirEnt>, c: Change): seq<DirEnt>
    requires Allowed(ents, c)
  {
    match c
    case AddEnt(k, de) => PutEnt(ents, k, de)
    case RemEnt(k) => PutEnt(ents, k, FREE)
  }

  /** What AddName and RemName do to the cache. */
  ghost function CacheAfter(cache: Cache, ents: seq<DirEnt>, c: Change): Cache
    requires Allowed(ents, c)
  {
    match c
    case AddEnt(k, de) => cache[de.name := Dentry(de.inum, DIRENTSZ * k)]
    case RemEnt(k) => cache - {ents[k].name}
  }

  ghost predicate Run(dirs: seq<seq<DirEnt>>, caches: seq<Cache>, changes: seq<Change>) {
    && |dirs| == |caches| == |changes| + 1
    && forall i :: 0 <= i < |changes| ==>
         && Allowed(dirs[i], changes[i]) && dirs[i + 1] == After(dirs[i], changes[i])
         && caches[i + 1] == CacheAfter(caches[i], dirs[i], changes[i])
  }

  /** After any sequence of changes names are unique, and the cache that was only updated
      answers every lookup like a scan of the directory. */
  lemma {:induction false} RunKeepsCache(dirs: seq<seq<DirEnt>>, caches: seq<Cache>, changes: seq<Change>, n: nat,
                                         name: Name)
    requires Run(dirs, caches, changes) && n < |dirs| && UniqueNames(dirs[0]) && caches[0] == CacheOf(dirs[0])
    ensures UniqueNames(dirs[n]) && caches[n] == CacheOf(dirs[n])
    ensures Cached(caches[n], name) == Found(dirs[n], name)
    decreases n
  {
    if n > 0 {
      RunKeepsCache(dirs, caches, changes, n - 1, name);
      assert Allowed(dirs[n - 1], changes[n - 1]) && dirs[n - 1 + 1] == After(dirs[n - 1], changes[n - 1]);
      match changes[n - 1]
      case AddEnt(k, de) => AddKeepsCache(dirs[n - 1], k, de);
      case RemEnt(k) => RemKeepsCache(dirs[n - 1], k);
    }
    CacheIsScan(dirs[n], name);
  }
}
