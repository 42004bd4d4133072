/** A directory as a file: fixed-size slots in the bytes of an inode. */
module DirFiles {
  import opened Arith
  import opened Bytes
  import opened Tree
  import opened Slots
  import opened Files
  import opened DirEnts

  /** The bytes of the slot at offset off. */
  function Chunk(v: View, blks: seq<nat>, off: nat): (d: seq<Byte>)
    requires |blks| == NBLKINO && off + DIRENTSZ <= MaxFileSize()
    ensures |d| == DIRENTSZ
  {
    seq<Byte>(DIRENTSZ, i requires 0 <= i < DIRENTSZ => FileByte(v, blks, off + i))
  }

  /** Slot k holds entry de. */
  ghost predicate IsEnt(v: View, blks: seq<nat>, k: nat, de: DirEnt)
    requires |blks| == NBLKINO && DIRENTSZ * (k + 1) <= MaxFileSize()
  {
    WellFormed(Chunk(v, blks, DIRENTSZ * k)) && Decode(Chunk(v, blks, DIRENTSZ * k)) == de && de.Fits()
  }

  /** Entry k; only entries that a proof mentions so are looked up in the bytes. */
  ghost function Entry(ents: seq<DirEnt>, k: nat): DirEnt
    requires k < |ents|
  {
    ents[k]
  }

  /** The file has exactly these entries in its slots, and no holes. */
  ghost predicate DirHas(v: View, blks: seq<nat>, ents: seq<DirEnt>) {
    && |blks| == NBLKINO && DIRENTSZ * |ents| <= MaxFileSize()
    && (forall x: nat {:trigger Hole(v, blks, x)} :: x < DIRENTSZ * |ents| ==> !Hole(v, blks, x))
    && (forall k: nat {:trigger Entry(ents, k)} :: k < |ents| ==> IsEnt(v, blks, k, Entry(ents, k)))
  }

  // ------------------------------------------------------------------ alignment

  lemma {:induction false} RemOfMultiple(n: nat, m: nat)
    requires m > 0
    ensures Rem(DIRENTSZ * n, DIRENTSZ * m) == DIRENTSZ * Rem(n, m)
    decreases n
  {
    if n >= m {
      RemOfMultiple(n - m, m);
      assert DIRENTSZ * n - DIRENTSZ * m == DIRENTSZ * (n - m);
    }
  }

  /** A slot lies in one block. */
  lemma SlotInBlock(k: nat)
    ensures ByteNo(DIRENTSZ * k) + DIRENTSZ <= BLOCKSIZE
  {
    RemOfMultiple(k, NENTBLK);
  }

  lemma SameBlock(k: nat, i: nat)
    requires i < DIRENTSZ
    ensures BlockNo(DIRENTSZ * k + i) == BlockNo(DIRENTSZ * k) && ByteNo(DIRENTSZ * k + i) == ByteNo(DIRENTSZ * k) + i
  {
    SlotInBlock(k);
    RangeInBlock(DIRENTSZ * k + i, DIRENTSZ * k, DIRENTSZ);
  }

  /** A slot is read and written whole or not at all. */
  lemma NoPartialSlot(k: nat, cnt: nat)
    requires 0 < cnt < DIRENTSZ
    ensures ByteNo(DIRENTSZ * k + cnt) != 0
  {
    SameBlock(k, cnt);
  }

  // -------------------------------------------------------------------- changes

  lemma SameChunk(v: View, blks: seq<nat>, w: View, blks': seq<nat>, k: nat)
    requires |blks| == |blks'| == NBLKINO && SameBytes(v, blks, w, blks') && DIRENTSZ * (k + 1) <= MaxFileSize()
    ensures Chunk(w, blks', DIRENTSZ * k) == Chunk(v, blks, DIRENTSZ * k)
  {}

  /** Reading changes no entry. */
  lemma EntsFilled(v: View, blks: seq<nat>, w: View, blks': seq<nat>, news: set<nat>, m: nat, k: nat, ents: seq<DirEnt>)
    requires DirHas(v, blks, ents) && Filled(v, blks, w, blks', news, m, k) && 0 !in news
    ensures DirHas(w, blks', ents)
  {
    forall x: nat | x < DIRENTSZ * |ents| ensures !Hole(w, blks', x) {
      HoleBefore(v, blks, w, blks', news, m, k, x);
    }
    forall j: nat | j < |ents| ensures IsEnt(w, blks', j, Entry(ents, j)) {
      SameChunk(v, blks, w, blks', j);
    }
  }

  /** What Read returns for a slot is its entry. */
  lemma ReadIsEnt(v: View, blks: seq<nat>, ents: seq<DirEnt>, k: nat, data: seq<Byte>)
    requires DirHas(v, blks, ents) && k < |ents| && |data| == DIRENTSZ && Holds(v, blks, DIRENTSZ * k, data)
    ensures WellFormed(data) && Decode(data) == ents[k]
  {
    assert Entry(ents, k) == ents[k];
    assert data == Chunk(v, blks, DIRENTSZ * k);
  }

  lemma EntryFits(v: View, blks: seq<nat>, ents: seq<DirEnt>, k: nat)
    requires DirHas(v, blks, ents) && k < |ents|
    ensures ents[k].Fits()
  {
    assert Entry(ents, k) == ents[k];
  }

  lemma HoleIsZero(v: View, blks: seq<nat>, x: nat)
    requires |blks| == NBLKINO && x < MaxFileSize()
    ensures Hole(v, blks, x) ==> FileByte(v, blks, x) == 0
  {
    InRange(x);
  }

  /** A live entry has a byte that is not zero. */
  lemma LiveByte(de: DirEnt) returns (j: nat)
    requires de.Live() && de.Fits()
    ensures j < 8 && Encode(de)[j] != 0
  {
    var d := Encode(de)[..8];
    DecodeEncode(de);
    if forall i :: 0 <= i < |d| ==> d[i] == 0 { GetZeros(d); }
    j :| 0 <= j < |d| && d[j] != 0;
  }

  lemma HoleInBlock(v: View, blks: seq<nat>, x: nat, y: nat)
    requires |blks| == NBLKINO && x < MaxFileSize() && y < MaxFileSize() && BlockNo(x) == BlockNo(y)
    ensures Hole(v, blks, x) <==> Hole(v, blks, y)
  {}

  /** A slot with a live entry is not in a hole. */
  lemma LiveNotHole(v: View, blks: seq<nat>, k: nat, de: DirEnt, i: nat)
    requires |blks| == NBLKINO && DIRENTSZ * (k + 1) <= MaxFileSize() && de.Live() && de.Fits() && i < DIRENTSZ
    requires Chunk(v, blks, DIRENTSZ * k) == Encode(de)
    ensures !Hole(v, blks, DIRENTSZ * k + i)
  {
    var j := LiveByte(de);
    assert Chunk(v, blks, DIRENTSZ * k)[j] == FileByte(v, blks, DIRENTSZ * k + j);
    HoleIsZero(v, blks, DIRENTSZ * k + j);
    SameBlock(k, i);
    SameBlock(k, j);
    HoleInBlock(v, blks, DIRENTSZ * k + i, DIRENTSZ * k + j);
  }

  lemma StoredChunks(v: View, blks: seq<nat>, w: View, blks': seq<nat>, j: nat, data: seq<Byte>, k: nat)
    requires |blks| == |blks'| == NBLKINO && |data| == DIRENTSZ && DIRENTSZ * (j + 1) <= MaxFileSize()
    requires DIRENTSZ * (k + 1) <= MaxFileSize()
    requires Wrote(v, blks, w, blks', DIRENTSZ * j, data)
    ensures Chunk(w, blks', DIRENTSZ * k) == if k == j then data else Chunk(v, blks, DIRENTSZ * k)
  {
    forall i | 0 <= i < DIRENTSZ
      ensures Chunk(w, blks', DIRENTSZ * k)[i] == if k == j then data[i] else Chunk(v, blks, DIRENTSZ * k)[i]
    {
      assert DIRENTSZ * k + i < MaxFileSize();
    }
  }

  lemma StoredEnt(v: View, blks: seq<nat>, w: View, blks': seq<nat>, ents: seq<DirEnt>, j: nat, de: DirEnt, l: nat)
    requires DirHas(v, blks, ents) && j <= |ents| && DIRENTSZ * (j + 1) <= MaxFileSize() && de.Fits()
    requires |blks'| == NBLKINO
    requires Wrote(v, blks, w, blks', DIRENTSZ * j, Encode(de)) && l < |PutEnt(ents, j, de)|
    ensures IsEnt(w, blks', l, PutEnt(ents, j, de)[l])
  {
    DecodeEncode(de);
    StoredChunks(v, blks, w, blks', j, Encode(de), l);
    if l != j { assert Entry(ents, l) == PutEnt(ents, j, de)[l]; }
  }

  lemma StoredNoHole(v: View, blks: seq<nat>, w: View, blks': seq<nat>, news: set<nat>, m: nat, k: nat,
                     ents: seq<DirEnt>, j: nat, de: DirEnt, x: nat)
    requires DirHas(v, blks, ents) && j <= |ents| && DIRENTSZ * (j + 1) <= MaxFileSize() && de.Fits()
    requires (j == |ents| ==> de.Live()) && 0 !in news
    requires Stored(v, blks, w, blks', news, DIRENTSZ * j, Encode(de), m, k)
    requires x < DIRENTSZ * |PutEnt(ents, j, de)|
    ensures x < MaxFileSize() && !Hole(w, blks', x)
  {
    if x < DIRENTSZ * |ents| {
      HoleBefore(v, blks, w, blks', news, m, k, x);
    } else {
      StoredChunks(v, blks, w, blks', j, Encode(de), j);
      LiveNotHole(w, blks', j, de, x - DIRENTSZ * |ents|);
    }
  }

  /** Writing a slot changes that entry and no other. */
  lemma EntsStored(v: View, blks: seq<nat>, w: View, blks': seq<nat>, news: set<nat>, m: nat, k: nat,
                   ents: seq<DirEnt>, j: nat, de: DirEnt)
    requires DirHas(v, blks, ents) && j <= |ents| && DIRENTSZ * (j + 1) <= MaxFileSize() && de.Fits()
    requires (j == |ents| ==> de.Live()) && 0 !in news
    requires Stored(v, blks, w, blks', news, DIRENTSZ * j, Encode(de), m, k)
    ensures DirHas(w, blks', PutEnt(ents, j, de))
  {
    var now := PutEnt(ents, j, de);
    forall l: nat | l < |now| ensures IsEnt(w, blks', l, Entry(now, l)) {
      StoredEnt(v, blks, w, blks', ents, j, de, l);
    }
    forall x: nat | x < DIRENTSZ * |now| ensures x < MaxFileSize() && !Hole(w, blks', x) {
      StoredNoHole(v, blks, w, blks', news, m, k, ents, j, de, x);
    }
  }
}
