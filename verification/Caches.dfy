/** The inode cache: a map from identifiers to entries and a list of the entries, the
    least recently used first. */
module Caches {
  import opened Basics
  import opened Lru

  /** What a lookup returns; the caller keeps the object it caches here. */
  class Cslot {
    var obj: object?

    constructor ()
      ensures obj == null
    {
      obj := null;
    }
  }

  class Entry {
    const slot: Cslot
    const id: nat

    constructor (id: nat)
      ensures this.id == id && fresh(slot) && slot.obj == null
    {
      this.id := id;
      slot := new Cslot();
    }
  }

  function IdsOf(l: seq<Entry>): (r: seq<nat>)
    ensures |r| == |l|
  {
    seq(|l|, i requires 0 <= i < |l| => l[i].id)
  }

  /** The list has the entries of the map. */
  ghost predicate Matches(entries: map<nat, Entry>, lru: seq<Entry>) {
    && (forall e :: e in lru ==> e.id in entries && entries[e.id] == e)
    && (forall i :: i in entries ==> entries[i].id == i && entries[i] in lru)
  }

  class Cache {
    const sz: nat
    var entries: map<nat, Entry>
    var lru: seq<Entry>
    var cnt: nat
    /** The identifiers looked up so far. */
    ghost var history: seq<nat>

    constructor (sz: nat)
      requires sz >= 1
      ensures Valid() && this.sz == sz && history == []
    {
      this.sz, entries, lru, cnt, history := sz, map[], [], 0, [];
    }

    /** The list and the map have the same entries, those most recently used. */
    ghost predicate Valid()
      reads this
    {
      sz >= 1 && cnt == |lru| == |entries| && IdsOf(lru) == Recent(history, sz) && Matches(entries, lru)
    }

    /** Drops the entry at the front of the list. */
    method Evict()
      requires lru != [] && cnt > 0 && Matches(entries, lru) && forall e :: e in lru[1..] ==> e.id != lru[0].id
      modifies this`entries, this`lru, this`cnt
      ensures Matches(entries, lru) && |entries| == old(|entries|) - 1 && cnt == old(cnt) - 1
      ensures lru == old(lru[1..]) && IdsOf(lru) == old(IdsOf(lru))[1..] && entries == old(entries) - {old(lru[0].id)}
    {
      var e := lru[0];
      lru := lru[1..];
      entries := entries - {e.id};
      cnt := cnt - 1;
    }

    /** Takes e out of the list and puts it at the back. */
    method Touch(e: Entry)
      requires Valid() && e in lru
      modifies this`lru
      ensures IdsOf(lru) == MoveLast(old(IdsOf(lru)), e.id) && |lru| == old(|lru|)
      ensures forall x :: x in lru <==> x in old(lru)
    {
      ghost var ids := IdsOf(lru);
      var p :| 0 <= p < |lru| && lru[p] == e;
      RecentCount(history, sz);
      WithoutAt(ids, p);
      ghost var before := lru;
      lru := lru[..p] + lru[p + 1..] + [e];
      assert IdsOf(lru) == ids[..p] + ids[p + 1..] + [e.id];
      assert before == before[..p] + [e] + before[p + 1..];
    }

    /** A hit returns the slot that is there, a miss a new one, after dropping the least
        recently used entry if there is no room. */
    method LookupSlot(id: nat) returns (slot: Cslot)
      requires Valid()
      modifies this
      ensures Valid() && history == old(history) + [id]
      ensures id in entries && slot == entries[id].slot
      ensures id in old(entries) ==> entries == old(entries)
      ensures id !in old(entries) ==> fresh(slot) && slot.obj == null
      ensures id !in old(entries) ==>
                forall i :: i in entries && i != id ==> i in old(entries) && entries[i] == old(entries[i])
    {
      RecentStep(history, id, sz);
      IdIn(entries, lru, id);
      if id in entries {
        var e := entries[id];
        Touch(e);
        history := history + [id];
        return e.slot;
      }
      if cnt >= sz {
        FirstAlone(lru, history, sz);
        Evict();
      }
      slot := Insert(id);
      history := history + [id];
    }

    /** Puts a new entry at the back of the list. */
    method Insert(id: nat) returns (slot: Cslot)
      requires Matches(entries, lru) && id !in entries
      modifies this`entries, this`lru, this`cnt
      ensures Matches(entries, lru) && |entries| == old(|entries|) + 1 && cnt == old(cnt) + 1
      ensures IdsOf(lru) == old(IdsOf(lru)) + [id]
      ensures id in entries && slot == entries[id].slot && entries == old(entries)[id := entries[id]]
      ensures fresh(slot) && slot.obj == null
    {
      var enew := new Entry(id);
      entries := entries[id := enew];
      lru := lru + [enew];
      cnt := cnt + 1;
      slot := enew.slot;
    }

    /** The cache holds exactly the identifiers with fewer than sz others looked up since,
        and as many as fit. */
    lemma Holds(id: nat)
      requires Valid()
      ensures id in entries <==> id in history && |ToSet(history[LastUse(history, id) + 1..])| < sz
      ensures cnt == |entries| == |lru| == Min(sz, |ToSet(history)|)
    {
      IdIn(entries, lru, id);
      RecentIff(history, id, sz);
      RecentCount(history, sz);
    }

    /** The list is ordered by last use. */
    lemma InOrder(p: nat, q: nat)
      requires Valid() && p < q < |lru|
      ensures lru[p].id in history && lru[q].id in history && LastUse(history, lru[p].id) < LastUse(history, lru[q].id)
    {
      assert lru[p].id == IdsOf(lru)[p] && lru[q].id == IdsOf(lru)[q];
      RecentOrdered(history, sz, p, q);
    }
  }

  lemma IdIn(entries: map<nat, Entry>, l: seq<Entry>, id: nat)
    requires Matches(entries, l)
    ensures id in IdsOf(l) <==> id in entries
  {
    if id in entries {
      var p :| 0 <= p < |l| && l[p] == entries[id];
      assert IdsOf(l)[p] == id;
    }
    if id in IdsOf(l) {
      var p :| 0 <= p < |l| && IdsOf(l)[p] == id;
      assert l[p] in l;
    }
  }

  /** The identifier at the front is nowhere else in the list. */
  lemma FirstAlone(l: seq<Entry>, h: seq<nat>, sz: nat)
    requires l != [] && IdsOf(l) == Recent(h, sz)
    ensures forall e :: e in l[1..] ==> e.id != l[0].id
  {
    RecentCount(h, sz);
    forall e | e in l[1..] ensures e.id != l[0].id {
      var p :| 1 <= p < |l| && l[p] == e;
      assert IdsOf(l)[0] != IdsOf(l)[p];
    }
  }
}
