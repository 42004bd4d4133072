/** The record of an inode on disk: 128 bytes, all of them used. */
module Records {
  import opened Bytes
  import opened Slots
  import opened AllocTxns

  /** Every field fits the integer it is stored in. */
  predicate Fits(d: DInode, times: seq<Byte>) {
    && d.kind < Pow256(4) && d.nlink < Pow256(4) && d.gen < U64 && d.size < U64 && d.shrinkSize < U64
    && |times| == 16 && |d.blks| == NBLKINO && forall k :: 0 <= k < |d.blks| ==> d.blks[k] < U64
  }

  function PutInts(xs: seq<nat>): (r: seq<Byte>)
    ensures |r| == 8 * |xs|
  {
    if xs == [] then [] else PutInt(xs[0]) + PutInts(xs[1..])
  }

  function GetInts(b: seq<Byte>, n: nat): (xs: seq<nat>)
    requires |b| == 8 * n
    ensures |xs| == n
    decreases |b|
  {
    if n == 0 then [] else [GetInt(b[..8])] + GetInts(b[8..], n - 1)
  }

  lemma {:induction false} GetPutInts(xs: seq<nat>)
    requires forall k :: 0 <= k < |xs| ==> xs[k] < U64
    ensures GetInts(PutInts(xs), |xs|) == xs
  {
    if xs != [] {
      GetPutInt(xs[0]);
      GetPutInts(xs[1..]);
      assert PutInts(xs)[..8] == PutInt(xs[0]) && PutInts(xs)[8..] == PutInts(xs[1..]);
    }
  }

  lemma {:induction false} PutGetInts(b: seq<Byte>, n: nat)
    requires |b| == 8 * n
    ensures PutInts(GetInts(b, n)) == b && forall k :: 0 <= k < n ==> GetInts(b, n)[k] < U64
    decreases n
  {
    if n > 0 {
      PutGetInt(b[..8]);
      PutGetInts(b[8..], n - 1);
      assert GetInts(b, n)[1..] == GetInts(b[8..], n - 1);
      assert b == b[..8] + b[8..];
    }
  }

  /** The fields before the times. */
  function Head(d: DInode): (r: seq<Byte>)
    ensures |r| == 32
  {
    PutLE(d.kind, 4) + PutLE(d.nlink, 4) + PutInt(d.gen) + PutInt(d.size) + PutInt(d.shrinkSize)
  }

  function Encode(d: DInode, times: seq<Byte>): (r: seq<Byte>)
    ensures |r| == 32 + |times| + 8 * |d.blks|
  {
    Head(d) + times + PutInts(d.blks)
  }

  function Decode(r: seq<Byte>): (DInode, seq<Byte>)
    requires |r| == INODESZ
  {
    (DInode(GetLE(r[..4]), GetLE(r[4..8]), GetInt(r[8..16]), GetInt(r[16..24]), GetInt(r[24..32]),
            GetInts(r[48..], NBLKINO)),
     r[32..48])
  }

  lemma HeadFields(d: DInode)
    ensures Head(d)[..4] == PutLE(d.kind, 4) && Head(d)[4..8] == PutLE(d.nlink, 4)
    ensures Head(d)[8..16] == PutInt(d.gen) && Head(d)[16..24] == PutInt(d.size)
    ensures Head(d)[24..32] == PutInt(d.shrinkSize)
  {}

  lemma EncodeFields(d: DInode, times: seq<Byte>)
    requires |times| == 16
    ensures Encode(d, times)[..32] == Head(d) && Encode(d, times)[32..48] == times
    ensures Encode(d, times)[48..] == PutInts(d.blks)
  {}

  lemma SubSlices(r: seq<Byte>)
    requires |r| >= 32
    ensures r[..32][..4] == r[..4] && r[..32][4..8] == r[4..8] && r[..32][8..16] == r[8..16]
    ensures r[..32][16..24] == r[16..24] && r[..32][24..32] == r[24..32]
  {}

  /** A record is read as it was written. */
  lemma DecodeEncode(d: DInode, times: seq<Byte>)
    requires Fits(d, times)
    ensures |Encode(d, times)| == INODESZ && Decode(Encode(d, times)) == (d, times)
  {
    var r := Encode(d, times);
    EncodeFields(d, times);
    SubSlices(r);
    HeadFields(d);
    GetPutLE(d.kind, 4);
    GetPutLE(d.nlink, 4);
    GetPutInt(d.gen);
    GetPutInt(d.size);
    GetPutInt(d.shrinkSize);
    GetPutInts(d.blks);
  }

  lemma HeadDecoded(r: seq<Byte>)
    requires |r| == INODESZ
    ensures var d := Decode(r).0; Head(d) == r[..32] && d.kind < Pow256(4) && d.nlink < Pow256(4)
    ensures var d := Decode(r).0; d.gen < U64 && d.size < U64 && d.shrinkSize < U64
  {
    PutGetLE(r[..4]);
    PutGetLE(r[4..8]);
    PutGetInt(r[8..16]);
    PutGetInt(r[16..24]);
    PutGetInt(r[24..32]);
    HeadBack(r);
  }

  /** Every 128 bytes are the record of one inode only. */
  lemma EncodeDecode(r: seq<Byte>)
    requires |r| == INODESZ
    ensures var (d, times) := Decode(r); Fits(d, times) && Encode(d, times) == r
  {
    HeadDecoded(r);
    PutGetInts(r[48..], NBLKINO);
    assert r == r[..32] + r[32..48] + r[48..];
  }

  lemma HeadBack(r: seq<Byte>)
    requires |r| == INODESZ
    ensures r[..32] == r[..4] + r[4..8] + r[8..16] + r[16..24] + r[24..32]
  {}
}
