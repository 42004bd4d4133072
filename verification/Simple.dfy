/** SimpleNFS: one block of inodes, one data block for each, and a journal underneath. */
module Simple {
  import opened Bytes
  import opened SimpleSpec
  import M = Mkfs

  // -------------------------------------------------------------- the addresses

  datatype Addr = Addr(blkno: nat, off: nat)

  function Block2Addr(blkno: nat): Addr { Addr(blkno, 0) }

  function Inum2Addr(inum: nat): Addr { Addr(M.LOGSIZE, inum * INODESZ * 8) }

  /** Where inodeInit puts the data of an inode. */
  function DataOf(inum: nat): nat { M.LOGSIZE + 1 + inum }

  /** No two records overlap, no two data blocks are the same, and all records are in
      one block, which is no data block. */
  lemma AddrsApart(i: nat, j: nat)
    requires i < NINODE && j < NINODE
    ensures Inum2Addr(i).off + 8 * INODESZ <= 8 * BLOCKSIZE
    ensures Inum2Addr(i).blkno != Block2Addr(DataOf(j)).blkno
    ensures i != j ==> Block2Addr(DataOf(i)) != Block2Addr(DataOf(j))
    ensures i < j ==> Inum2Addr(i).off + 8 * INODESZ <= Inum2Addr(j).off
  {}

  // ---------------------------------------------------------------- the journal

  type Disk = map<Addr, seq<Byte>>

  /** A transaction's view of the disk. */
  class Op {
    var view: Disk

    constructor (disk: Disk)
      ensures view == disk
    {
      view := disk;
    }

    method ReadBuf(a: Addr) returns (data: seq<Byte>)
      requires a in view
      ensures data == view[a]
    {
      data := view[a];
    }

    method OverWrite(a: Addr, data: seq<Byte>)
      modifies this
      ensures view == old(view)[a := data]
    {
      view := view[a := data];
    }
  }

  // ----------------------------------------------------------------- the records

  function Encode(size: nat, data: nat): (r: seq<Byte>)
    ensures |r| == INODESZ
  {
    PutInt(size) + PutInt(data) + Zeros(INODESZ - 16)
  }

  function DecodeSize(r: seq<Byte>): nat
    requires |r| == INODESZ
  {
    GetInt(r[..8])
  }

  function DecodeData(r: seq<Byte>): nat
    requires |r| == INODESZ
  {
    GetInt(r[8..16])
  }

  lemma DecodeEncode(size: nat, data: nat)
    requires size < U64 && data < U64
    ensures DecodeSize(Encode(size, data)) == size && DecodeData(Encode(size, data)) == data
    ensures GetInt(Encode(size, data)[..8]) == size && GetInt(Encode(size, data)[8..16]) == data
  {
    var r := Encode(size, data);
    assert r[..8] == PutInt(size) && r[8..16] == PutInt(data);
    GetPutInt(size);
    GetPutInt(data);
  }

  /** Record and data block of inode i. */
  ghost predicate FileOk(d: Disk, i: nat) {
    var a, b := Inum2Addr(i), Block2Addr(DataOf(i));
    && a in d && |d[a]| == INODESZ && DecodeSize(d[a]) <= BLOCKSIZE && DecodeData(d[a]) == DataOf(i)
    && b in d && |d[b]| == BLOCKSIZE
  }

  ghost function Content(d: Disk, i: nat): (f: seq<Byte>)
    requires FileOk(d, i)
    ensures |f| == DecodeSize(d[Inum2Addr(i)]) <= BLOCKSIZE
  {
    d[Block2Addr(DataOf(i))][..DecodeSize(d[Inum2Addr(i)])]
  }

  ghost predicate DiskOk(d: Disk) {
    M.LOGSIZE + 1 + NINODE < U64 && BLOCKSIZE < U64 && forall i: nat :: i < NINODE ==> FileOk(d, i)
  }

  /** The files on the disk. */
  ghost function Abs(d: Disk): (f: Files)
    requires DiskOk(d)
    ensures FilesOk(f) && forall i :: i in f ==> f[i] == Content(d, i)
  {
    map i: nat | i < NINODE && ValidInum(i) :: Content(d, i)
  }

  /** Only inode i and its data may differ. */
  ghost predicate Only(d: Disk, e: Disk, i: nat) {
    forall a :: a != Inum2Addr(i) && a != Block2Addr(DataOf(i)) ==> (a in d <==> a in e) && (a in d ==> d[a] == e[a])
  }

  lemma OtherKept(d: Disk, e: Disk, i: nat, j: nat)
    requires Only(d, e, i) && i < NINODE && j < NINODE && i != j && FileOk(d, j)
    ensures FileOk(e, j) && Content(e, j) == Content(d, j)
  {
    AddrsApart(i, j);
    AddrsApart(j, i);
  }

  /** A change of one file is a change of one file of the abstraction. */
  lemma AbsChanged(d: Disk, e: Disk, i: nat)
    requires DiskOk(d) && Only(d, e, i) && FileOk(e, i) && ValidInum(i)
    ensures DiskOk(e) && Abs(e) == Abs(d)[i := Content(e, i)]
  {
    forall j: nat | j < NINODE ensures FileOk(e, j) && (j != i ==> Content(e, j) == Content(d, j)) {
      if j != i { OtherKept(d, e, i, j); }
    }
  }

  /** What Write does to record and data block changes the file as promised. */
  lemma WroteFile(d: Disk, i: nat, off: nat, data: seq<Byte>)
    requires i < NINODE && FileOk(d, i) && off <= |Content(d, i)| && off + |data| <= BLOCKSIZE < U64 && DataOf(i) < U64
    ensures var blk := d[Block2Addr(DataOf(i))];
            var f := Content(d, i);
            var e := d[Block2Addr(DataOf(i)) := Splice(blk, off, data)];
            var e' := if off + |data| > |f| then e[Inum2Addr(i) := Encode(off + |data|, DataOf(i))] else e;
            FileOk(e', i) && Only(d, e', i) && Content(e', i) == Splice(f, off, data)
  {
    AddrsApart(i, i);
    DecodeEncode(off + |data|, DataOf(i));
    SpliceTake(d[Block2Addr(DataOf(i))], |Content(d, i)|, off, data);
  }

  lemma SpliceTake(blk: seq<Byte>, n: nat, off: nat, data: seq<Byte>)
    requires off <= n <= |blk| && off + |data| <= |blk|
    ensures |Splice(blk, off, data)| == |blk|
    ensures Splice(blk, off, data)[..if off + |data| > n then off + |data| else n] == Splice(blk[..n], off, data)
  {}

  // ------------------------------------------------------------------ the inodes

  class Inode {
    const inum: nat
    var size: nat
    var data: nat

    constructor (inum: nat, size: nat, data: nat)
      ensures this.inum == inum && this.size == size && this.data == data
    {
      this.inum, this.size, this.data := inum, size, data;
    }

    /** The inode in memory is the one the transaction sees. */
    ghost predicate Loaded(op: Op)
      reads this, op
    {
      && inum < NINODE && M.LOGSIZE + 1 + NINODE < U64 && BLOCKSIZE < U64 && FileOk(op.view, inum)
      && size == DecodeSize(op.view[Inum2Addr(inum)]) && data == DataOf(inum)
    }

    method WriteInode(op: Op)
      requires size <= BLOCKSIZE < U64 && data < U64
      modifies op
      ensures op.view == old(op.view)[Inum2Addr(inum) := Encode(size, data)]
    {
      op.OverWrite(Inum2Addr(inum), Encode(size, data));
    }

    method Read(op: Op, offset: nat, bytesToRead: nat) returns (bytes: seq<Byte>, eof: bool)
      requires Loaded(op)
      ensures bytes == Slice(Content(op.view, inum), offset, bytesToRead)
      ensures eof == (offset >= size || bytesToRead >= size - offset)
    {
      if offset >= size {
        return [], true;
      }
      var count := bytesToRead;
      if count > size - offset {
        count := size - offset;
      }
      bytes := [];
      var buf := op.ReadBuf(Block2Addr(data));
      for b := 0 to count
        invariant bytes == buf[offset..offset + b]
      {
        bytes := bytes + [buf[offset + b]];
      }
      eof := offset + count >= size;
      TakeSlice(buf, size, offset, offset + count);
    }

    /** Writes all of the data or nothing. */
    method Write(op: Op, offset: nat, count: nat, dataBuf: seq<Byte>) returns (n: nat, ok: bool)
      requires Loaded(op)
      modifies op, this`size
      ensures ok <==> count == |dataBuf| && offset + count <= BLOCKSIZE && offset <= old(size)
      ensures !ok ==> op.view == old(op.view) && size == old(size) && n == 0
      ensures ok ==> n == count && Loaded(op) && Only(old(op.view), op.view, inum)
      ensures ok ==> Content(op.view, inum) == Splice(old(Content(op.view, inum)), offset, dataBuf)
    {
      if count != |dataBuf| || offset + count >= U64 || offset + count > BLOCKSIZE || offset > size {
        return 0, false;
      }
      var buffer := op.ReadBuf(Block2Addr(data));
      buffer := CopyIn(buffer, offset, dataBuf);
      WroteFile(op.view, inum, offset, dataBuf);
      op.OverWrite(Block2Addr(data), buffer);
      if offset + count > size {
        size := offset + count;
        WriteInode(op);
      }
      return count, true;
    }

    method CopyIn(buf: seq<Byte>, offset: nat, dataBuf: seq<Byte>) returns (buffer: seq<Byte>)
      requires offset + |dataBuf| <= |buf|
      ensures buffer == Splice(buf, offset, dataBuf)
    {
      buffer := buf;
      for b := 0 to |dataBuf|
        invariant |buffer| == |buf|
        invariant forall k {:trigger buffer[k]} :: 0 <= k < |buf| ==>
                  buffer[k] == if offset <= k < offset + b then dataBuf[k - offset] else buf[k]
      {
        buffer := buffer[offset + b := dataBuf[b]];
      }
    }
  }

  method ReadInode(op: Op, inum: nat) returns (ip: Inode)
    requires inum < NINODE && M.LOGSIZE + 1 + NINODE < U64 && BLOCKSIZE < U64 && FileOk(op.view, inum)
    ensures fresh(ip) && ip.inum == inum && ip.Loaded(op)
  {
    var buffer := op.ReadBuf(Inum2Addr(inum));
    ip := new Inode(inum, DecodeSize(buffer), DecodeData(buffer));
  }

  // ------------------------------------------------------------------ the server

  class Nfs {
    var disk: Disk

    /** A server on a disk on which all records and data blocks are zero. */
    constructor (disk: Disk)
      requires M.LOGSIZE + 1 + NINODE < U64 && BLOCKSIZE < U64
      requires forall i: nat :: i < NINODE ==> Inum2Addr(i) in disk && disk[Inum2Addr(i)] == Zeros(INODESZ)
      requires forall i: nat :: i < NINODE ==>
                Block2Addr(DataOf(i)) in disk && disk[Block2Addr(DataOf(i))] == ZeroBlock()
      ensures DiskOk(this.disk) && forall i: nat :: ValidInum(i) ==> i in Abs(this.disk) && Abs(this.disk)[i] == []
    {
      var op := new Op(disk);
      InodeInit(op);
      this.disk := op.view;
    }

    method Commit(op: Op, commit: bool) returns (ok: bool)
      modifies this
      ensures ok == commit && disk == if commit then op.view else old(disk)
    {
      if commit {
        disk := op.view;
      }
      ok := commit;
    }

    method GetAttr(inum: nat, commit: bool) returns (reply: Reply)
      requires DiskOk(disk)
      modifies this
      ensures DiskOk(disk) && (Abs(disk), reply) == Serve(old(Abs(disk)), SimpleSpec.GetAttr(inum), commit)
    {
      var op := new Op(disk);
      if inum == ROOTINUM {
        return Attr(0);
      }
      if !ValidInum(inum) {
        return Failed(Inval);
      }
      var ip := ReadInode(op, inum);
      var ok := Commit(op, commit);
      return if ok then Attr(ip.size) else Failed(ServerFault);
    }

    method SetAttr(inum: nat, setIt: bool, newsize: nat, commit: bool) returns (reply: Reply)
      requires DiskOk(disk)
      modifies this
      ensures DiskOk(disk)
      ensures (Abs(disk), reply) == Serve(old(Abs(disk)), SimpleSpec.SetAttr(inum, setIt, newsize), commit)
    {
      var op := new Op(disk);
      if !ValidInum(inum) {
        return Failed(Inval);
      }
      var ip := ReadInode(op, inum);
      if setIt {
        ghost var f := Content(disk, inum);
        if ip.size < newsize {
          var data := Zeros(newsize - ip.size);
          var n, written := ip.Write(op, ip.size, newsize - ip.size, data);
          if ip.size != newsize {
            return Failed(NoSpace);
          }
        } else {
          DecodeEncode(newsize, ip.data);
          AddrsApart(inum, inum);
          ip.size := newsize;
          ip.WriteInode(op);
        }
        assert Content(op.view, inum) == Resized(f, newsize);
        AbsChanged(disk, op.view, inum);
      }
      var ok := Commit(op, commit);
      return if ok then Done else Failed(ServerFault);
    }

    method Read(inum: nat, off: nat, count: nat, commit: bool) returns (reply: Reply)
      requires DiskOk(disk)
      modifies this
      ensures DiskOk(disk) && (Abs(disk), reply) == Serve(old(Abs(disk)), SimpleSpec.Read(inum, off, count), commit)
    {
      var op := new Op(disk);
      if !ValidInum(inum) {
        return Failed(Inval);
      }
      var ip := ReadInode(op, inum);
      var data, eof := ip.Read(op, off, count);
      var ok := Commit(op, commit);
      return if ok then Data(data, eof) else Failed(ServerFault);
    }

    method Write(inum: nat, off: nat, count: nat, data: seq<Byte>, commit: bool) returns (reply: Reply)
      requires DiskOk(disk)
      modifies this
      ensures DiskOk(disk)
      ensures (Abs(disk), reply) == Serve(old(Abs(disk)), SimpleSpec.Write(inum, off, count, data), commit)
    {
      var op := new Op(disk);
      if !ValidInum(inum) {
        return Failed(Inval);
      }
      var ip := ReadInode(op, inum);
      var n, writeok := ip.Write(op, off, count, data);
      if !writeok {
        return Failed(ServerFault);
      }
      AbsChanged(disk, op.view, inum);
      var ok := Commit(op, commit);
      return if ok then Wrote(n) else Failed(ServerFault);
    }

    /** Any sequence of requests, with crashes between them, is answered as promised. */
    method Run(reqs: seq<(Request, bool)>) returns (replies: seq<Reply>)
      requires DiskOk(disk)
      modifies this
      ensures DiskOk(disk) && (Abs(disk), replies) == ServeAll(old(Abs(disk)), reqs)
    {
      replies := [];
      for k := 0 to |reqs|
        invariant DiskOk(disk) && (Abs(disk), replies) == ServeAll(old(Abs(disk)), reqs[..k])
      {
        assert reqs[..k + 1][..k] == reqs[..k];
        var (req, commit) := reqs[k];
        var reply;
        match req {
          case GetAttr(i) => reply := GetAttr(i, commit);
          case SetAttr(i, setIt, size) => reply := SetAttr(i, setIt, size, commit);
          case Read(i, off, count) => reply := Read(i, off, count, commit);
          case Write(i, off, count, data) => reply := Write(i, off, count, data, commit);
          case Crash => reply := NoReply;
        }
        replies := replies + [reply];
      }
      assert reqs[..|reqs|] == reqs;
    }
  }

  /** Gives every inode its data block. */
  method InodeInit(op: Op)
    requires M.LOGSIZE + 1 + NINODE < U64 && BLOCKSIZE < U64
    requires forall i: nat :: i < NINODE ==> Inum2Addr(i) in op.view && op.view[Inum2Addr(i)] == Zeros(INODESZ)
    requires forall i: nat :: i < NINODE ==>
              Block2Addr(DataOf(i)) in op.view && op.view[Block2Addr(DataOf(i))] == ZeroBlock()
    modifies op
    ensures DiskOk(op.view) && forall i: nat :: i < NINODE ==> Content(op.view, i) == []
  {
    for i := 0 to NINODE
      invariant forall j: nat :: i <= j < NINODE ==> Inum2Addr(j) in op.view && op.view[Inum2Addr(j)] == Zeros(INODESZ)
      invariant forall j: nat :: j < NINODE ==>
                Block2Addr(DataOf(j)) in op.view && op.view[Block2Addr(DataOf(j))] == ZeroBlock()
      invariant forall j: nat :: j < i ==> FileOk(op.view, j) && Content(op.view, j) == []
    {
      ghost var before := op.view;
      var buffer := op.ReadBuf(Inum2Addr(i));
      GetZeros(buffer[..8]);
      var ip := new Inode(i, DecodeSize(buffer), DecodeData(buffer));
      ip.data := DataOf(i);
      ip.WriteInode(op);
      DecodeEncode(0, DataOf(i));
      forall j: nat | j < i ensures FileOk(op.view, j) && Content(op.view, j) == [] {
        OtherKept(before, op.view, i, j);
      }
    }
  }
}
