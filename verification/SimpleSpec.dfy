/** What SimpleNFS promises: files of at most a block, named by inode numbers. */
module SimpleSpec {
  import opened Bytes

  const ROOTINUM: nat := 1

  /** There is one block of inodes, each of 128 bytes. */
  const NINODE: nat := NENTBLK

  predicate ValidInum(inum: nat) { inum != 0 && inum != ROOTINUM && inum < NINODE }

  type Files = map<nat, seq<Byte>>

  ghost predicate FilesOk(f: Files) {
    && (forall i: nat :: i in f <==> ValidInum(i))
    && (forall i :: i in f ==> |f[i]| <= BLOCKSIZE)
  }

  datatype Status = Ok | Inval | NoSpace | ServerFault

  datatype Request =
    | GetAttr(inum: nat)
    | SetAttr(inum: nat, setIt: bool, size: nat)
    | Read(inum: nat, off: nat, count: nat)
    | Write(inum: nat, off: nat, count: nat, data: seq<Byte>)
    | Crash

  datatype Reply =
    | Failed(status: Status)
    | Attr(size: nat)
    | Done
    | Data(data: seq<Byte>, eof: bool)
    | Wrote(count: nat)
    | NoReply

  function Resized(f: seq<Byte>, n: nat): (r: seq<Byte>)
    ensures |r| == n
  {
    if n <= |f| then f[..n] else f + Zeros(n - |f|)
  }

  function Slice(f: seq<Byte>, off: nat, count: nat): seq<Byte> {
    if off >= |f| then [] else if count > |f| - off then f[off..] else f[off..off + count]
  }

  /** What a request answers if its transaction commits, and the files then. */
  function Wanted(f: Files, req: Request): (r: (Files, Reply))
    requires FilesOk(f)
  {
    match req
    case GetAttr(i) =>
      (f, if i == ROOTINUM then Attr(0) else if ValidInum(i) then Attr(|f[i]|) else Failed(Inval))
    case SetAttr(i, setIt, size) =>
      if !ValidInum(i) then (f, Failed(Inval))
      else if !setIt then (f, Done)
      else if size > BLOCKSIZE then (f, Failed(NoSpace))
      else (f[i := Resized(f[i], size)], Done)
    case Read(i, off, count) =>
      if !ValidInum(i) then (f, Failed(Inval))
      else (f, Data(Slice(f[i], off, count), off >= |f[i]| || count >= |f[i]| - off))
    case Write(i, off, count, data) =>
      if !ValidInum(i) then (f, Failed(Inval))
      else if count != |data| || off + count > BLOCKSIZE || off > |f[i]| then (f, Failed(ServerFault))
      else (f[i := Splice(f[i], off, data)], Wrote(count))
    case Crash => (f, NoReply)
  }

  /** Whether the request comes as far as a commit. */
  predicate Commits(req: Request, reply: Reply) {
    !reply.Failed? && !req.Crash? && !(req.GetAttr? && req.inum == ROOTINUM)
  }

  /** A request whose commit succeeds or fails as told. */
  function Serve(f: Files, req: Request, commit: bool): (r: (Files, Reply))
    requires FilesOk(f)
  {
    var (f', reply) := Wanted(f, req);
    if Commits(req, reply) && !commit then (f, Failed(ServerFault)) else (f', reply)
  }

  lemma ServeOk(f: Files, req: Request, commit: bool)
    requires FilesOk(f)
    ensures FilesOk(Serve(f, req, commit).0)
  {}

  function ServeAll(f: Files, reqs: seq<(Request, bool)>): (r: (Files, seq<Reply>))
    requires FilesOk(f)
    ensures FilesOk(r.0) && |r.1| == |reqs|
  {
    if reqs == [] then (f, []) else
    var k := |reqs| - 1;
    var (g, replies) := ServeAll(f, reqs[..k]);
    ServeOk(g, reqs[k].0, reqs[k].1);
    var (h, reply) := Serve(g, reqs[k].0, reqs[k].1);
    (h, replies + [reply])
  }

  // ---------------------------------------------------------------- consequences

  predicate Names(req: Request, i: nat) { (req.SetAttr? || req.Write?) && req.inum == i }

  /** A failed request changes nothing, and a request changes only the file it names. */
  lemma ServeFrame(f: Files, req: Request, commit: bool, i: nat)
    requires FilesOk(f) && ValidInum(i)
    ensures var (g, reply) := Serve(f, req, commit); (reply.Failed? || !Names(req, i)) ==> i in g && g[i] == f[i]
  {}

  /** A file is what it was before a run in which all changes to it failed. */
  lemma {:induction false} RunFrame(f: Files, reqs: seq<(Request, bool)>, i: nat)
    requires FilesOk(f) && ValidInum(i)
    requires forall k :: 0 <= k < |reqs| ==> Names(reqs[k].0, i) ==> ServeAll(f, reqs).1[k].Failed?
    ensures i in ServeAll(f, reqs).0 && ServeAll(f, reqs).0[i] == f[i]
  {
    if reqs != [] {
      var k := |reqs| - 1;
      var (g, replies) := ServeAll(f, reqs[..k]);
      forall j | 0 <= j < k ensures Names(reqs[..k][j].0, i) ==> replies[j].Failed? {
        assert replies[j] == ServeAll(f, reqs).1[j];
      }
      RunFrame(f, reqs[..k], i);
      ServeFrame(g, reqs[k].0, reqs[k].1, i);
    }
  }

  /** Which requests fail: those for inode numbers below 2 or beyond the one block of inodes,
      except that the root has attributes; data that is not as long as said, does not fit in a
      block or would leave a gap; and sizes that do not fit in a block. */
  lemma FailsIff(f: Files, i: nat, off: nat, count: nat, data: seq<Byte>, size: nat)
    requires FilesOk(f)
    ensures var valid := 2 <= i < NENTBLK;
            && (Serve(f, GetAttr(i), true).1.Failed? <==> i != 1 && !valid)
            && (Serve(f, Read(i, off, count), true).1.Failed? <==> !valid)
            && (Serve(f, SetAttr(i, true, size), true).1.Failed? <==> !valid || size > BLOCKSIZE)
            && (Serve(f, Write(i, off, count, data), true).1.Failed? <==>
                !valid || count != |data| || off + count > BLOCKSIZE || off > |f[i]|)
    ensures Serve(f, GetAttr(1), true).1 == Attr(0)
  {}

  /** What READ answers: from off on the bytes of the file, as many as asked for or as there
      are, and whether they reach the end. */
  lemma ReadAnswers(f: Files, i: nat, off: nat, count: nat)
    requires FilesOk(f) && ValidInum(i)
    ensures var (g, reply) := Serve(f, Read(i, off, count), true);
            && g == f && reply.Data? && (reply.eof <==> off + count >= |f[i]|)
            && |reply.data| == (if off + count <= |f[i]| then count else if off <= |f[i]| then |f[i]| - off else 0)
            && forall k :: 0 <= k < |reply.data| ==> reply.data[k] == f[i][off + k]
  {}

  /** What a write leaves: the data from off on, every other byte as it was, and no byte
      more than either had. */
  lemma WriteLeaves(f: Files, i: nat, off: nat, data: seq<Byte>, k: nat)
    requires FilesOk(f) && ValidInum(i) && off <= |f[i]| && off + |data| <= BLOCKSIZE
    ensures var (g, reply) := Serve(f, Write(i, off, |data|, data), true);
            && reply == Wrote(|data|) && i in g && (k < |g[i]| <==> k < |f[i]| || k < off + |data|)
            && (k < |g[i]| ==> g[i][k] == if off <= k < off + |data| then data[k - off] else f[i][k])
  {
    WriteServed(f, i, off, data);
  }

  /** GETATTR answers the size that the writes and resizings made. */
  lemma AttrAnswers(f: Files, i: nat, off: nat, data: seq<Byte>, size: nat)
    requires FilesOk(f) && ValidInum(i) && size <= BLOCKSIZE
    ensures Serve(f, GetAttr(i), true) == (f, Attr(|f[i]|))
    ensures off <= |f[i]| && off + |data| <= BLOCKSIZE ==>
              var g := Serve(f, Write(i, off, |data|, data), true).0;
              FilesOk(g) && Serve(g, GetAttr(i), true).1 == Attr(if off + |data| < |f[i]| then |f[i]| else off + |data|)
    ensures var g := Serve(f, SetAttr(i, true, size), true).0;
            FilesOk(g) && Serve(g, GetAttr(i), true).1 == Attr(size)
  {
    if off <= |f[i]| && off + |data| <= BLOCKSIZE { WriteServed(f, i, off, data); }
  }

  lemma SliceSplice(f: seq<Byte>, off: nat, data: seq<Byte>)
    requires off <= |f|
    ensures Slice(Splice(f, off, data), off, |data|) == data
  {}

  lemma WriteServed(f: Files, i: nat, off: nat, data: seq<Byte>)
    requires FilesOk(f) && ValidInum(i) && off <= |f[i]| && off + |data| <= BLOCKSIZE
    ensures Serve(f, Write(i, off, |data|, data), true) == (f[i := Splice(f[i], off, data)], Wrote(|data|))
  {}

  /** What was written is read back, whatever happens to other files in between. */
  lemma ReadBack(f: Files, i: nat, off: nat, data: seq<Byte>, g: Files, reqs: seq<(Request, bool)>)
    requires FilesOk(f) && ValidInum(i) && off <= |f[i]| && off + |data| <= BLOCKSIZE
    requires g == Serve(f, Write(i, off, |data|, data), true).0 && FilesOk(g)
    requires forall k :: 0 <= k < |reqs| ==> Names(reqs[k].0, i) ==> ServeAll(g, reqs).1[k].Failed?
    ensures var reply := Serve(ServeAll(g, reqs).0, Read(i, off, |data|), true).1;
            reply.Data? && reply.data == data
  {
    RunFrame(g, reqs, i);
    WriteServed(f, i, off, data);
    SliceSplice(f[i], off, data);
  }

  /** Growing a file, even one that was cut before, yields zeros. */
  lemma GrowZeros(f: Files, i: nat, a: nat, b: nat, k: nat)
    requires FilesOk(f) && ValidInum(i) && a <= b <= BLOCKSIZE && k < b
    ensures var g := Serve(f, SetAttr(i, true, a), true).0;
            FilesOk(g) && var h := Serve(g, SetAttr(i, true, b), true).0;
            i in h && |h[i]| == b && h[i][k] == if k < a && k < |f[i]| then f[i][k] else 0
  {}
}
