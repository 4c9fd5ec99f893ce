/**
 The device behind the asynchronous interface: it decodes the command in a task's request
 buffer, moves the data between the task's buffers and the disk, and answers.
 */
module AsyncTarget {
  import opened Common
  import opened Blocks
  import opened AsyncSpec
  import opened VirtioTasks
  import opened Layout
  import opened VirtioDev
  import opened AsyncIo
  import Cdb
  import R = VringProtocol
  import J = AsyncOverRing
  import W = AsyncProtocol

  ghost predicate DistinctBufs(vs: seq<VBuf>) {
    forall i, j :: 0 <= i < j < |vs| ==> vs[i].buf != vs[j].buf
  }

  lemma {:induction false} SizesGrow(s: seq<Spot>, k: nat)
    requires k <= |s|
    ensures SizeBefore(s, k) <= SizeBefore(s, |s|)
    decreases |s| - k
  {
    if k < |s| { SizesGrow(s, k + 1); }
  }

  lemma {:induction false} TakeMore(data: Bytes, p: nat, size: nat, piece: Bytes)
    requires p + size <= |data| && piece == data[p..p + size]
    ensures data[..p] + piece == data[..p + size]
  {
  }

  lemma {:induction false} SplicedOn(disk: Bytes, at: nat, data: Bytes, p: nat, piece: Bytes)
    requires at + |data| <= |disk| && p + |piece| <= |data| && piece == data[p..p + |piece|]
    ensures Splice(Splice(disk, at, data[..p]), at + p, piece) == Splice(disk, at, data[..p + |piece|])
  {
    TakeMore(data, p, |piece|, piece);
  }

  // The bytes that the buffers hold go to the disk.
  method Collect(disk: array<Byte>, at: nat, vs: seq<VBuf>, ghost data: Bytes)
    requires InBounds(vs) && Hold(vs, data) && at + |data| <= disk.Length
    requires forall k :: 0 <= k < |vs| ==> vs[k].buf != disk
    modifies disk
    ensures disk[..] == Splice(old(disk[..]), at, data)
  {
    ghost var was := disk[..];
    var p := 0;
    assert Splice(was, at, data[..0]) == was;
    for k := 0 to |vs|
      invariant p == SizeBefore(Spots(vs), k) && p <= |data|
      invariant disk[..] == Splice(was, at, data[..p])
    {
      PieceHeld(vs, k, data);
      p := CollectNext(disk, at, vs[k], was, data, p);
    }
    assert data[..p] == data;
  }

  method CollectNext(disk: array<Byte>, at: nat, v: VBuf, ghost was: Bytes, ghost data: Bytes, p: nat) returns (p': nat)
    requires v.base + v.size <= v.buf.Length && v.buf != disk && |was| == disk.Length && at + |data| <= |was|
    requires p + v.size <= |data| && Contents(v) == data[p..p + v.size]
    requires disk[..] == Splice(was, at, data[..p])
    modifies disk
    ensures p' == p + v.size && disk[..] == Splice(was, at, data[..p'])
  {
    ghost var piece := Contents(v);
    SplicedOn(was, at, data, p, piece);
    Memcpy(disk, at + p, v.buf, v.base, v.size);
    assert disk[..] == Splice(Splice(was, at, data[..p]), at + p, piece);
    p' := p + v.size;
  }

  lemma {:induction false} HoldsMore(vs: seq<VBuf>, init: seq<VBuf>, data: Bytes)
    requires vs != [] && init == vs[..|vs| - 1] && InBounds(vs) && InBounds(init) && Hold(init, data)
    ensures Hold(vs, data + Contents(vs[|vs| - 1]))
  {
    var n, last := |init|, Contents(vs[|vs| - 1]);
    assert Spots(vs)[n] == SpotOf(vs[n]);
    SameBefore(vs, init, n);
    forall k: nat | k < |vs| ensures PieceIn(vs, k, data + last) {
      PieceOfMore(vs, init, data, last, k);
    }
  }

  lemma {:induction false} PieceOfMore(vs: seq<VBuf>, init: seq<VBuf>, data: Bytes, last: Bytes, k: nat)
    requires k < |vs| && init == vs[..|vs| - 1] && InBounds(vs) && InBounds(init) && Hold(init, data)
    requires last == Contents(vs[|vs| - 1])
    ensures PieceIn(vs, k, data + last)
  {
    var p, size := SizeBefore(Spots(init), k), vs[k].size;
    SameBefore(vs, init, k);
    if k < |init| {
      PieceHeld(init, k, data);
      SliceOfMore(data, last, p, size);
    } else {
      SliceOfLast(data, last);
    }
  }

  lemma {:induction false} SameBefore(vs: seq<VBuf>, init: seq<VBuf>, k: nat)
    requires k <= |init| && init <= vs
    ensures SizeBefore(Spots(vs), k) == SizeBefore(Spots(init), k)
  {
    assert Spots(init) <= Spots(vs);
    SizePrefix(Spots(init), Spots(vs), k);
  }

  lemma {:induction false} SliceOfMore(data: Bytes, last: Bytes, p: nat, size: nat)
    requires p + size <= |data|
    ensures (data + last)[p..p + size] == data[p..p + size]
  {
  }

  lemma {:induction false} SliceOfLast(data: Bytes, last: Bytes)
    ensures (data + last)[|data|..|data| + |last|] == last
  {
  }

  // Bytes of the disk fill the buffers.
  method Spread(disk: array<Byte>, at: nat, vs: seq<VBuf>) returns (total: nat)
    requires InBounds(vs) && DistinctBufs(vs) && at + SizeBefore(Spots(vs), |vs|) <= disk.Length
    requires forall k :: 0 <= k < |vs| ==> vs[k].buf != disk
    modifies set v | v in vs :: v.buf
    ensures total == SizeBefore(Spots(vs), |vs|) && Hold(vs, disk[at..at + total])
    ensures disk[..] == old(disk[..])
  {
    total := FillAll(disk, at, vs, Spots(vs));
    assert vs[..|vs|] == vs;
  }

  method FillAll(disk: array<Byte>, at: nat, vs: seq<VBuf>, ghost s: seq<Spot>) returns (total: nat)
    requires |s| == |vs| && (forall k :: 0 <= k < |vs| ==> s[k].size == vs[k].size)
    requires InBounds(vs) && DistinctBufs(vs) && at + SizeBefore(s, |vs|) <= disk.Length
    requires forall k :: 0 <= k < |vs| ==> vs[k].buf != disk
    modifies set v | v in vs :: v.buf
    ensures total == SizeBefore(s, |vs|) && Hold(vs[..|vs|], disk[at..at + total]) && disk[..] == old(disk[..])
  {
    total := 0;
    for k := 0 to |vs|
      invariant total == SizeBefore(s, k) && at + total <= disk.Length && disk[..] == old(disk[..])
      invariant Hold(vs[..k], disk[at..at + total])
    {
      SizesGrow(s, k + 1);
      total := FillNext(disk, at, vs, k, total);
    }
  }

  method FillNext(disk: array<Byte>, at: nat, vs: seq<VBuf>, k: nat, total: nat) returns (total': nat)
    requires k < |vs| && InBounds(vs) && DistinctBufs(vs) && vs[k].buf != disk
    requires at + total + vs[k].size <= disk.Length && Hold(vs[..k], disk[at..at + total])
    modifies vs[k].buf
    ensures total' == total + vs[k].size && Hold(vs[..k + 1], disk[at..at + total'])
  {
    total' := total + vs[k].size;
    ghost var data := disk[at..at + total];
    FillBuf(disk, at + total, vs[k]);
    assert disk[at..at + total] == data;
    assert vs[..k + 1][..k] == vs[..k];
    HoldsMore(vs[..k + 1], vs[..k], data);
    assert data + Contents(vs[k]) == disk[at..at + total'];
  }

  method FillBuf(disk: array<Byte>, at: nat, v: VBuf)
    requires v.base + v.size <= v.buf.Length && at + v.size <= disk.Length && v.buf != disk
    modifies v.buf
    ensures Contents(v) == disk[at..at + v.size]
  {
    Memcpy(v.buf, v.base, disk, at, v.size);
  }

  // -------------------------------------------------------------------------
  // One command
  // -------------------------------------------------------------------------

  lemma OneUserBuffer(bs: nat, off: nat, n: nat, stage: Stage, i: nat, j: nat)
    requires bs > 0 && i < j < |Plan(bs, off, n, stage)|
    ensures Plan(bs, off, n, stage)[i].copy || Plan(bs, off, n, stage)[j].copy
  {
  }

  // At most one buffer of a task is part of the user's; the others are the task's own.
  lemma BufsDistinct(dev: VirtioDev, io: IoDesc, stage: Stage, t: VirtioTask)
    requires dev.Valid() && io.offset <= dev.cap && Built(dev, io, stage, t) && io.buf !in t.Owned()
    ensures DistinctBufs(t.vbufs)
  {
    CopiesAre(t.vbufs);
    forall i, j | 0 <= i < j < |t.vbufs| ensures t.vbufs[i].buf != t.vbufs[j].buf {
      OneUserBuffer(dev.blockSize, io.offset, LenOf(dev, io, stage), stage, i, j);
      assert Spots(t.vbufs)[i] == SpotOf(t.vbufs[i]) && Spots(t.vbufs)[j] == SpotOf(t.vbufs[j]);
    }
  }

  // The buffers of a task are separate, and those that the device writes are marked.
  ghost predicate Shaped(disk: array<Byte>, stage: Stage, t: VirtioTask)
    reads t
  {
    && |t.vbufs| >= 3 && InBounds(t.vbufs) && DistinctBufs(t.vbufs)
    && (forall k :: 0 <= k < |t.vbufs| ==>
          t.vbufs[k].buf != disk && t.vbufs[k].response == if Writes(stage) then k == |t.vbufs| - 1 else k > 0)
    && RespOf(t, stage).buf.Length == RESPONSE_SIZE
  }

  // The task that the device is given: it tells the command, which the disk can execute.
  ghost predicate Given(dev: VirtioDev, disk: array<Byte>, stage: Stage, t: VirtioTask, cmd: Command)
    reads t, disk, set v | v in t.vbufs :: v.buf
  {
    && Shaped(disk, stage, t)
    && forall k {:trigger Ask(Topic.Orders, k)} :: Ask(Topic.Orders, k) ==>
         Tells(dev.blockSize, stage, t, cmd) && Fits(dev.blockSize, disk[..], cmd)
  }

  lemma {:induction false} DataShape(disk: array<Byte>, stage: Stage, t: VirtioTask)
    requires Shaped(disk, stage, t)
    ensures var data := DataBufs(t, stage);
            InBounds(data) && DistinctBufs(data) && forall k :: 0 <= k < |data| ==> data[k].buf != disk
  {
    ghost var data, first := DataBufs(t, stage), if Writes(stage) then 1 else 2;
    forall k | 0 <= k < |data| ensures data[k] == t.vbufs[first + k] { }
  }

  // Where the command begins on the disk.
  lemma {:induction false} GivenPlace(dev: VirtioDev, disk: array<Byte>, stage: Stage, t: VirtioTask, cmd: Command, at: nat)
    requires Given(dev, disk, stage, t, cmd) && Fits(dev.blockSize, disk[..], cmd) && at == cmd.blk * dev.blockSize
    ensures var data := DataBufs(t, stage);
            && at + SizeBefore(Spots(data), |data|) <= disk.Length
            && SizeBefore(Spots(data), |data|) == Length(dev.blockSize, cmd)
            && (cmd.Write? ==> Hold(data, cmd.payload))
    ensures if cmd.Write? then DiskAfter(dev.blockSize, disk[..], cmd) == Splice(disk[..], at, cmd.payload)
            else DataOf(dev.blockSize, disk[..], cmd) == disk[at..at + Length(dev.blockSize, cmd)]
  {
    assert Ask(Topic.Orders, 0);
  }

  // The command as the device finds it, and the place on the disk.
  lemma GivenDecodes(dev: VirtioDev, disk: array<Byte>, stage: Stage, t: VirtioTask, cmd: Command)
    requires Given(dev, disk, stage, t, cmd)
    ensures Fits(dev.blockSize, disk[..], cmd) && Tells(dev.blockSize, stage, t, cmd)
    ensures var cdb := Cdb.CommandOf(Contents(t.vbufs[0]));
            cdb.Some? && cdb.value.write == cmd.Write? == Writes(stage) && cdb.value.blk == cmd.blk
  {
    assert Ask(Topic.Orders, 0);
  }

  // What the device does not write still tells the command.
  twostate lemma StillTells(t: VirtioTask, new bs: nat, new stage: Stage, new cmd: Command)
    requires t.vbufs == old(t.vbufs) && |t.vbufs| >= 2 && InBounds(t.vbufs) && !t.vbufs[0].response
    requires Writes(stage) ==> forall k :: 0 <= k < |t.vbufs| - 1 ==> !t.vbufs[k].response
    requires old(Tells(bs, stage, t, cmd))
    requires forall v :: v in t.vbufs && !v.response ==> unchanged(v.buf)
    ensures Tells(bs, stage, t, cmd)
  {
    if cmd.Write? {
      var data := DataBufs(t, stage);
      forall k | 0 <= k < |data| ensures unchanged(data[k].buf) {
        assert data[k] == t.vbufs[k + 1] && data[k] in t.vbufs;
      }
    }
  }

  // The answer of the device is 108 bytes, with the SCSI status in byte 10 and the response of the
  // target in byte 11 (section 5.6.6.1 of VIRTIO 1.1), followed by the data of a read.

  // The target did what it was asked to, and the command ended well; anything else is an error.
  predicate Success(status: Byte, response: Byte) { status == 0 && response == 0 }

  // A failed command changes nothing but the response, which says so in one way or another.
  method Fail(t: VirtioTask, resp: VBuf, status: Byte, response: Byte)
    requires resp in t.vbufs && resp.buf.Length == RESPONSE_SIZE && !Success(status, response)
    modifies t`usedBytes, resp.buf
    ensures !Good(resp)
  {
    resp.buf[10], resp.buf[11] := status, response;
    t.usedBytes := 108;
  }

  method Succeed(t: VirtioTask, resp: VBuf, total: nat)
    requires resp in t.vbufs && resp.buf.Length == RESPONSE_SIZE
    modifies t`usedBytes, resp.buf
    ensures Good(resp) && t.usedBytes == RESPONSE_SIZE + total
  {
    resp.buf[10], resp.buf[11] := 0, 0;
    t.usedBytes := 108 + total;
  }

  // Write the data of the task to the disk.
  method ServeWrite(dev: VirtioDev, disk: array<Byte>, t: VirtioTask, at: nat, status: Byte, response: Byte,
                   ghost stage: Stage, ghost cmd: Command)
    requires Given(dev, disk, stage, t, cmd) && Fits(dev.blockSize, disk[..], cmd)
    requires cmd.Write? && Writes(stage) && at == cmd.blk * dev.blockSize
    modifies disk, t`usedBytes, t.vbufs[|t.vbufs| - 1].buf
    ensures Good(RespOf(t, stage)) == Success(status, response)
    ensures disk[..] == if Success(status, response) then DiskAfter(dev.blockSize, old(disk[..]), cmd) else old(disk[..])
  {
    DataShape(disk, stage, t);
    GivenPlace(dev, disk, stage, t, cmd, at);
    var resp := t.vbufs[|t.vbufs| - 1];
    if Success(status, response) {
      Collect(disk, at, t.vbufs[1..|t.vbufs| - 1], cmd.payload);
      Succeed(t, resp, 0);
    } else {
      Fail(t, resp, status, response);
    }
  }

  // Fill the data buffers of the task from the disk.
  method ServeRead(dev: VirtioDev, disk: array<Byte>, t: VirtioTask, at: nat, status: Byte, response: Byte,
                   ghost stage: Stage, ghost cmd: Command)
    requires Given(dev, disk, stage, t, cmd) && Fits(dev.blockSize, disk[..], cmd)
    requires cmd.Read? && !Writes(stage) && at == cmd.blk * dev.blockSize
    modifies t`usedBytes, set v | v in t.vbufs[1..] :: v.buf
    ensures Good(RespOf(t, stage)) == Success(status, response) && disk[..] == old(disk[..])
    ensures Success(status, response) ==>
      && t.usedBytes == RESPONSE_SIZE + Length(dev.blockSize, cmd)
      && InBounds(DataBufs(t, stage)) && Hold(DataBufs(t, stage), DataOf(dev.blockSize, old(disk[..]), cmd))
  {
    DataShape(disk, stage, t);
    GivenPlace(dev, disk, stage, t, cmd, at);
    if Success(status, response) {
      SpreadData(disk, t, at, DataOf(dev.blockSize, disk[..], cmd));
    } else {
      Fail(t, t.vbufs[1], status, response);
    }
  }

  method SpreadData(disk: array<Byte>, t: VirtioTask, at: nat, ghost data: Bytes)
    requires |t.vbufs| >= 3 && InBounds(t.vbufs) && DistinctBufs(t.vbufs)
    requires (forall k :: 0 <= k < |t.vbufs| ==> t.vbufs[k].buf != disk) && t.vbufs[1].buf.Length == RESPONSE_SIZE
    requires at + SizeBefore(Spots(t.vbufs[2..]), |t.vbufs| - 2) <= disk.Length
    requires data == disk[at..at + SizeBefore(Spots(t.vbufs[2..]), |t.vbufs| - 2)]
    modifies t`usedBytes, set v | v in t.vbufs[1..] :: v.buf
    ensures Good(t.vbufs[1]) && disk[..] == old(disk[..])
    ensures t.usedBytes == RESPONSE_SIZE + |data| && Hold(t.vbufs[2..], data)
  {
    var total := Spread(disk, at, t.vbufs[2..]);
    Succeed(t, t.vbufs[1], total);
  }

  // The same with what both leave as it was.
  method ServeWriteTask(dev: VirtioDev, disk: array<Byte>, t: VirtioTask, at: nat, status: Byte, response: Byte,
                   ghost stage: Stage, ghost cmd: Command)
    requires Given(dev, disk, stage, t, cmd) && Fits(dev.blockSize, disk[..], cmd) && Tells(dev.blockSize, stage, t, cmd)
    requires cmd.Write? && Writes(stage) && at == cmd.blk * dev.blockSize
    modifies disk, t`usedBytes, set v | v in t.vbufs && v.response :: v.buf
    ensures Tells(dev.blockSize, stage, t, cmd) && Good(RespOf(t, stage)) == Success(status, response)
    ensures disk[..] == if Success(status, response) then DiskAfter(dev.blockSize, old(disk[..]), cmd) else old(disk[..])
  {
    ServeWrite(dev, disk, t, at, status, response, stage, cmd);
    StillTells(t, dev.blockSize, stage, cmd);
  }

  method ServeReadTask(dev: VirtioDev, disk: array<Byte>, t: VirtioTask, at: nat, status: Byte, response: Byte,
                   ghost stage: Stage, ghost cmd: Command)
    requires Given(dev, disk, stage, t, cmd) && Fits(dev.blockSize, disk[..], cmd) && Tells(dev.blockSize, stage, t, cmd)
    requires cmd.Read? && !Writes(stage) && at == cmd.blk * dev.blockSize
    modifies t`usedBytes, set v | v in t.vbufs && v.response :: v.buf
    ensures Tells(dev.blockSize, stage, t, cmd) && Good(RespOf(t, stage)) == Success(status, response) && disk[..] == old(disk[..])
    ensures Success(status, response) ==>
      && t.usedBytes == RESPONSE_SIZE + Length(dev.blockSize, cmd)
      && InBounds(DataBufs(t, stage)) && Hold(DataBufs(t, stage), DataOf(dev.blockSize, old(disk[..]), cmd))
  {
    ServeRead(dev, disk, t, at, status, response, stage, cmd);
    StillTells(t, dev.blockSize, stage, cmd);
  }

  // Decode the request buffer: which way the data go, and where they are on the disk.
  method ReadCommand(dev: VirtioDev, disk: array<Byte>, t: VirtioTask, ghost stage: Stage, ghost cmd: Command)
    returns (write: bool, at: nat)
    requires Given(dev, disk, stage, t, cmd)
    ensures write == cmd.Write? == Writes(stage) && at == cmd.blk * dev.blockSize
    ensures Tells(dev.blockSize, stage, t, cmd)
  {
    GivenDecodes(dev, disk, stage, t, cmd);
    var req := t.vbufs[0];
    var cdb := Cdb.CommandOf(req.buf[req.base..req.base + req.size]).value;
    write, at := cdb.write, BytesIn(cdb.blk, dev.blockSize);
  }

  // The device executes the command that it finds in the task, or fails it.
  method ServeTask(dev: VirtioDev, disk: array<Byte>, t: VirtioTask, status: Byte, response: Byte, ghost stage: Stage, ghost cmd: Command)
    requires Given(dev, disk, stage, t, cmd) && Fits(dev.blockSize, disk[..], cmd)
    modifies disk, t`usedBytes, set v | v in t.vbufs && v.response :: v.buf
    ensures Tells(dev.blockSize, stage, t, cmd) && Good(RespOf(t, stage)) == Success(status, response)
    ensures disk[..] == if Success(status, response) then DiskAfter(dev.blockSize, old(disk[..]), cmd) else old(disk[..])
    ensures Success(status, response) && cmd.Read? ==>
      && t.usedBytes == RESPONSE_SIZE + Length(dev.blockSize, cmd)
      && InBounds(DataBufs(t, stage)) && Hold(DataBufs(t, stage), DataOf(dev.blockSize, old(disk[..]), cmd))
  {
    var write, at := ReadCommand(dev, disk, t, stage, cmd);
    if write {
      ServeWriteTask(dev, disk, t, at, status, response, stage, cmd);
    } else {
      ServeReadTask(dev, disk, t, at, status, response, stage, cmd);
    }
  }

  // -------------------------------------------------------------------------
  // The same task on the ring
  // -------------------------------------------------------------------------

  ghost predicate PieceAt(m: J.Memory, v: J.View, data: Bytes, p: nat, size: nat) {
    !v.write && p + size <= |data| && J.Fetch(m, v) == data[p..p + size]
  }

  // The buffers that the device reads hold the data, piece by piece.
  ghost predicate PiecesAt(m: J.Memory, views: seq<J.View>, s: seq<Spot>, data: Bytes)
    requires |views| == |s| + 1
  {
    forall i {:trigger views[i]} :: 0 <= i < |s| ==> PieceAt(m, views[i], data, SizeBefore(s, i), s[i].size)
  }

  // What the device collects from memory, from the k-th piece of the data on.
  lemma {:induction false} PayloadFrom(m: J.Memory, views: seq<J.View>, s: seq<Spot>, data: Bytes, k: nat)
    requires k <= |s| && |views| == |s| + 1 && views[|s|].write && |data| == SizeBefore(s, |s|)
    requires PiecesAt(m, views, s, data)
    ensures SizeBefore(s, k) <= |data| && J.Payload(m, views[k..]) == data[SizeBefore(s, k)..]
    decreases |s| - k
  {
    if k < |s| {
      assert PieceAt(m, views[k], data, SizeBefore(s, k), s[k].size);
      PayloadFrom(m, views, s, data, k + 1);
      var rest, p := views[k..], SizeBefore(s, k);
      assert rest[0] == views[k] && rest[1..] == views[k + 1..];
      SuffixJoins(data, p, s[k].size);
    }
  }

  lemma {:induction false} SuffixJoins(data: Bytes, p: nat, size: nat)
    requires p + size <= |data|
    ensures data[p..p + size] + data[p + size..] == data[p..]
  {
  }

  // The task of VirtioDev as the ring's task, with its buffers at the given addresses.
  function RingTask(id: nat, t: VirtioTask, addrs: seq<nat>): R.Task
    requires |addrs| == |t.vbufs|
    reads t
  {
    R.Task(id, OnRing(Spots(t.vbufs), addrs))
  }

  // Memory holds the buffers at their addresses, and the 32-bit lengths of the descriptors hold
  // their sizes.
  ghost predicate Resides(m: J.Memory, t: VirtioTask, addrs: seq<nat>)
    requires |addrs| == |t.vbufs| && InBounds(t.vbufs)
    reads t, set v | v in t.vbufs :: v.buf
  {
    forall k :: 0 <= k < |addrs| ==>
      t.vbufs[k].size < R.LENGTH_SPAN && addrs[k] in m && m[addrs[k]] == Contents(t.vbufs[k])
  }

  lemma ViewFetches(m: J.Memory, id: nat, t: VirtioTask, addrs: seq<nat>, k: nat)
    requires |addrs| == |t.vbufs| && InBounds(t.vbufs) && Resides(m, t, addrs) && k < |addrs|
    ensures var v := J.Views(RingTask(id, t, addrs))[k];
            v.write == t.vbufs[k].response && J.Fetch(m, v) == Contents(t.vbufs[k])
  {
    assert Contents(t.vbufs[k])[..t.vbufs[k].size] == Contents(t.vbufs[k]);
  }

  lemma {:induction false} PieceFetched(vs: seq<VBuf>, s: seq<Spot>, data: Bytes, m: J.Memory, views: seq<J.View>, i: nat)
    requires InBounds(vs) && Hold(vs, data) && s == Spots(vs) && i < |vs| < |views|
    requires J.Fetch(m, views[i]) == Contents(vs[i])
    ensures SizeBefore(s, i) + s[i].size <= |data|
    ensures J.Fetch(m, views[i]) == data[SizeBefore(s, i)..SizeBefore(s, i) + s[i].size]
  {
    PieceHeld(vs, i, data);
  }

  lemma {:induction false} TaskPayload(vs: seq<VBuf>, data: Bytes, m: J.Memory, views: seq<J.View>)
    requires InBounds(vs) && Hold(vs, data) && |views| == |vs| + 1 && views[|vs|].write
    requires forall i :: 0 <= i < |vs| ==> !views[i].write && J.Fetch(m, views[i]) == Contents(vs[i])
    ensures J.Payload(m, views) == data
  {
    ghost var s := Spots(vs);
    forall i {:trigger views[i]} | 0 <= i < |vs|
      ensures PieceAt(m, views[i], data, SizeBefore(s, i), s[i].size)
    {
      PieceFetched(vs, s, data, m, views, i);
    }
    PayloadFrom(m, views, s, data, 0);
    assert views[0..] == views;
  }

  lemma {:induction false} WriteCollected(dev: VirtioDev, stage: Stage, t: VirtioTask, cmd: Command, m: J.Memory, views: seq<J.View>)
    requires |t.vbufs| >= 3 && InBounds(t.vbufs) && Tells(dev.blockSize, stage, t, cmd) && Writes(stage)
    requires |views| == |t.vbufs| && views[|views| - 1].write
    requires forall k :: 0 <= k < |views| - 1 ==> !views[k].write && J.Fetch(m, views[k]) == Contents(t.vbufs[k])
    ensures cmd.Write? && J.Payload(m, views[1..]) == cmd.payload
  {
    var vs, rest := t.vbufs[1..|t.vbufs| - 1], views[1..];
    forall k: nat | k < |vs| ensures !rest[k].write && J.Fetch(m, rest[k]) == Contents(vs[k]) {
      assert rest[k] == views[k + 1] && vs[k] == t.vbufs[k + 1];
    }
    TaskPayload(vs, cmd.payload, m, rest);
  }

  lemma {:induction false} WriteDecodes(dev: VirtioDev, stage: Stage, t: VirtioTask, cmd: Command, m: J.Memory, views: seq<J.View>)
    requires dev.Valid() && |t.vbufs| >= 3 && InBounds(t.vbufs) && Tells(dev.blockSize, stage, t, cmd) && Writes(stage)
    requires |views| == |t.vbufs| && views[|views| - 1].write
    requires forall k :: 0 <= k < |views| - 1 ==> !views[k].write && J.Fetch(m, views[k]) == Contents(t.vbufs[k])
    ensures J.Decoded(dev.blockSize, m, views) == Some(cmd)
  {
    WriteCollected(dev, stage, t, cmd, m, views);
  }

  lemma {:induction false} ReadDecodes(dev: VirtioDev, stage: Stage, t: VirtioTask, cmd: Command, m: J.Memory, views: seq<J.View>)
    requires dev.Valid() && |t.vbufs| >= 3 && InBounds(t.vbufs) && Tells(dev.blockSize, stage, t, cmd) && !Writes(stage)
    requires |views| == |t.vbufs| && !views[0].write && J.Fetch(m, views[0]) == Contents(t.vbufs[0])
    ensures J.Decoded(dev.blockSize, m, views) == Some(cmd)
  {
    SameFactor(dev.blockSize, Cdb.CommandOf(Contents(t.vbufs[0])).value.count, cmd.count);
  }

  // A task that tells a command is decoded to this command by a device that finds it on the ring.
  lemma {:induction false} TaskDecodes(dev: VirtioDev, stage: Stage, t: VirtioTask, cmd: Command, m: J.Memory, id: nat, addrs: seq<nat>)
    requires dev.Valid() && |t.vbufs| >= 3 && InBounds(t.vbufs) && Tells(dev.blockSize, stage, t, cmd)
    requires |addrs| == |t.vbufs| && Resides(m, t, addrs)
    requires forall k :: 0 <= k < |t.vbufs| ==>
      t.vbufs[k].response == if Writes(stage) then k == |t.vbufs| - 1 else k > 0
    ensures J.Decoded(dev.blockSize, m, J.Views(RingTask(id, t, addrs))) == Some(cmd)
  {
    var views := J.Views(RingTask(id, t, addrs));
    forall k | 0 <= k < |views|
      ensures views[k].write == t.vbufs[k].response && J.Fetch(m, views[k]) == Contents(t.vbufs[k])
    {
      ViewFetches(m, id, t, addrs, k);
    }
    if Writes(stage) {
      WriteDecodes(dev, stage, t, cmd, m, views);
    } else {
      ReadDecodes(dev, stage, t, cmd, m, views);
    }
  }

  // The buffers of a new task lie where nothing of the outstanding tasks lies, and only they
  // are filled.
  ghost predicate NewPlaces(j: J.Joint, addrs: seq<nat>, filled: J.Memory) {
    && Distinct(addrs) && (forall a :: a in filled ==> a in addrs)
    && forall u, k :: u in j.bound && 0 <= k < |addrs| ==> addrs[k] !in J.Addrs(J.Views(u), true) + J.Addrs(J.Views(u), false)
  }

  lemma {:induction false} PlacesApart(j: J.Joint, t: R.Task, addrs: seq<nat>, filled: J.Memory)
    requires |t.vbufs| == |addrs| && (forall k :: 0 <= k < |addrs| ==> t.vbufs[k].addr == addrs[k])
    requires NewPlaces(j, addrs, filled)
    ensures J.Apart(t, t)
    ensures forall u :: u in j.bound ==> J.Apart(t, u) && J.Apart(u, t) && filled.Keys !! J.Addrs(J.Views(u), false)
  {
    assert forall w: bool, a :: a in J.Addrs(J.Views(t), w) ==> a in addrs;
  }

  lemma {:induction false} TaskServes(dev: VirtioDev, io: IoDesc, stage: Stage, t: VirtioTask, id: nat, addrs: seq<nat>, cmd: Command)
    requires Issuable(dev, io) && Built(dev, io, stage, t) && |t.vbufs| >= 2 && Tells(dev.blockSize, stage, t, cmd)
    requires |addrs| == |t.vbufs|
    ensures J.TaskFor(dev.blockSize, RingTask(id, t, addrs), cmd)
  {
    var bs, n := dev.blockSize, LenOf(dev, io, stage);
    LenFacts(dev, io, stage);
    DataSpots(dev, io, stage, t);
    DataSizes(bs, io.offset, n, stage);
    PlanServes(bs, io.offset, n, stage, id, addrs, cmd);
  }

  // A task that a callback has built for a request can be put on the ring of the joint model,
  // whose results hold for it from there.
  lemma {:induction false} BuiltSubmits(dev: VirtioDev, io: IoDesc, t: VirtioTask, j: J.Joint, p: nat, id: W.Id, task: nat,
                                        addrs: seq<nat>, filled: J.Memory)
    requires id in j.world.ops && j.world.ops[id].phase.Submitting? && J.Free(j.bound, id)
    requires j.world.bs == dev.blockSize && Issuable(dev, io)
    requires Carries(dev, io, Submission(j.world.ops[id].stage, j.world.ops[id].cmd), t) && |t.vbufs| >= 3
    requires Cdb.OnWire(dev.numBlocks, j.world.ops[id].cmd) == j.world.ops[id].cmd
    requires |addrs| == |t.vbufs| && InBounds(t.vbufs) && Resides(j.memory + filled, t, addrs) && NewPlaces(j, addrs, filled)
    requires (p in j.ring.prod ==> j.ring.prod[p].Idle?) && RingTask(task, t, addrs) !in j.ring.own
    ensures J.Enabled(j, J.Submit(p, id, RingTask(task, t, addrs), filled))
  {
    assert Ask(Topic.Orders, 0);
    var op, rt := j.world.ops[id], RingTask(task, t, addrs);
    TaskServes(dev, io, op.stage, t, task, addrs, op.cmd);
    forall k: nat | k < |t.vbufs|
      ensures t.vbufs[k].response == if Writes(op.stage) then k == |t.vbufs| - 1 else k > 0
    {
      PlanDirection(dev.blockSize, io.offset, LenOf(dev, io, op.stage), op.stage, k);
      assert Spots(t.vbufs)[k] == SpotOf(t.vbufs[k]);
    }
    TaskDecodes(dev, op.stage, t, op.cmd, j.memory + filled, task, addrs);
    PlacesApart(j, rt, addrs, filled);
  }
}
