/**
 The asynchronous interface: the functions that start a request and the callbacks that carry
 it on.  Each callback is proved to react as AsyncSpec.OnReply says, to issue at most one
 command or push the request to the output ring once, and to leave no memory behind.
 */
module AsyncIo {
  import opened Common
  import opened Blocks
  import opened AsyncSpec
  import opened VirtioTasks
  import opened Layout
  import opened VirtioDev
  import Cdb

  // -------------------------------------------------------------------------
  // Specification
  // -------------------------------------------------------------------------

  function RespOf(t: VirtioTask, stage: Stage): VBuf
    requires |t.vbufs| >= 2
    reads t
  {
    if Writes(stage) then t.vbufs[|t.vbufs| - 1] else t.vbufs[1]
  }

  // Writes that end inside a block go on to rewrite it; one that starts at the very end of the
  // device begins with that.
  ghost predicate HasLast(dev: VirtioDev, io: IoDesc)
    requires dev.blockSize > 0
  {
    forall k {:trigger Ask(Topic.Geometry, k)} :: Ask(Topic.Geometry, k) ==>
      io.offset == dev.cap || Full(dev.blockSize, io.offset, io.nbytes) < io.nbytes
  }

  // The task of a command came back; `reply` is what its data buffers hold.
  ghost predicate Done(dev: VirtioDev, io: IoDesc, stage: Stage, t: VirtioTask, reply: Bytes)
    reads t, dev.mem, dev, set v | v in t.vbufs :: v.buf
  {
    && Issuable(dev, io) && Built(dev, io, stage, t) && |t.vbufs| >= (if stage == WholeRead then 2 else 3)
    && RespOf(t, stage).buf.Length == RESPONSE_SIZE
    && t.Owned() <= dev.mem.live && io.buf !in dev.mem.live
    && |dev.outring| < OUTRING_SIZE - 1
    && (stage == WholeRead <==> !io.isWrite)
    && (stage == FirstRead ==> io.offset % dev.blockSize != 0)
    && (stage == LastRead || stage == LastWrite ==> HasLast(dev, io))
    && (if Writes(stage) then reply == [] else Hold(DataBufs(t, stage), reply))
  }

  lemma RequestValid(dev: VirtioDev, io: IoDesc)
    requires Issuable(dev, io)
    ensures Startable(dev.cap, RequestOf(io)) && Size(dev.cap, RequestOf(io)) == SizeOf(dev, io)
    ensures Servable(dev, io) ==> ValidRequest(dev.cap, RequestOf(io))
  {
  }

  lemma LenFacts(dev: VirtioDev, io: IoDesc, stage: Stage)
    requires Issuable(dev, io)
    ensures LenOf(dev, io, stage) > 0 || io.offset % dev.blockSize == 0
    ensures io.offset == dev.cap ==> LenOf(dev, io, stage) == 0
  {
    DivisionExact(dev.blockSize, dev.numBlocks, 0);
  }

  lemma DoneFits(dev: VirtioDev, io: IoDesc, stage: Stage, t: VirtioTask, reply: Bytes)
    requires Done(dev, io, stage, t, reply)
    ensures Startable(dev.cap, RequestOf(io))
    ensures ReplyFits(dev.blockSize, dev.cap, RequestOf(io), stage, Some(reply))
  {
    RequestValid(dev, io);
    LenFacts(dev, io, stage);
    var bs, off, n := dev.blockSize, io.offset, LenOf(dev, io, stage);
    DataSizes(bs, off, n, stage);
    if stage == WholeRead { BlocksCover(bs, off, n); }
    if stage == LastRead { LastBlock(dev, io); }
    if !Writes(stage) { DataSpots(dev, io, stage, t); }
  }

  lemma DataSpots(dev: VirtioDev, io: IoDesc, stage: Stage, t: VirtioTask)
    requires dev.Valid() && io.offset <= dev.cap && Built(dev, io, stage, t)
    ensures |t.vbufs| >= 2
    ensures Spots(DataBufs(t, stage)) == Data(dev.blockSize, io.offset, LenOf(dev, io, stage), stage)
  {
    var d := Data(dev.blockSize, io.offset, LenOf(dev, io, stage), stage);
    var bufs := DataBufs(t, stage);
    var first := if Writes(stage) then 1 else 2;
    forall k | 0 <= k < |d| ensures |bufs| == |d| && SpotOf(bufs[k]) == d[k] {
      assert SpotOf(t.vbufs[first + k]) == Spots(t.vbufs)[first + k];
    }
    assert |bufs| == |d|;
  }

  ghost function Answer(dev: VirtioDev, io: IoDesc, stage: Stage, t: VirtioTask, reply: Bytes): (r: Option<Bytes>)
    requires Done(dev, io, stage, t, reply)
    reads t, dev.mem, dev, io.buf, set v | v in t.vbufs :: v.buf
    ensures Startable(dev.cap, RequestOf(io)) && ReplyFits(dev.blockSize, dev.cap, RequestOf(io), stage, r)
  {
    DoneFits(dev, io, stage, t, reply);
    if Good(RespOf(t, stage)) then Some(reply) else None
  }

  // What the callback of the stage is to do.
  ghost function Reaction(dev: VirtioDev, io: IoDesc, stage: Stage, t: VirtioTask, reply: Bytes): (o: Outcome)
    requires Done(dev, io, stage, t, reply)
    reads t, dev.mem, dev, io, io.buf, set v | v in t.vbufs :: v.buf
    ensures Servable(dev, io) ==> !o.Abort?
  {
    OnReply(dev.blockSize, dev.cap, RequestOf(io), stage, io.retval, Answer(dev, io, stage, t, reply))
  }

  // A task carries a command of the request, so far as its address field can say which.
  ghost predicate Carries(dev: VirtioDev, io: IoDesc, sub: Submission, t: VirtioTask)
    requires dev.Valid() && io.offset <= dev.cap
    reads t, set v | v in t.vbufs :: v.buf
  {
    forall k {:trigger Ask(Topic.Orders, k)} :: Ask(Topic.Orders, k) ==>
      |t.vbufs| >= 2 && Built(dev, io, sub.stage, t) && Tells(dev.blockSize, sub.stage, t, Cdb.OnWire(dev.numBlocks, sub.cmd))
  }

  // A new task is on the ring; its memory is new and is all that is new.
  twostate predicate Sent(dev: VirtioDev, io: IoDesc, sub: Submission, given: set<object>, new t: VirtioTask)
    requires dev.Valid() && io.offset <= dev.cap
    reads *
  {
    && dev.submitted == old(dev.submitted) + [Ticket(t, sub.stage, io)]
    && fresh(t) && fresh(t.Owned()) && Carries(dev, io, sub, t)
    && dev.mem.live == given + t.Owned()
  }

  // The request is in the output ring, nothing was put on the ring.
  twostate predicate Pushed(dev: VirtioDev, io: IoDesc)
    reads dev
  {
    && dev.outring == old(dev.outring) + [io] && dev.submitted == old(dev.submitted)
    && dev.outfd == old(dev.outfd) + if 0 < dev.eventHighWm <= |dev.outring| then 1 else 0
  }

  // Exactly one of the two has happened, the finished task was freed, and no memory is lost.  A
  // request that is to go on is given up only if something was refused meanwhile.
  twostate predicate Concluded(dev: VirtioDev, io: IoDesc, task: VirtioTask, o: Outcome)
    requires dev.Valid() && io.offset <= dev.cap
    reads *
  {
    var left := old(dev.mem.live) - old(task.Owned());
    && io.retval == o.retval
    && if o.Submit? && dev.submitted != old(dev.submitted) then
         && |dev.submitted| == |old(dev.submitted)| + 1
         && Sent(dev, io, o.sub, left, dev.submitted[|old(dev.submitted)|].task)
         && dev.outring == old(dev.outring) && dev.outfd == old(dev.outfd) && Granted(dev.mem, true)
       else
         Pushed(dev, io) && dev.mem.live == left && Granted(dev.mem, o.Finish?)
  }

  // -------------------------------------------------------------------------
  // Small steps
  // -------------------------------------------------------------------------

  method Memcpy(dst: array<Byte>, at: nat, src: array<Byte>, from: nat, n: nat)
    requires dst != src && at + n <= dst.Length && from + n <= src.Length
    modifies dst
    ensures dst[..] == Splice(old(dst[..]), at, src[from..from + n])
  {
    forall i | 0 <= i < n { dst[at + i] := src[from + i]; }
  }

  method PushToOutring(dev: VirtioDev, io: IoDesc)
    requires |dev.outring| < OUTRING_SIZE - 1
    modifies dev`outring, dev`outfd
    ensures Pushed(dev, io)
  {
    dev.outring := dev.outring + [io];
    if dev.eventHighWm > 0 && dev.eventHighWm <= |dev.outring| {
      dev.outfd := dev.outfd + 1;
    }
  }

  // vring_submit_task, which fails when the ring has no room.
  method SubmitTask(dev: VirtioDev, task: VirtioTask, stage: Stage, io: IoDesc) returns (rc: int)
    modifies dev`submitted, dev.mem`refused
    ensures Granted(dev.mem, rc == 0)
    ensures rc == 0 ==> dev.submitted == old(dev.submitted) + [Ticket(task, stage, io)]
    ensures rc != 0 ==> dev.submitted == old(dev.submitted)
  {
    if * {
      rc := -1;
      dev.mem.refused := dev.mem.refused + 1;
    } else {
      dev.submitted := dev.submitted + [Ticket(task, stage, io)];
      rc := 0;
    }
  }

  // -------------------------------------------------------------------------
  // What a task tells the device
  // -------------------------------------------------------------------------

  // The request buffer and the data buffers say the command that was meant.
  lemma TaskTells(dev: VirtioDev, io: IoDesc, stage: Stage, t: VirtioTask, req0: Bytes, cmd: Command)
    requires Issuable(dev, io) && Built(dev, io, stage, t) && |t.vbufs| >= 2 && |req0| == Cdb.REQUEST_SIZE && Cdb.Blank(req0[2..8])
    requires (cmd.Write? <==> Writes(stage)) && (stage == WholeRead <==> !io.isWrite)
    requires Contents(t.vbufs[0]) == Cdb.Request(dev.numBlocks, req0, cmd.blk,
               BlockCount(dev.blockSize, io.offset, LenOf(dev, io, stage), stage), cmd.Write?)
    requires cmd.Read? ==> cmd.count == BlockCount(dev.blockSize, io.offset, LenOf(dev, io, stage), stage)
    requires cmd.Write? ==> Hold(DataBufs(t, stage), cmd.payload)
    ensures Tells(dev.blockSize, stage, t, Cdb.OnWire(dev.numBlocks, cmd))
  {
    var count := BlockCount(dev.blockSize, io.offset, LenOf(dev, io, stage), stage);
    Cdb.RequestDecodes(dev.numBlocks, req0, cmd.blk, count, cmd.Write?);
    DataSpots(dev, io, stage, t);
    LenFacts(dev, io, stage);
    DataSizes(dev.blockSize, io.offset, LenOf(dev, io, stage), stage);
  }

  lemma HoldOne(v: VBuf, data: Bytes)
    requires v.base + v.size <= v.buf.Length && Contents(v) == data
    ensures Hold([v], data)
  {
    assert Spots([v])[0] == SpotOf(v);
    assert SizeBefore(Spots([v]), 1) == v.size;
    assert data[0..v.size] == data;
  }

  lemma HoldTwo(u: VBuf, v: VBuf, a: Bytes, b: Bytes)
    requires u.base + u.size <= u.buf.Length && Contents(u) == a
    requires v.base + v.size <= v.buf.Length && Contents(v) == b
    ensures Hold([u, v], a + b)
  {
    var s := Spots([u, v]);
    assert SizeBefore(s, 0) == 0;
    assert s[0] == SpotOf(u) && s[1] == SpotOf(v);
    assert SizeBefore(s, 1) == u.size && SizeBefore(s, 2) == u.size + v.size;
    assert (a + b)[0..u.size] == a && (a + b)[u.size..u.size + v.size] == b;
  }

  // The end of a callback that tried to go on with a new task; without success, the request
  // is over.
  method WriteDone(dev: VirtioDev, task: VirtioTask, newTask: VirtioTask?, io: IoDesc, ok: bool, ghost o: Outcome)
    requires ok ==> newTask != null && dev.Valid() && io.offset <= dev.cap && o.Submit? && Carries(dev, io, o.sub, newTask)
    requires task.Valid() && task.Owned() <= dev.mem.live && |dev.outring| < OUTRING_SIZE - 1
    requires newTask != null ==> newTask.Valid() && newTask.Owned() <= dev.mem.live && newTask.Owned() !! task.Owned()
    modifies dev`outring, dev`outfd, dev.mem`live
    ensures ok ==> Carries(dev, io, o.sub, newTask)
    ensures ok ==> dev.outring == old(dev.outring) && dev.outfd == old(dev.outfd)
    ensures !ok ==> Pushed(dev, io)
    ensures dev.mem.live == old(dev.mem.live) - task.Owned()
                            - if ok || newTask == null then {} else newTask.Owned()
  {
    if ok {
      task.Destroy(dev.mem);
    } else {
      PushToOutring(dev, io);
      task.Destroy(dev.mem);
      if newTask != null {
        newTask.Destroy(dev.mem);
      }
    }
  }

  // -------------------------------------------------------------------------
  // The last partial block has been written
  // -------------------------------------------------------------------------

  method BlkWriteLastBlockDone(dev: VirtioDev, task: VirtioTask, io: IoDesc)
    requires Done(dev, io, LastWrite, task, [])
    modifies io`retval, dev`outring, dev`outfd, dev.mem`live
    ensures Concluded(dev, io, task, old(Reaction(dev, io, LastWrite, task, [])))
  {
    RequestValid(dev, io);
    LastBlock(dev, io);
    assert Spots(task.vbufs)[1] == Part(dev.blockSize, false, 0, LastOf(dev, io));
    var resp := task.vbufs[2];
    if Good(resp) {
      var vbuf := task.vbufs[1];
      if io.retval < 0 {
        io.retval := vbuf.to - vbuf.from;
      } else {
        io.retval := io.retval + (vbuf.to - vbuf.from);
      }
    }
    PushToOutring(dev, io);
    task.Destroy(dev.mem);
  }

  // -------------------------------------------------------------------------
  // The last block has been read: overwrite its start and write it back
  // -------------------------------------------------------------------------

  // The memory of a task under construction.
  twostate predicate Growing(mem: Memory, new t: VirtioTask?)
    reads mem, t
  {
    && mem.live == old(mem.live) + (if t == null then {} else t.Owned())
    && (t != null ==> fresh(t) && fresh(t.Owned()) && t.Valid())
  }

  function OwnBuf(buf: array<Byte>, response: bool, from: nat, to: nat): VBuf {
    VBuf(buf, 0, buf.Length, response, true, from, to)
  }

  function WholeBuf(buf: array<Byte>, response: bool): VBuf { OwnBuf(buf, response, 0, buf.Length) }

  // How much of its last block a write overwrites.
  function LastOf(dev: VirtioDev, io: IoDesc): nat
    requires dev.blockSize > 0
  {
    if io.offset == dev.cap then 0 else (io.offset + io.nbytes) % dev.blockSize
  }

  lemma LastBlock(dev: VirtioDev, io: IoDesc)
    requires Issuable(dev, io) && io.isWrite && HasLast(dev, io)
    ensures Startable(dev.cap, RequestOf(io)) && Last(dev.blockSize, dev.cap, RequestOf(io)) == LastOf(dev, io)
    ensures LastOf(dev, io) <= io.nbytes && LastOf(dev, io) < dev.blockSize
    ensures Data(dev.blockSize, io.offset, LenOf(dev, io, LastRead), LastRead) == [Part(dev.blockSize, true, 0, LastOf(dev, io))]
    ensures Data(dev.blockSize, io.offset, LenOf(dev, io, LastWrite), LastWrite) == [Part(dev.blockSize, false, 0, LastOf(dev, io))]
  {
    assert Ask(Topic.Geometry, 0);
    RequestValid(dev, io);
    if io.offset == dev.cap { LenFacts(dev, io, LastRead); } else { RangeFacts(dev.blockSize, io.offset, io.nbytes); }
  }

  lemma OneBlockRead(dev: VirtioDev, io: IoDesc, stage: Stage, task: VirtioTask, reply: Bytes)
    requires Done(dev, io, stage, task, reply) && (stage == LastRead || stage == FirstRead)
    ensures |task.vbufs| == 3 && |reply| == dev.blockSize && task.vbufs[2].buf[..] == reply
    ensures var part := Data(dev.blockSize, io.offset, LenOf(dev, io, stage), stage)[0];
            task.vbufs[2] == OwnBuf(task.vbufs[2].buf, true, part.from, part.to)
  {
    var d := Data(dev.blockSize, io.offset, LenOf(dev, io, stage), stage);
    assert Spots(task.vbufs)[2] == d[0];
    HeldOne(task.vbufs[2], DataBufs(task, stage), reply);
  }

  // What the last write puts on the disk.
  ghost function LastPayload(io: IoDesc, vbuf: VBuf): Bytes
    requires vbuf.to <= io.nbytes <= io.buf.Length && vbuf.to <= vbuf.buf.Length
    reads io.buf, vbuf.buf
  {
    io.buf[io.nbytes - vbuf.to..io.nbytes] + vbuf.buf[vbuf.to..]
  }

  lemma LastPayloadIs(bs: nat, cap: nat, io: IoDesc, vbuf: VBuf, reply: Bytes)
    requires bs > 0 && io.isWrite && io.nbytes <= io.buf.Length && Startable(cap, RequestOf(io))
    requires |reply| == bs && vbuf.buf[..] == reply && vbuf.to == Last(bs, cap, RequestOf(io)) <= io.nbytes && vbuf.to <= bs
    ensures LastPayload(io, vbuf)
         == if io.offset == cap then reply else MergedLast(bs, io.offset, io.buf[..io.nbytes], reply)
  {
    var n, delta := io.nbytes, vbuf.to;
    assert io.buf[..n][n - delta..] == io.buf[n - delta..n];
    assert vbuf.buf[delta..] == reply[delta..];
  }

  lemma LastReply(bs: nat, cap: nat, r: Request, retval: int, block: Bytes, payload: Bytes)
    requires bs > 0 && r.WriteReq? && Startable(cap, r) && ReplyFits(bs, cap, r, LastRead, Some(block))
    requires payload == if r.off == cap then block else MergedLast(bs, r.off, r.buf, block)
    ensures OnReply(bs, cap, r, LastRead, retval, Some(block))
         == Submit(Submission(LastWrite, Write(BlockAt(bs, r.off + |r.buf|), payload)), retval)
  {
  }

  lemma LastReaction(dev: VirtioDev, io: IoDesc, task: VirtioTask, reply: Bytes, payload: Bytes)
    requires Done(dev, io, LastRead, task, reply) && Good(task.vbufs[1]) && Startable(dev.cap, RequestOf(io))
    requires ReplyFits(dev.blockSize, dev.cap, RequestOf(io), LastRead, Some(reply))
    requires payload == if io.offset == dev.cap then reply else MergedLast(dev.blockSize, io.offset, io.buf[..io.nbytes], reply)
    ensures Reaction(dev, io, LastRead, task, reply)
         == Submit(Submission(LastWrite, Write(BlockOf(dev, io.offset + io.nbytes), payload)), io.retval)
  {
    LastReply(dev.blockSize, dev.cap, RequestOf(io), io.retval, reply, payload);
  }

  lemma LastOutcome(dev: VirtioDev, io: IoDesc, task: VirtioTask, reply: Bytes, payload: Bytes)
    requires Done(dev, io, LastRead, task, reply) && Good(task.vbufs[1])
    requires OneBlock(dev, io, task) && |reply| == dev.blockSize && task.vbufs[2].buf[..] == reply
    requires task.vbufs[2].to == LastOf(dev, io) <= io.nbytes && LastOf(dev, io) < dev.blockSize
    requires payload == LastPayload(io, task.vbufs[2])
    ensures Reaction(dev, io, LastRead, task, reply)
         == Submit(Submission(LastWrite, Write(BlockOf(dev, io.offset + io.nbytes), payload)), io.retval)
  {
    DoneFits(dev, io, LastRead, task, reply);
    LastBlock(dev, io);
    LastPayloadIs(dev.blockSize, dev.cap, io, task.vbufs[2], reply);
    LastReaction(dev, io, task, reply, payload);
  }

  lemma HeldOne(v: VBuf, vs: seq<VBuf>, data: Bytes)
    requires vs == [v] && v.base + v.size <= v.buf.Length && Hold(vs, data)
    ensures data == Contents(v)
  {
    assert Spots(vs)[0] == SpotOf(v);
    assert SizeBefore(Spots(vs), 1) == v.size;
    assert PieceIn(vs, 0, data);
  }

  // A new task that holds one zeroed buffer for the request.
  method NewTask(dev: VirtioDev, limit: nat) returns (t: VirtioTask?, req: array?<Byte>)
    requires limit > 0
    modifies dev.mem
    ensures Granted(dev.mem, req != null)
    ensures Growing(dev.mem, t)
    ensures req != null ==>
      && t != null && t.limit == limit && t.vbufs == [WholeBuf(req, false)]
      && req.Length == Cdb.REQUEST_SIZE && req[..] == Zeros(Cdb.REQUEST_SIZE) && fresh(req)
  {
    req := null;
    t := VirtioTask.Create(dev.mem, limit);
    if t != null {
      req := t.AllocBuf(dev.mem, Cdb.REQUEST_SIZE, false, true);
    }
  }

  // The request buffer of a task holds the given command.
  ghost predicate Asks(dev: VirtioDev, req: array<Byte>, blk: nat, count: nat, write: bool)
    reads req
  {
    && req.Length == Cdb.REQUEST_SIZE
    && req[..] == Cdb.Request(dev.numBlocks, Zeros(Cdb.REQUEST_SIZE), blk, count, write)
  }

  // buf becomes the block in vbuf with its first bytes overwritten by the end of the request.
  method MergeLast(buf: array<Byte>, vbuf: VBuf, io: IoDesc)
    requires vbuf == OwnBuf(vbuf.buf, true, 0, vbuf.to) && vbuf.to <= vbuf.size == buf.Length
    requires vbuf.to <= io.nbytes <= io.buf.Length && buf != vbuf.buf && buf != io.buf
    modifies buf
    ensures buf[..] == io.buf[io.nbytes - vbuf.to..io.nbytes] + vbuf.buf[vbuf.to..]
  {
    var delta := vbuf.to - vbuf.from;
    Memcpy(buf, 0, vbuf.buf, 0, vbuf.size);
    Memcpy(buf, 0, io.buf, io.nbytes - delta, delta);
  }

  // A new task with a buffer for the request and the overwritten last block.
  method NewLastBlock(dev: VirtioDev, io: IoDesc, vbuf: VBuf, ghost payload: Bytes)
    returns (t: VirtioTask?, req: array?<Byte>, buf: array?<Byte>)
    requires vbuf == OwnBuf(vbuf.buf, true, 0, vbuf.to) && vbuf.to <= vbuf.size == dev.blockSize
    requires vbuf.to <= io.nbytes <= io.buf.Length && payload == LastPayload(io, vbuf)
    modifies dev.mem
    ensures Granted(dev.mem, buf != null)
    ensures Growing(dev.mem, t)
    ensures buf != null ==>
      && t != null && req != null && t.limit == 4 && fresh(req) && fresh(buf) && buf != req
      && t.vbufs == [WholeBuf(req, false), OwnBuf(buf, false, 0, vbuf.to)]
      && req.Length == Cdb.REQUEST_SIZE && req[..] == Zeros(Cdb.REQUEST_SIZE) && buf.Length == dev.blockSize
      && buf[..] == payload
  {
    buf := null;
    t, req := NewTask(dev, 4);
    if req != null {
      buf := t.AllocBufPart(dev.mem, dev.blockSize, false, false, vbuf.from, vbuf.to);
      if buf != null {
        MergeLast(buf, vbuf, io);
      }
    }
  }

  // A task with one whole block to write.
  method MakeWriteLast(dev: VirtioDev, io: IoDesc, vbuf: VBuf, blkOffset: nat, ghost payload: Bytes)
    returns (t: VirtioTask?, req: array?<Byte>, buf: array?<Byte>, resp: array?<Byte>)
    requires vbuf == OwnBuf(vbuf.buf, true, 0, vbuf.to) && vbuf.to <= vbuf.size == dev.blockSize
    requires vbuf.to <= io.nbytes <= io.buf.Length && payload == LastPayload(io, vbuf)
    modifies dev.mem
    ensures Granted(dev.mem, resp != null)
    ensures Growing(dev.mem, t)
    ensures resp != null ==>
      && t != null && req != null && buf != null
      && t.vbufs == [WholeBuf(req, false), OwnBuf(buf, false, 0, vbuf.to), WholeBuf(resp, true)]
      && Asks(dev, req, blkOffset, 1, true) && buf.Length == dev.blockSize && resp.Length == RESPONSE_SIZE
      && buf[..] == payload
  {
    resp := null;
    t, req, buf := NewLastBlock(dev, io, vbuf, payload);
    if buf != null {
      Cdb.CreateRwCdb(dev.numBlocks, req, blkOffset, 1, true);
      resp := t.AllocBuf(dev.mem, RESPONSE_SIZE, true, true);
    }
  }

  lemma WriteLastBuilt(dev: VirtioDev, io: IoDesc, t: VirtioTask, req: array<Byte>, buf: array<Byte>, resp: array<Byte>,
                       delta: nat)
    requires Issuable(dev, io) && t.Valid() && io.isWrite
    requires t.vbufs == [WholeBuf(req, false), OwnBuf(buf, false, 0, delta), WholeBuf(resp, true)]
    requires req.Length == Cdb.REQUEST_SIZE && resp.Length == RESPONSE_SIZE
    requires buf.Length == dev.blockSize && HasLast(dev, io) && delta == LastOf(dev, io)
    ensures Built(dev, io, LastWrite, t)
  {
    LastBlock(dev, io);
    assert Spots(t.vbufs) == Plan(dev.blockSize, io.offset, LenOf(dev, io, LastWrite), LastWrite);
  }

  lemma WriteLastTells(dev: VirtioDev, io: IoDesc, t: VirtioTask, req: array<Byte>, buf: array<Byte>, resp: array<Byte>,
                       blk: nat, delta: nat)
    requires Issuable(dev, io) && t.Valid() && io.isWrite
    requires t.vbufs == [WholeBuf(req, false), OwnBuf(buf, false, 0, delta), WholeBuf(resp, true)]
    requires Asks(dev, req, blk, 1, true) && resp.Length == RESPONSE_SIZE
    requires buf.Length == dev.blockSize && HasLast(dev, io) && delta == LastOf(dev, io)
    ensures Carries(dev, io, Submission(LastWrite, Write(blk, buf[..])), t)
  {
    WriteLastBuilt(dev, io, t, req, buf, resp, delta);
    HoldOne(t.vbufs[1], buf[..]);
    assert DataBufs(t, LastWrite) == [t.vbufs[1]];
    TaskTells(dev, io, LastWrite, t, Zeros(Cdb.REQUEST_SIZE), Write(blk, buf[..]));
  }

  method TryWriteLast(dev: VirtioDev, vbuf: VBuf, io: IoDesc, ghost payload: Bytes) returns (newTask: VirtioTask?, ok: bool)
    requires Issuable(dev, io) && io.isWrite && HasLast(dev, io)
    requires vbuf == OwnBuf(vbuf.buf, true, 0, LastOf(dev, io)) && vbuf.size == dev.blockSize
    requires vbuf.to <= io.nbytes && payload == LastPayload(io, vbuf)
    modifies dev`submitted, dev.mem
    ensures Granted(dev.mem, ok)
    ensures Growing(dev.mem, newTask)
    ensures !ok ==> dev.submitted == old(dev.submitted)
    ensures ok ==> newTask != null && Sent(dev, io,
      Submission(LastWrite, Write(BlockOf(dev, io.offset + io.nbytes), payload)),
      old(dev.mem.live), newTask)
  {
    var blkOffset := BlockOf(dev, io.offset + io.nbytes);
    var req, buf, resp;
    newTask, req, buf, resp := MakeWriteLast(dev, io, vbuf, blkOffset, payload);
    ok := false;
    if resp != null {
      WriteLastTells(dev, io, newTask, req, buf, resp, blkOffset, vbuf.to);
      var rc := SubmitTask(dev, newTask, LastWrite, io);
      ok := rc == 0;
    }
  }

  // A finished one-block read: the state that its callback works on, arithmetic left out.
  ghost predicate OneBlock(dev: VirtioDev, io: IoDesc, task: VirtioTask)
    reads task, dev, dev.mem
  {
    && Issuable(dev, io) && io.isWrite && task.Valid() && task.Owned() <= dev.mem.live
    && |dev.outring| < OUTRING_SIZE - 1
    && |task.vbufs| == 3 && task.vbufs[1].buf.Length == RESPONSE_SIZE
    && task.vbufs[2] == OwnBuf(task.vbufs[2].buf, true, task.vbufs[2].from, task.vbufs[2].to)
    && task.vbufs[2].size == dev.blockSize
  }

  method RewriteLast(dev: VirtioDev, task: VirtioTask, io: IoDesc, ghost o: Outcome)
    requires OneBlock(dev, io, task) && HasLast(dev, io)
    requires task.vbufs[2].from == 0 && task.vbufs[2].to == LastOf(dev, io) <= io.nbytes
    requires o.retval == io.retval
    requires if Good(task.vbufs[1]) then
               o.Submit? && o.sub == Submission(LastWrite, Write(BlockOf(dev, io.offset + io.nbytes),
                 LastPayload(io, task.vbufs[2])))
             else o.Finish?
    modifies dev`submitted, dev`outring, dev`outfd, dev.mem
    ensures Concluded(dev, io, task, o)
  {
    var newTask: VirtioTask? := null;
    var ok := false;
    if Good(task.vbufs[1]) {
      newTask, ok := TryWriteLast(dev, task.vbufs[2], io, LastPayload(io, task.vbufs[2]));
    }
    WriteDone(dev, task, newTask, io, ok, o);
  }

  lemma LastGeometry(dev: VirtioDev, io: IoDesc, task: VirtioTask, reply: Bytes)
    requires Done(dev, io, LastRead, task, reply)
    ensures OneBlock(dev, io, task) && |reply| == dev.blockSize && task.vbufs[2].buf[..] == reply
    ensures task.vbufs[2].from == 0 && task.vbufs[2].to == LastOf(dev, io) <= io.nbytes && LastOf(dev, io) < dev.blockSize
  {
    LastBlock(dev, io);
    OneBlockRead(dev, io, LastRead, task, reply);
  }

  method BlkReadLastBlockDone(dev: VirtioDev, task: VirtioTask, io: IoDesc, ghost reply: Bytes)
    requires Done(dev, io, LastRead, task, reply)
    modifies dev`submitted, dev`outring, dev`outfd, dev.mem
    ensures Concluded(dev, io, task, old(Reaction(dev, io, LastRead, task, reply)))
  {
    LastGeometry(dev, io, task, reply);
    if Good(task.vbufs[1]) { LastOutcome(dev, io, task, reply, LastPayload(io, task.vbufs[2])); }
    RewriteLast(dev, task, io, Reaction(dev, io, LastRead, task, reply));
  }

  // -------------------------------------------------------------------------
  // The first block has been read: overwrite its end and write it with the whole blocks
  // -------------------------------------------------------------------------

  lemma WholeBytes(bs: nat, m: nat)
    requires bs > 0
    ensures m / bs * bs <= m
  {
    assert m == bs * (m / bs) + m % bs;
  }

  lemma FirstBlock(dev: VirtioDev, io: IoDesc)
    requires Issuable(dev, io) && io.isWrite && io.offset % dev.blockSize != 0
    ensures var bs, off, n := dev.blockSize, io.offset, io.nbytes;
            var resid, h := off % bs, Head(bs, off, n);
            && io.offset < dev.cap && LenOf(dev, io, FirstRead) == LenOf(dev, io, FullWrite) == n
            && resid + h <= bs && 0 < h <= n
            && Whole(bs, off, n) == (if h < n then (n - h) / bs else 0)
            && h + Whole(bs, off, n) * bs <= n
  {
    LenFacts(dev, io, FirstRead);
    DivisionExact(dev.blockSize, dev.numBlocks, 0);
    WholeBytes(dev.blockSize, io.nbytes - Head(dev.blockSize, io.offset, io.nbytes));
  }

  lemma MergedFirstParts(bs: nat, off: nat, buf: Bytes, block: Bytes, resid: nat, h: nat, wb: nat)
    requires bs > 0 && |block| == bs && |buf| > 0
    requires resid == off % bs && h == Head(bs, off, |buf|) && wb == Whole(bs, off, |buf|) * bs
    requires resid + h <= bs && h + wb <= |buf|
    ensures MergedFirst(bs, off, buf, block) == (block[..resid] + buf[..h] + block[resid + h..]) + buf[h..h + wb]
  {
  }

  lemma FirstReadReaction(dev: VirtioDev, io: IoDesc, task: VirtioTask, reply: Bytes)
    requires Done(dev, io, FirstRead, task, reply) && Good(task.vbufs[1]) && |reply| == dev.blockSize
    ensures Reaction(dev, io, FirstRead, task, reply)
         == Submit(Submission(FullWrite, Write(BlockOf(dev, io.offset),
              MergedFirst(dev.blockSize, io.offset, io.buf[..io.nbytes], reply))), io.retval)
  {
  }

  method MergeFirst(buf: array<Byte>, vbuf: VBuf, io: IoDesc)
    requires vbuf == OwnBuf(vbuf.buf, true, vbuf.from, vbuf.to) && vbuf.from <= vbuf.to <= vbuf.size == buf.Length
    requires vbuf.to - vbuf.from <= io.nbytes <= io.buf.Length && buf != vbuf.buf && buf != io.buf
    modifies buf
    ensures buf[..] == Merged(io, vbuf)
  {
    Memcpy(buf, 0, vbuf.buf, 0, vbuf.size);
    Memcpy(buf, vbuf.from, io.buf, 0, vbuf.to - vbuf.from);
  }

  // The buffer list of `size` bytes of the user after the first `delta` bytes.
  function Rest(io: IoDesc, delta: nat, size: nat): seq<VBuf> {
    if delta < io.nbytes then [VBuf(io.buf, delta, size, false, false, 0, size)] else []
  }

  // The buffers for the request and for the overwritten first block.
  function FirstTwo(req: array<Byte>, buf: array<Byte>, from: nat, to: nat): seq<VBuf> {
    [WholeBuf(req, false), OwnBuf(buf, false, from, to)]
  }

  // A new task with a buffer for the request and the overwritten first block.
  method NewFirstBlock(dev: VirtioDev, io: IoDesc, vbuf: VBuf, ghost block: Bytes)
    returns (t: VirtioTask?, req: array?<Byte>, buf: array?<Byte>)
    requires vbuf == OwnBuf(vbuf.buf, true, vbuf.from, vbuf.to) && vbuf.from <= vbuf.to <= vbuf.size == dev.blockSize
    requires vbuf.to - vbuf.from <= io.nbytes <= io.buf.Length && IsMerged(io, vbuf, block)
    modifies dev.mem
    ensures Granted(dev.mem, buf != null)
    ensures Growing(dev.mem, t)
    ensures buf != null ==>
      && t != null && req != null && t.limit == 4 && fresh(req) && fresh(buf)
      && |t.vbufs| == 2 && ListIs(t, FirstTwo(req, buf, vbuf.from, vbuf.to))
      && req.Length == Cdb.REQUEST_SIZE && req[..] == Zeros(Cdb.REQUEST_SIZE) && buf.Length == dev.blockSize
      && buf[..] == block && buf != req
  {
    buf := null;
    t, req := NewTask(dev, 4);
    if req != null {
      buf := t.AllocBufPart(dev.mem, dev.blockSize, false, false, vbuf.from, vbuf.to);
      if buf != null {
        assert Ask(Topic.Splicing, 0);
        MergeFirst(buf, vbuf, io);
      }
    }
  }

  // If the request goes on after the first block then add more.
  method AddRest(t: VirtioTask, io: IoDesc, delta: nat, size: nat)
    requires t.Valid() && |t.vbufs| < t.limit && delta <= io.nbytes && delta + size <= io.buf.Length
    modifies t`vbufs
    ensures t.Valid() && t.Owned() == old(t.Owned())
    ensures t.vbufs == old(t.vbufs) + Rest(io, delta, size)
  {
    if delta < io.nbytes {
      t.AddBuf(io.buf, delta, size, false);
    }
  }

  ghost predicate ListIs(t: VirtioTask, vs: seq<VBuf>)
    reads t
  {
    forall k {:trigger Ask(Topic.Buffers, k)} :: Ask(Topic.Buffers, k) ==> t.vbufs == vs
  }

  // The buffers and the command of the write after a FirstRead.
  ghost predicate FirstMade(dev: VirtioDev, io: IoDesc, t: VirtioTask, req: array<Byte>, buf: array<Byte>, resp: array<Byte>,
                            from: nat, to: nat, size: nat, blk: nat, count: nat, block: Bytes)
    requires from <= to
    reads t, req, buf
  {
    forall k {:trigger Ask(Topic.Buffers, k)} :: Ask(Topic.Buffers, k) ==>
      && ListIs(t, FirstTwo(req, buf, from, to) + Rest(io, to - from, size) + [WholeBuf(resp, true)])
      && Asks(dev, req, blk, count, true)
      && buf.Length == dev.blockSize && resp.Length == RESPONSE_SIZE && buf[..] == block
  }

  lemma FirstIsMade(dev: VirtioDev, io: IoDesc, t: VirtioTask, req: array<Byte>, buf: array<Byte>, resp: array<Byte>,
                    from: nat, to: nat, size: nat, blk: nat, count: nat, block: Bytes, before: seq<VBuf>)
    requires from <= to && before == FirstTwo(req, buf, from, to)
    requires ListIs(t, before + Rest(io, to - from, size) + [WholeBuf(resp, true)]) && Asks(dev, req, blk, count, true)
    requires buf.Length == dev.blockSize && resp.Length == RESPONSE_SIZE && buf[..] == block
    ensures FirstMade(dev, io, t, req, buf, resp, from, to, size, blk, count, block)
  {
  }

  // The rest of the buffers: `size` bytes of the user's, the command, the response.
  method AddTail(dev: VirtioDev, io: IoDesc, t: VirtioTask, req: array<Byte>, delta: nat, size: nat, blkOffset: nat, nblk: nat,
                 ghost before: seq<VBuf>, ghost given: set<object>)
    returns (resp: array?<Byte>)
    requires t.Valid() && dev.mem.live == given + t.Owned() && |t.vbufs| + 2 <= t.limit && ListIs(t, before)
    requires delta <= io.nbytes && delta + size <= io.buf.Length
    requires req.Length == Cdb.REQUEST_SIZE && req[..] == Zeros(Cdb.REQUEST_SIZE)
    modifies req, t`vbufs, dev.mem
    ensures Granted(dev.mem, resp != null)
    ensures t.Valid() && old(t.Owned()) <= t.Owned() && fresh(t.Owned() - old(t.Owned()))
    ensures dev.mem.live == given + t.Owned()
    ensures resp != null ==>
      && fresh(resp) && ListIs(t, before + Rest(io, delta, size) + [WholeBuf(resp, true)])
      && Asks(dev, req, blkOffset, nblk, true) && resp.Length == RESPONSE_SIZE
  {
    assert Ask(Topic.Buffers, 0);
    AddRest(t, io, delta, size);
    Cdb.CreateRwCdb(dev.numBlocks, req, blkOffset, nblk, true);
    resp := t.AllocBuf(dev.mem, RESPONSE_SIZE, true, true);
  }

  method FinishWriteFirst(dev: VirtioDev, io: IoDesc, t: VirtioTask, req: array<Byte>, buf: array<Byte>, from: nat, to: nat,
                          size: nat, blkOffset: nat, nblk: nat, ghost block: Bytes, ghost given: set<object>)
    returns (resp: array?<Byte>)
    requires t.Valid() && dev.mem.live == given + t.Owned() && |t.vbufs| + 2 <= t.limit
    requires from <= to && to - from <= io.nbytes && to - from + size <= io.buf.Length
    requires ListIs(t, FirstTwo(req, buf, from, to)) && buf.Length == dev.blockSize && buf[..] == block && buf != req
    requires req.Length == Cdb.REQUEST_SIZE && req[..] == Zeros(Cdb.REQUEST_SIZE)
    modifies req, t`vbufs, dev.mem
    ensures Granted(dev.mem, resp != null)
    ensures t.Valid() && old(t.Owned()) <= t.Owned() && fresh(t.Owned() - old(t.Owned()))
    ensures dev.mem.live == given + t.Owned()
    ensures resp != null ==> FirstMade(dev, io, t, req, buf, resp, from, to, size, blkOffset, nblk, block)
  {
    ghost var before := FirstTwo(req, buf, from, to);
    resp := AddTail(dev, io, t, req, to - from, size, blkOffset, nblk, before, given);
    if resp != null { FirstIsMade(dev, io, t, req, buf, resp, from, to, size, blkOffset, nblk, block, before); }
  }

  method MakeWriteFirst(dev: VirtioDev, io: IoDesc, vbuf: VBuf, blkOffset: nat, nblk: nat, size: nat, ghost block: Bytes)
    returns (t: VirtioTask?, req: array?<Byte>, buf: array?<Byte>, resp: array?<Byte>)
    requires vbuf == OwnBuf(vbuf.buf, true, vbuf.from, vbuf.to) && vbuf.from <= vbuf.to <= vbuf.size == dev.blockSize
    requires vbuf.to - vbuf.from + size <= io.nbytes <= io.buf.Length && IsMerged(io, vbuf, block)
    modifies dev.mem
    ensures Granted(dev.mem, resp != null)
    ensures Growing(dev.mem, t)
    ensures resp != null ==>
      && t != null && req != null && buf != null
      && FirstMade(dev, io, t, req, buf, resp, vbuf.from, vbuf.to, size, blkOffset, nblk + 1, block)
  {
    resp := null;
    t, req, buf := NewFirstBlock(dev, io, vbuf, block);
    if buf != null {
      assert t.Valid() && dev.mem.live == old(dev.mem.live) + t.Owned();
      resp := FinishWriteFirst(dev, io, t, req, buf, vbuf.from, vbuf.to, size, blkOffset, nblk + 1, block, old(dev.mem.live));
    }
  }

  // Number of the block that holds byte x.
  function BlockOf(dev: VirtioDev, x: nat): nat
    requires dev.blockSize > 0
  {
    BlockAt(dev.blockSize, x)
  }

  lemma WriteFirstBuilt(dev: VirtioDev, io: IoDesc, t: VirtioTask, req: array<Byte>, buf: array<Byte>, resp: array<Byte>,
                        from: nat, to: nat, w: nat, wb: nat, blk: nat, block: Bytes)
    requires Issuable(dev, io) && t.Valid() && io.isWrite && from <= to && StartsInside(dev, io, from, to - from, w, wb)
    requires FirstMade(dev, io, t, req, buf, resp, from, to, wb, blk, w + 1, block)
    ensures Built(dev, io, FullWrite, t) && |t.vbufs| >= 3
    ensures t.vbufs[0] == WholeBuf(req, false) && t.vbufs[1] == OwnBuf(buf, false, from, to)
    ensures DataBufs(t, FullWrite) == [t.vbufs[1]] + Rest(io, to - from, wb)
    ensures Asks(dev, req, blk, w + 1, true) && buf[..] == block
  {
    assert Ask(Topic.Geometry, 0) && Ask(Topic.Buffers, 0);
    FirstBlock(dev, io);
    assert Spots(t.vbufs) == Plan(dev.blockSize, io.offset, io.nbytes, FullWrite);
  }

  lemma NothingAfter(dev: VirtioDev, io: IoDesc, resid: nat, h: nat, w: nat, wb: nat)
    requires Issuable(dev, io) && io.isWrite && StartsInside(dev, io, resid, h, w, wb)
    ensures (h == io.nbytes ==> wb == 0) && w + 1 == BlockCount(dev.blockSize, io.offset, LenOf(dev, io, FullWrite), FullWrite)
  {
    assert Ask(Topic.Geometry, 0);
    FirstBlock(dev, io);
  }

  lemma WriteFirstHolds(io: IoDesc, t: VirtioTask, buf: array<Byte>, h: nat, wb: nat, payload: Bytes)
    requires h + wb <= io.nbytes <= io.buf.Length && |t.vbufs| >= 3
    requires t.vbufs[1].buf == buf && t.vbufs[1].base == 0 && t.vbufs[1].size == buf.Length
    requires DataBufs(t, FullWrite) == [t.vbufs[1]] + Rest(io, h, wb)
    requires payload == buf[..] + io.buf[h..h + wb] && (h == io.nbytes ==> wb == 0)
    ensures InBounds(DataBufs(t, FullWrite)) && Hold(DataBufs(t, FullWrite), payload)
  {
    var v := t.vbufs[1];
    assert Contents(v) == buf[..];
    if h < io.nbytes {
      HoldTwo(v, Rest(io, h, wb)[0], buf[..], io.buf[h..h + wb]);
      assert [v] + Rest(io, h, wb) == [v, Rest(io, h, wb)[0]];
    } else {
      assert payload == buf[..];
      HoldOne(v, payload);
      assert [v] + Rest(io, h, wb) == [v];
    }
  }

  lemma WriteFirstTells(dev: VirtioDev, io: IoDesc, t: VirtioTask, req: array<Byte>, blk: nat, count: nat, payload: Bytes)
    requires Issuable(dev, io) && io.isWrite && Built(dev, io, FullWrite, t) && |t.vbufs| >= 2 && t.vbufs[0] == WholeBuf(req, false)
    requires Asks(dev, req, blk, count, true)
    requires count == BlockCount(dev.blockSize, io.offset, LenOf(dev, io, FullWrite), FullWrite)
    requires Hold(DataBufs(t, FullWrite), payload)
    ensures Carries(dev, io, Submission(FullWrite, Write(blk, payload)), t)
  {
    TaskTells(dev, io, FullWrite, t, Zeros(Cdb.REQUEST_SIZE), Write(blk, payload));
  }

  // The first block as read, overwritten from the request.
  ghost function Merged(io: IoDesc, vbuf: VBuf): Bytes
    requires vbuf.from <= vbuf.to <= vbuf.buf.Length && vbuf.to - vbuf.from <= io.nbytes <= io.buf.Length
    reads io.buf, vbuf.buf
  {
    vbuf.buf[..vbuf.from] + io.buf[..vbuf.to - vbuf.from] + vbuf.buf[vbuf.to..]
  }

  ghost predicate IsMerged(io: IoDesc, vbuf: VBuf, block: Bytes)
    requires vbuf.from <= vbuf.to <= vbuf.buf.Length && vbuf.to - vbuf.from <= io.nbytes <= io.buf.Length
    reads io.buf, vbuf.buf
  {
    forall k {:trigger Ask(Topic.Splicing, k)} :: Ask(Topic.Splicing, k) ==> block == Merged(io, vbuf)
  }

  // What the write after a FirstRead puts on the disk.
  ghost function FirstPayload(io: IoDesc, vbuf: VBuf, wb: nat): Bytes
    requires vbuf.from <= vbuf.to <= vbuf.buf.Length && vbuf.to - vbuf.from + wb <= io.nbytes <= io.buf.Length
    reads io.buf, vbuf.buf
  {
    Merged(io, vbuf) + io.buf[vbuf.to - vbuf.from..vbuf.to - vbuf.from + wb]
  }

  // The geometry of a write that starts inside a block.
  ghost predicate StartsInside(dev: VirtioDev, io: IoDesc, resid: nat, h: nat, w: nat, size: nat)
    requires dev.blockSize > 0
  {
    forall k {:trigger Ask(Topic.Geometry, k)} :: Ask(Topic.Geometry, k) ==>
    && io.offset % dev.blockSize == resid && resid != 0
    && h == Head(dev.blockSize, io.offset, io.nbytes) && w == Whole(dev.blockSize, io.offset, io.nbytes)
    && size == w * dev.blockSize && h + size <= io.nbytes
  }

  // The data buffers of that write hold its payload.
  lemma WriteFirstMeans(dev: VirtioDev, io: IoDesc, t: VirtioTask, req: array<Byte>, buf: array<Byte>, resp: array<Byte>,
                        from: nat, to: nat, w: nat, wb: nat, blk: nat, block: Bytes, payload: Bytes)
    requires Issuable(dev, io) && t.Valid() && io.isWrite && from <= to && StartsInside(dev, io, from, to - from, w, wb)
    requires to - from + wb <= io.nbytes && FirstMade(dev, io, t, req, buf, resp, from, to, wb, blk, w + 1, block)
    requires payload == block + io.buf[to - from..to - from + wb] && (to - from == io.nbytes ==> wb == 0)
    ensures Built(dev, io, FullWrite, t) && |t.vbufs| >= 3 && t.vbufs[0] == WholeBuf(req, false)
    ensures Asks(dev, req, blk, w + 1, true)
    ensures InBounds(DataBufs(t, FullWrite)) && Hold(DataBufs(t, FullWrite), payload)
  {
    WriteFirstBuilt(dev, io, t, req, buf, resp, from, to, w, wb, blk, block);
    WriteFirstHolds(io, t, buf, to - from, wb, payload);
  }

  lemma WriteFirstCarries(dev: VirtioDev, io: IoDesc, t: VirtioTask, req: array<Byte>, buf: array<Byte>, resp: array<Byte>,
                          from: nat, to: nat, w: nat, wb: nat, blk: nat, block: Bytes, payload: Bytes)
    requires Issuable(dev, io) && t.Valid() && io.isWrite && from <= to && StartsInside(dev, io, from, to - from, w, wb)
    requires to - from + wb <= io.nbytes && FirstMade(dev, io, t, req, buf, resp, from, to, wb, blk, w + 1, block)
    requires payload == block + io.buf[to - from..to - from + wb]
    ensures Carries(dev, io, Submission(FullWrite, Write(blk, payload)), t)
  {
    NothingAfter(dev, io, from, to - from, w, wb);
    WriteFirstMeans(dev, io, t, req, buf, resp, from, to, w, wb, blk, block, payload);
    WriteFirstTells(dev, io, t, req, blk, w + 1, payload);
  }

  method BuildWriteFirst(dev: VirtioDev, vbuf: VBuf, io: IoDesc, blkOffset: nat, nblk: nat, size: nat,
                       ghost block: Bytes, ghost payload: Bytes)
    returns (t: VirtioTask?, ok: bool)
    requires Issuable(dev, io) && io.isWrite && vbuf.from <= vbuf.to
    requires StartsInside(dev, io, vbuf.from, vbuf.to - vbuf.from, nblk, size)
    requires vbuf == OwnBuf(vbuf.buf, true, vbuf.from, vbuf.to) && vbuf.to <= vbuf.size == dev.blockSize
    requires vbuf.to - vbuf.from + size <= io.nbytes && IsMerged(io, vbuf, block)
    requires payload == block + io.buf[vbuf.to - vbuf.from..vbuf.to - vbuf.from + size]
    modifies dev.mem
    ensures Granted(dev.mem, ok)
    ensures Growing(dev.mem, t)
    ensures ok ==> t != null && Carries(dev, io, Submission(FullWrite, Write(blkOffset, payload)), t)
  {
    var req, buf, resp;
    t, req, buf, resp := MakeWriteFirst(dev, io, vbuf, blkOffset, nblk, size, block);
    ok := resp != null;
    if ok {
      WriteFirstCarries(dev, io, t, req, buf, resp, vbuf.from, vbuf.to, nblk, size, blkOffset, block, payload);
    }
  }

  method TryWriteFirst(dev: VirtioDev, vbuf: VBuf, io: IoDesc, blkOffset: nat, nblk: nat, size: nat,
                       ghost block: Bytes, ghost payload: Bytes)
    returns (newTask: VirtioTask?, ok: bool)
    requires Issuable(dev, io) && io.isWrite && vbuf.from <= vbuf.to
    requires StartsInside(dev, io, vbuf.from, vbuf.to - vbuf.from, nblk, size)
    requires vbuf == OwnBuf(vbuf.buf, true, vbuf.from, vbuf.to) && vbuf.to <= vbuf.size == dev.blockSize
    requires vbuf.to - vbuf.from + size <= io.nbytes && IsMerged(io, vbuf, block)
    requires payload == block + io.buf[vbuf.to - vbuf.from..vbuf.to - vbuf.from + size]
    modifies dev`submitted, dev.mem
    ensures Granted(dev.mem, ok)
    ensures Growing(dev.mem, newTask)
    ensures !ok ==> dev.submitted == old(dev.submitted)
    ensures ok ==> newTask != null && Sent(dev, io,
      Submission(FullWrite, Write(blkOffset, payload)), old(dev.mem.live), newTask)
  {
    newTask, ok := BuildWriteFirst(dev, vbuf, io, blkOffset, nblk, size, block, payload);
    if ok {
      var rc := SubmitTask(dev, newTask, FullWrite, io);
      ok := rc == 0;
    }
  }

  method RewriteFirst(dev: VirtioDev, task: VirtioTask, io: IoDesc, blkOffset: nat, nblk: nat, size: nat, ghost o: Outcome)
    requires OneBlock(dev, io, task)
    requires task.vbufs[2].from <= task.vbufs[2].to <= dev.blockSize
    requires StartsInside(dev, io, task.vbufs[2].from, task.vbufs[2].to - task.vbufs[2].from, nblk, size)
    requires task.vbufs[2].to - task.vbufs[2].from + size <= io.nbytes
    requires task.vbufs[2].to - task.vbufs[2].from <= io.nbytes
    requires o.retval == io.retval
    requires if Good(task.vbufs[1]) then
               o.Submit? && o.sub == Submission(FullWrite, Write(blkOffset,
                 FirstPayload(io, task.vbufs[2], size)))
             else o.Finish?
    modifies dev`submitted, dev`outring, dev`outfd, dev.mem
    ensures Concluded(dev, io, task, o)
  {
    var newTask: VirtioTask? := null;
    var ok := false;
    if Good(task.vbufs[1]) {
      newTask, ok := TryWriteFirst(dev, task.vbufs[2], io, blkOffset, nblk, size,
                                   Merged(io, task.vbufs[2]), FirstPayload(io, task.vbufs[2], size));
    }
    WriteDone(dev, task, newTask, io, ok, o);
  }

  lemma FirstPayloadIs(io: IoDesc, vbuf: VBuf, reply: Bytes, h: nat, wb: nat)
    requires vbuf.to == vbuf.from + h <= vbuf.buf.Length && h + wb <= io.nbytes <= io.buf.Length
    requires vbuf.buf[..] == reply
    ensures FirstPayload(io, vbuf, wb)
         == reply[..vbuf.from] + io.buf[..io.nbytes][..h] + reply[vbuf.from + h..] + io.buf[..io.nbytes][h..h + wb]
  {
    assert io.buf[..io.nbytes][..h] == io.buf[..h];
    assert io.buf[..io.nbytes][h..h + wb] == io.buf[h..h + wb];
  }

  // How many whole blocks follow the first `delta` bytes.
  function RestBlocks(dev: VirtioDev, io: IoDesc, delta: nat): nat
    requires dev.blockSize > 0
  {
    if delta < io.nbytes then (io.nbytes - delta) / dev.blockSize else 0
  }

  lemma FirstGeometry(dev: VirtioDev, io: IoDesc, task: VirtioTask, reply: Bytes) returns (h: nat, w: nat, wb: nat)
    requires Done(dev, io, FirstRead, task, reply)
    ensures OneBlock(dev, io, task) && |reply| == dev.blockSize
    ensures task.vbufs[2].buf[..] == reply && task.vbufs[2].to == task.vbufs[2].from + h <= dev.blockSize
    ensures h + wb <= io.nbytes
    ensures w == RestBlocks(dev, io, h) && wb == w * dev.blockSize
    ensures StartsInside(dev, io, task.vbufs[2].from, h, w, wb)
  {
    FirstBlock(dev, io);
    OneBlockRead(dev, io, FirstRead, task, reply);
    h, w := Head(dev.blockSize, io.offset, io.nbytes), Whole(dev.blockSize, io.offset, io.nbytes);
    wb := w * dev.blockSize;
  }

  lemma FirstOutcome(dev: VirtioDev, io: IoDesc, task: VirtioTask, reply: Bytes, h: nat, w: nat, wb: nat)
    requires Done(dev, io, FirstRead, task, reply) && Good(task.vbufs[1])
    requires OneBlock(dev, io, task) && |reply| == dev.blockSize && h + wb <= io.nbytes
    requires task.vbufs[2].buf[..] == reply && task.vbufs[2].to == task.vbufs[2].from + h <= dev.blockSize
    requires StartsInside(dev, io, task.vbufs[2].from, h, w, wb)
    ensures Reaction(dev, io, FirstRead, task, reply)
         == Submit(Submission(FullWrite, Write(BlockOf(dev, io.offset), FirstPayload(io, task.vbufs[2], wb))), io.retval)
  {
    assert Ask(Topic.Geometry, 0);
    FirstReadReaction(dev, io, task, reply);
    MergedFirstParts(dev.blockSize, io.offset, io.buf[..io.nbytes], reply, task.vbufs[2].from, h, wb);
    FirstPayloadIs(io, task.vbufs[2], reply, h, wb);
  }

  method BlkReadFirstBlockDone(dev: VirtioDev, task: VirtioTask, io: IoDesc, ghost reply: Bytes)
    requires Done(dev, io, FirstRead, task, reply)
    modifies dev`submitted, dev`outring, dev`outfd, dev.mem
    ensures Concluded(dev, io, task, old(Reaction(dev, io, FirstRead, task, reply)))
  {
    ghost var h, w, wb := FirstGeometry(dev, io, task, reply);
    if Good(task.vbufs[1]) { FirstOutcome(dev, io, task, reply, h, w, wb); }
    var delta := task.vbufs[2].to - task.vbufs[2].from;
    var nblk := RestBlocks(dev, io, delta);
    RewriteFirst(dev, task, io, BlockOf(dev, io.offset), nblk, nblk * dev.blockSize,
                 Reaction(dev, io, FirstRead, task, reply));
  }

  // -------------------------------------------------------------------------
  // Reading one block that a write overwrites in part
  // -------------------------------------------------------------------------

  // The part of its first or last block that a write overwrites.
  ghost predicate PartOf(dev: VirtioDev, io: IoDesc, stage: Stage, from: nat, to: nat)
    requires dev.blockSize > 0 && io.offset <= dev.cap
  {
    forall k {:trigger Ask(Topic.Geometry, k)} :: Ask(Topic.Geometry, k) ==>
      && (stage == FirstRead || stage == LastRead)
      && Data(dev.blockSize, io.offset, LenOf(dev, io, stage), stage) == [Part(dev.blockSize, true, from, to)]
  }

  // A new task with buffers for the request and for the response.
  method NewReadTask(dev: VirtioDev, limit: nat) returns (t: VirtioTask?, req: array?<Byte>, resp: array?<Byte>)
    requires limit >= 3
    modifies dev.mem
    ensures Granted(dev.mem, resp != null)
    ensures Growing(dev.mem, t)
    ensures resp != null ==>
      && t != null && req != null && fresh(req) && t.vbufs == [WholeBuf(req, false), WholeBuf(resp, true)]
      && t.limit >= 3 && req.Length == Cdb.REQUEST_SIZE && req[..] == Zeros(Cdb.REQUEST_SIZE)
      && resp.Length == RESPONSE_SIZE
  {
    resp := null;
    t, req := NewTask(dev, limit);
    if req != null {
      resp := t.AllocBuf(dev.mem, RESPONSE_SIZE, true, true);
    }
  }

  lemma ReadPartCarries(dev: VirtioDev, io: IoDesc, stage: Stage, t: VirtioTask, req: array<Byte>, resp: array<Byte>,
                        buf: array<Byte>, blk: nat, from: nat, to: nat)
    requires Issuable(dev, io) && t.Valid() && io.isWrite && PartOf(dev, io, stage, from, to)
    requires t.vbufs == [WholeBuf(req, false), WholeBuf(resp, true), OwnBuf(buf, true, from, to)]
    requires Asks(dev, req, blk, 1, false)
    requires resp.Length == RESPONSE_SIZE && buf.Length == dev.blockSize
    ensures Carries(dev, io, Submission(stage, Read(blk, 1)), t)
  {
    assert Ask(Topic.Geometry, 0);
    assert Spots(t.vbufs) == Plan(dev.blockSize, io.offset, LenOf(dev, io, stage), stage);
    TaskTells(dev, io, stage, t, Zeros(Cdb.REQUEST_SIZE), Read(blk, 1));
  }

  // The command and the buffer for the block, and onto the ring.
  method SendReadPart(dev: VirtioDev, io: IoDesc, stage: Stage, t: VirtioTask, req: array<Byte>, resp: array<Byte>,
                      blkOffset: nat, from: nat, to: nat)
    returns (ok: bool)
    requires Issuable(dev, io) && io.isWrite && PartOf(dev, io, stage, from, to)
    requires t.Valid() && t.Owned() <= dev.mem.live && t.vbufs == [WholeBuf(req, false), WholeBuf(resp, true)]
    requires t.limit >= 3 && req.Length == Cdb.REQUEST_SIZE && req[..] == Zeros(Cdb.REQUEST_SIZE)
    requires resp.Length == RESPONSE_SIZE && req != resp
    modifies req, t`vbufs, dev`submitted, dev.mem
    ensures Granted(dev.mem, ok)
    ensures t.Valid() && old(t.Owned()) <= t.Owned() && fresh(t.Owned() - old(t.Owned()))
    ensures dev.mem.live == old(dev.mem.live) + t.Owned()
    ensures !ok ==> dev.submitted == old(dev.submitted)
    ensures ok ==>
      && dev.submitted == old(dev.submitted) + [Ticket(t, stage, io)]
      && Carries(dev, io, Submission(stage, Read(blkOffset, 1)), t)
  {
    Cdb.CreateRwCdb(dev.numBlocks, req, blkOffset, 1, false);
    var buf := t.AllocBufPart(dev.mem, dev.blockSize, true, false, from, to);
    ok := false;
    if buf != null {
      ReadPartCarries(dev, io, stage, t, req, resp, buf, blkOffset, from, to);
      var rc := SubmitTask(dev, t, stage, io);
      ok := rc == 0;
    }
  }

  method TryReadPart(dev: VirtioDev, io: IoDesc, stage: Stage, limit: nat, blkOffset: nat, from: nat, to: nat)
    returns (newTask: VirtioTask?, ok: bool)
    requires Issuable(dev, io) && io.isWrite && PartOf(dev, io, stage, from, to) && limit >= 3
    modifies dev`submitted, dev.mem
    ensures Granted(dev.mem, ok)
    ensures Growing(dev.mem, newTask)
    ensures !ok ==> dev.submitted == old(dev.submitted)
    ensures ok ==> newTask != null && Sent(dev, io, Submission(stage, Read(blkOffset, 1)), old(dev.mem.live), newTask)
  {
    var req, resp;
    newTask, req, resp := NewReadTask(dev, limit);
    ok := false;
    if resp != null {
      ok := SendReadPart(dev, io, stage, newTask, req, resp, blkOffset, from, to);
    }
  }

  // -------------------------------------------------------------------------
  // The first block and all whole blocks have been written
  // -------------------------------------------------------------------------

  // How many bytes of the request a finished write has moved.
  method WrittenBytes(task: VirtioTask) returns (nbytes: int)
    requires |task.vbufs| >= 3
    ensures var data := Spots(DataBufs(task, FullWrite)); nbytes == PickedBefore(data, |data|)
  {
    ghost var data := Spots(DataBufs(task, FullWrite));
    nbytes := 0;
    for i := 1 to |task.vbufs| - 1
      invariant nbytes == PickedBefore(data, i - 1)
    {
      var vbuf := task.vbufs[i];
      assert data[i - 1] == SpotOf(vbuf);
      nbytes := nbytes + (vbuf.to - vbuf.from);
    }
  }

  // The sum is what the write was laid out for, to its last whole block.
  lemma FullWriteSum(dev: VirtioDev, io: IoDesc, task: VirtioTask)
    requires Done(dev, io, FullWrite, task, [])
    ensures Startable(dev.cap, RequestOf(io)) && io.offset < dev.cap
    ensures var data := Spots(DataBufs(task, FullWrite));
            PickedBefore(data, |data|) == Moved(dev.blockSize, dev.cap, RequestOf(io)) <= io.nbytes
  {
    var bs, n := dev.blockSize, LenOf(dev, io, FullWrite);
    RequestValid(dev, io);
    LenFacts(dev, io, FullWrite);
    RangeFacts(bs, io.offset, n);
    DataSpots(dev, io, FullWrite, task);
    if n > 0 { PlanFits(bs, io.offset, n, FullWrite); }
    PartsAligned(bs, io.offset, n, FullWrite, 0);
  }

  lemma FullWriteReaction(dev: VirtioDev, io: IoDesc, task: VirtioTask, full: nat)
    requires Done(dev, io, FullWrite, task, []) && Startable(dev.cap, RequestOf(io))
    requires full == Moved(dev.blockSize, dev.cap, RequestOf(io))
    ensures Reaction(dev, io, FullWrite, task, []) ==
      if !Good(RespOf(task, FullWrite)) then Outcome.Finish(io.retval, [])
      else if full == io.nbytes then Outcome.Finish(full, [])
      else if (io.offset + io.nbytes) % dev.blockSize == 0 then Outcome.Abort(full)
      else Submit(Submission(LastRead, Read(BlockOf(dev, io.offset + io.nbytes), 1)), full)
  {
    RequestValid(dev, io);
  }

  // Unless the request ends at a block, the remaining bytes begin a last block.
  lemma LastPart(dev: VirtioDev, io: IoDesc)
    requires Issuable(dev, io) && io.isWrite && io.offset < dev.cap && Startable(dev.cap, RequestOf(io))
    ensures Moved(dev.blockSize, dev.cap, RequestOf(io)) != io.nbytes && (io.offset + io.nbytes) % dev.blockSize != 0 ==>
      HasLast(dev, io) && PartOf(dev, io, LastRead, 0, (io.offset + io.nbytes) % dev.blockSize)
  {
    RequestValid(dev, io);
    RangeFacts(dev.blockSize, io.offset, io.nbytes);
    if Moved(dev.blockSize, dev.cap, RequestOf(io)) != io.nbytes && (io.offset + io.nbytes) % dev.blockSize != 0 {
      LastBlock(dev, io);
    }
  }

  // A new task to read the last block.  The assertion that there is a part of it to overwrite
  // comes after two of the allocations.
  method TryReadLast(dev: VirtioDev, io: IoDesc, blkOffset: nat, resid: nat)
    returns (t: VirtioTask?, ok: bool, aborted: bool)
    requires Issuable(dev, io) && io.isWrite && (resid != 0 ==> PartOf(dev, io, LastRead, 0, resid))
    modifies dev`submitted, dev.mem
    ensures Granted(dev.mem, ok || aborted)
    ensures Growing(dev.mem, t)
    ensures aborted ==> resid == 0
    ensures ok ==> resid != 0 && !aborted
    ensures !ok ==> dev.submitted == old(dev.submitted)
    ensures ok ==> t != null && Sent(dev, io, Submission(LastRead, Read(blkOffset, 1)), old(dev.mem.live), t)
  {
    var req, resp;
    t, req, resp := NewReadTask(dev, 3);
    ok, aborted := false, resp != null && resid == 0;
    if resp != null && !aborted {
      ok := SendReadPart(dev, io, LastRead, t, req, resp, blkOffset, 0, resid);
    }
  }

  method GoOnAfterFullWrite(dev: VirtioDev, task: VirtioTask, io: IoDesc, blkOffset: nat, resid: nat, ghost o: Outcome)
    returns (aborted: bool)
    requires Issuable(dev, io) && io.isWrite && task.Valid() && task.Owned() <= dev.mem.live
    requires |dev.outring| < OUTRING_SIZE - 1 && |task.vbufs| >= 3
    requires RespOf(task, FullWrite).buf.Length == RESPONSE_SIZE
    requires o.retval == if Good(RespOf(task, FullWrite)) then
      PickedBefore(Spots(DataBufs(task, FullWrite)), |DataBufs(task, FullWrite)|) else io.retval
    requires !o.Finish? <==> Good(RespOf(task, FullWrite)) && o.retval != io.nbytes
    requires !o.Finish? ==> (o.Abort? <==> resid == 0)
    requires o.Submit? ==> PartOf(dev, io, LastRead, 0, resid) && o.sub == Submission(LastRead, Read(blkOffset, 1))
    modifies io`retval, dev`submitted, dev`outring, dev`outfd, dev.mem
    ensures aborted ==>
      && o.Abort? && io.retval == o.retval && Granted(dev.mem, true)
      && dev.submitted == old(dev.submitted) && dev.outring == old(dev.outring)
    ensures !aborted ==> Concluded(dev, io, task, o)
  {
    var t: VirtioTask? := task;
    var ok := false;
    aborted := false;
    if Good(task.vbufs[|task.vbufs| - 1]) {
      var nbytes := WrittenBytes(task);
      io.retval := nbytes;
      if nbytes != io.nbytes {
        task.Destroy(dev.mem);
        t, ok, aborted := TryReadLast(dev, io, blkOffset, resid);
        if aborted { return; }
      }
    }
    if !ok {
      PushToOutring(dev, io);
      if t != null { t.Destroy(dev.mem); }
    }
  }

  // `aborted`: the assertion failed that the request ends inside a block.
  method BlkWriteFullBlocksDone(dev: VirtioDev, task: VirtioTask, io: IoDesc) returns (aborted: bool)
    requires Done(dev, io, FullWrite, task, [])
    modifies io`retval, dev`submitted, dev`outring, dev`outfd, dev.mem
    ensures var o := old(Reaction(dev, io, FullWrite, task, []));
            if aborted then
              && o.Abort? && io.retval == o.retval && Granted(dev.mem, true)
              && dev.submitted == old(dev.submitted) && dev.outring == old(dev.outring)
            else Concluded(dev, io, task, o)
  {
    FullWriteSum(dev, io, task);
    ghost var full := Moved(dev.blockSize, dev.cap, RequestOf(io));
    FullWriteReaction(dev, io, task, full);
    LastPart(dev, io);
    aborted := GoOnAfterFullWrite(dev, task, io, BlockOf(dev, io.offset + io.nbytes),
                                  (io.offset + io.nbytes) % dev.blockSize, Reaction(dev, io, FullWrite, task, []));
  }

  // -------------------------------------------------------------------------
  // Starting a write
  // -------------------------------------------------------------------------

  // virtio_submit put the first command on the ring, or was refused something and left
  // everything as it was.
  twostate predicate Launched(dev: VirtioDev, io: IoDesc, rc: int, sub: Submission)
    requires dev.Valid() && io.offset <= dev.cap
    reads *
  {
    && dev.outring == old(dev.outring) && Granted(dev.mem, rc == 0)
    && if rc == 0 then
         && |dev.submitted| == |old(dev.submitted)| + 1
         && Sent(dev, io, sub, old(dev.mem.live), dev.submitted[|old(dev.submitted)|].task)
       else rc == -1 && dev.submitted == old(dev.submitted) && dev.mem.live == old(dev.mem.live)
  }

  // Without success, destroy what was built and fail.
  method StartDone(dev: VirtioDev, t: VirtioTask?, ok: bool) returns (rc: int)
    requires !ok && t != null ==> t.Valid() && t.Owned() <= dev.mem.live
    modifies dev.mem`live
    ensures rc == if ok then 0 else -1
    ensures dev.mem.live == old(dev.mem.live) - if ok || t == null then {} else t.Owned()
  {
    rc := 0;
    if !ok {
      if t != null { t.Destroy(dev.mem); }
      rc := -1;
    }
  }

  method StartReadPart(dev: VirtioDev, io: IoDesc, stage: Stage, blkOffset: nat, from: nat, to: nat) returns (rc: int)
    requires Issuable(dev, io) && io.isWrite && PartOf(dev, io, stage, from, to)
    modifies dev`submitted, dev.mem
    ensures Launched(dev, io, rc, Submission(stage, Read(blkOffset, 1)))
  {
    var t, ok := TryReadPart(dev, io, stage, 4, blkOffset, from, to);
    rc := StartDone(dev, t, ok);
  }

  // A write that starts at a block and covers `size` bytes of whole blocks.
  ghost predicate StartsAligned(dev: VirtioDev, io: IoDesc, w: nat, size: nat)
    requires dev.blockSize > 0 && io.offset <= dev.cap
  {
    forall k {:trigger Ask(Topic.Geometry, k)} :: Ask(Topic.Geometry, k) ==>
      && Data(dev.blockSize, io.offset, LenOf(dev, io, FullWrite), FullWrite) == [User(0, size, false)]
      && BlockCount(dev.blockSize, io.offset, LenOf(dev, io, FullWrite), FullWrite) == w
  }

  method MakeWriteAligned(dev: VirtioDev, io: IoDesc, blkOffset: nat, nblk: nat, size: nat)
    returns (t: VirtioTask?, req: array?<Byte>, resp: array?<Byte>)
    requires size <= io.nbytes <= io.buf.Length
    modifies dev.mem
    ensures Granted(dev.mem, resp != null)
    ensures Growing(dev.mem, t)
    ensures resp != null ==>
      && t != null && req != null
      && t.vbufs == [WholeBuf(req, false), VBuf(io.buf, 0, size, false, false, 0, size), WholeBuf(resp, true)]
      && Asks(dev, req, blkOffset, nblk, true) && resp.Length == RESPONSE_SIZE
  {
    resp := null;
    t, req := NewTask(dev, 4);
    if req != null {
      Cdb.CreateRwCdb(dev.numBlocks, req, blkOffset, nblk, true);
      t.AddBuf(io.buf, 0, size, false);
      resp := t.AllocBuf(dev.mem, RESPONSE_SIZE, true, true);
    }
  }

  lemma WriteAlignedCarries(dev: VirtioDev, io: IoDesc, t: VirtioTask, req: array<Byte>, resp: array<Byte>,
                            blk: nat, w: nat, size: nat)
    requires Issuable(dev, io) && t.Valid() && io.isWrite && StartsAligned(dev, io, w, size) && size <= io.nbytes
    requires t.vbufs == [WholeBuf(req, false), VBuf(io.buf, 0, size, false, false, 0, size), WholeBuf(resp, true)]
    requires Asks(dev, req, blk, w, true) && resp.Length == RESPONSE_SIZE
    ensures Carries(dev, io, Submission(FullWrite, Write(blk, io.buf[..size])), t)
  {
    assert Ask(Topic.Geometry, 0);
    assert Spots(t.vbufs) == Plan(dev.blockSize, io.offset, LenOf(dev, io, FullWrite), FullWrite);
    HoldOne(t.vbufs[1], io.buf[..size]);
    assert DataBufs(t, FullWrite) == [t.vbufs[1]];
    TaskTells(dev, io, FullWrite, t, Zeros(Cdb.REQUEST_SIZE), Write(blk, io.buf[..size]));
  }

  method StartWriteAligned(dev: VirtioDev, io: IoDesc, blkOffset: nat, nblk: nat, size: nat) returns (rc: int)
    requires Issuable(dev, io) && io.isWrite && StartsAligned(dev, io, nblk, size) && size <= io.nbytes
    modifies dev`submitted, dev.mem
    ensures Launched(dev, io, rc, Submission(FullWrite, Write(blkOffset, io.buf[..size])))
  {
    var t, req, resp := MakeWriteAligned(dev, io, blkOffset, nblk, size);
    var ok := false;
    if resp != null {
      WriteAlignedCarries(dev, io, t, req, resp, blkOffset, nblk, size);
      rc := SubmitTask(dev, t, FullWrite, io);
      ok := rc == 0;
    }
    rc := StartDone(dev, t, ok);
  }

  lemma WholeStart(dev: VirtioDev, io: IoDesc, n: nat, w: nat, size: nat)
    requires Issuable(dev, io) && io.isWrite && io.offset % dev.blockSize == 0 && n == SizeOf(dev, io)
    requires w == BlockAt(dev.blockSize, n) > 0 && size == BytesIn(w, dev.blockSize)
    ensures size <= io.nbytes && StartsAligned(dev, io, w, size)
    ensures Startable(dev.cap, RequestOf(io))
    ensures FirstSubmission(dev.blockSize, dev.cap, RequestOf(io))
         == Submission(FullWrite, Write(BlockOf(dev, io.offset), io.buf[..size]))
  {
    RequestValid(dev, io);
    WholeBytes(dev.blockSize, n);
    assert io.buf[..io.nbytes][..size] == io.buf[..size];
  }

  // Clipping does not change what the request covers of its first block.
  lemma FirstHead(dev: VirtioDev, io: IoDesc)
    requires Issuable(dev, io) && io.isWrite && io.offset % dev.blockSize != 0
    ensures LenOf(dev, io, FirstRead) == io.nbytes
    ensures Head(dev.blockSize, io.offset, SizeOf(dev, io)) == Head(dev.blockSize, io.offset, io.nbytes)
  {
    FirstBlock(dev, io);
    if SizeOf(dev, io) < io.nbytes { LeavesFirst(dev.blockSize, dev.numBlocks, io.offset, SizeOf(dev, io)); }
  }

  // A write that starts inside a block reads it first.
  lemma InsideStart(dev: VirtioDev, io: IoDesc, resid: nat, n: nat)
    requires Issuable(dev, io) && io.isWrite && resid == io.offset % dev.blockSize != 0 && n == SizeOf(dev, io)
    ensures Startable(dev.cap, RequestOf(io))
    ensures FirstSubmission(dev.blockSize, dev.cap, RequestOf(io)) == Submission(FirstRead, Read(BlockOf(dev, io.offset), 1))
    ensures PartOf(dev, io, FirstRead, resid, resid + if resid + n <= dev.blockSize then n else dev.blockSize - resid)
  {
    RequestValid(dev, io);
    FirstHead(dev, io);
  }

  // A range that starts inside a block and reaches the end of the device has the rest of the block.
  lemma LeavesFirst(bs: nat, numBlocks: nat, off: nat, m: nat)
    requires bs > 0 && off % bs != 0 && off + m == bs * numBlocks
    ensures off % bs + m >= bs
  {
    var d := numBlocks - off / bs;
    assert bs * d == bs * numBlocks - bs * (off / bs);
    Multiples(bs, d);
  }

  // A write of less than a block from the start of a block is not clipped, or starts at the end.
  lemma SmallStart(dev: VirtioDev, io: IoDesc)
    requires Issuable(dev, io) && io.isWrite && io.offset % dev.blockSize == 0 && SizeOf(dev, io) / dev.blockSize == 0
    ensures Startable(dev.cap, RequestOf(io))
    ensures FirstSubmission(dev.blockSize, dev.cap, RequestOf(io)) == Submission(LastRead, Read(BlockOf(dev, io.offset), 1))
    ensures HasLast(dev, io) && PartOf(dev, io, LastRead, 0, SizeOf(dev, io) % dev.blockSize)
  {
    RequestValid(dev, io);
    var bs, n := dev.blockSize, SizeOf(dev, io);
    if io.offset < dev.cap {
      if n < io.nbytes { ClippedIsFull(bs, dev.numBlocks, io.offset, n); }
      RangeFacts(bs, io.offset, io.nbytes);
    }
    LastBlock(dev, io);
    SmallRemainder(bs, n);
  }

  method StartWrite(dev: VirtioDev, io: IoDesc) returns (rc: int)
    requires io.isWrite && Issuable(dev, io)
    modifies io`retval, dev`submitted, dev.mem
    ensures Startable(dev.cap, RequestOf(io)) && io.retval == -1
    ensures Launched(dev, io, rc, FirstSubmission(dev.blockSize, dev.cap, RequestOf(io)))
  {
    var nbytes := SizeOf(dev, io);
    io.retval := -1;
    var blkOffset := BlockOf(dev, io.offset);
    var resid := io.offset % dev.blockSize;
    var nblk := BlockAt(dev.blockSize, nbytes);
    if resid != 0 {
      InsideStart(dev, io, resid, nbytes);
      var readBytes := if resid + nbytes <= dev.blockSize then nbytes else dev.blockSize - resid;
      rc := StartReadPart(dev, io, FirstRead, blkOffset, resid, resid + readBytes);
    } else if nblk > 0 {
      var size := BytesIn(nblk, dev.blockSize);
      WholeStart(dev, io, nbytes, nblk, size);
      rc := StartWriteAligned(dev, io, blkOffset, nblk, size);
    } else {
      SmallStart(dev, io);
      rc := StartReadPart(dev, io, LastRead, blkOffset, 0, nbytes % dev.blockSize);
    }
  }

  method WriteVirtioDevAsync(dev: VirtioDev, io: IoDesc) returns (rc: int)
    requires dev.Valid() && io.isWrite && (io.offset <= dev.cap && io.nbytes > 0 ==> Issuable(dev, io))
    modifies io`retval, dev`submitted, dev.mem
    ensures io.offset > dev.cap ==>
      rc == -1 && dev.submitted == old(dev.submitted) && dev.mem.live == old(dev.mem.live) && Granted(dev.mem, true)
    ensures io.offset <= dev.cap && io.nbytes == 0 ==>
      rc == 0 && dev.submitted == old(dev.submitted) && dev.mem.live == old(dev.mem.live) && Granted(dev.mem, true)
    ensures io.offset <= dev.cap && io.nbytes > 0 ==>
      && Startable(dev.cap, RequestOf(io)) && io.retval == -1
      && Launched(dev, io, rc, FirstSubmission(dev.blockSize, dev.cap, RequestOf(io)))
  {
    if io.offset > dev.cap {
      rc := -1;
    } else if io.nbytes == 0 {
      rc := 0;
    } else {
      rc := StartWrite(dev, io);
    }
  }

  // -------------------------------------------------------------------------
  // Reading
  // -------------------------------------------------------------------------

  // A task under construction has these buffers, its own or the user's.
  ghost predicate Has(io: IoDesc, t: VirtioTask, spots: seq<Spot>)
    reads t
  {
    && Spots(t.vbufs) == spots
    && forall k :: 0 <= k < |t.vbufs| ==>
         if t.vbufs[k].copy then t.vbufs[k].buf.Length == t.vbufs[k].size else t.vbufs[k].buf == io.buf
  }

  method AddPart(dev: VirtioDev, io: IoDesc, t: VirtioTask, from: nat, to: nat, ghost spots: seq<Spot>) returns (ok: bool)
    requires t.Valid() && t.Owned() <= dev.mem.live && |t.vbufs| < t.limit && Has(io, t, spots)
    modifies t`vbufs, dev.mem
    ensures Granted(dev.mem, ok)
    ensures t.Valid() && old(t.vbufs) <= t.vbufs && fresh(t.Owned() - old(t.Owned())) && old(t.Owned()) <= t.Owned()
    ensures dev.mem.live == old(dev.mem.live) + t.Owned()
    ensures ok ==> Has(io, t, spots + [Part(dev.blockSize, true, from, to)])
  {
    var buf := t.AllocBufPart(dev.mem, dev.blockSize, true, false, from, to);
    ok := buf != null;
    if ok { assert Spots(t.vbufs) == spots + [Part(dev.blockSize, true, from, to)]; }
  }

  method AddUser(io: IoDesc, t: VirtioTask, base: nat, size: nat, ghost spots: seq<Spot>)
    requires t.Valid() && |t.vbufs| < t.limit && Has(io, t, spots) && base + size <= io.buf.Length
    modifies t`vbufs
    ensures t.Valid() && old(t.vbufs) <= t.vbufs && t.Owned() == old(t.Owned())
    ensures Has(io, t, spots + [User(base, size, true)])
  {
    t.AddBuf(io.buf, base, size, true);
    assert Spots(t.vbufs) == spots + [User(base, size, true)];
  }

  // The data buffers of a read: partial first block, whole blocks, partial last block.
  method AddReadData(dev: VirtioDev, io: IoDesc, t: VirtioTask, resid: nat, h: nat, size: nat, last: nat,
                     ghost spots: seq<Spot>)
    returns (ok: bool)
    requires t.Valid() && t.Owned() <= dev.mem.live && |t.vbufs| + 3 <= t.limit && Has(io, t, spots)
    requires h + size <= io.buf.Length
    modifies t`vbufs, dev.mem
    ensures Granted(dev.mem, ok)
    ensures t.Valid() && old(t.vbufs) <= t.vbufs && fresh(t.Owned() - old(t.Owned())) && old(t.Owned()) <= t.Owned()
    ensures dev.mem.live == old(dev.mem.live) + t.Owned()
    ensures ok ==> Has(io, t, spots + FirstPart(dev.blockSize, resid, h) + MiddlePart(h, size)
                              + LastPartOf(dev.blockSize, last))
  {
    ok := true;
    ghost var s := spots;
    if resid != 0 {
      ok := AddPart(dev, io, t, resid, resid + h, s);
    }
    if ok {
      s := s + FirstPart(dev.blockSize, resid, h);
      if size > 0 {
        AddUser(io, t, h, size, s);
      }
      s := s + MiddlePart(h, size);
      if last > 0 {
        ok := AddPart(dev, io, t, 0, last, s);
      }
    }
  }

  method MakeReadWhole(dev: VirtioDev, io: IoDesc, blkOffset: nat, nblk: nat, resid: nat, h: nat, size: nat, last: nat)
    returns (t: VirtioTask?, req: array?<Byte>, ok: bool)
    requires h + size <= io.buf.Length
    modifies dev.mem
    ensures Granted(dev.mem, ok)
    ensures Growing(dev.mem, t)
    ensures ok ==>
      && t != null && req != null && |t.vbufs| >= 2 && t.vbufs[0] == WholeBuf(req, false)
      && Has(io, t, [Req(), Resp()] + FirstPart(dev.blockSize, resid, h) + MiddlePart(h, size)
                    + LastPartOf(dev.blockSize, last))
      && Asks(dev, req, blkOffset, nblk, false)
  {
    ok := false;
    t, req := NewTask(dev, 5);
    if req != null {
      var resp := t.AllocBuf(dev.mem, RESPONSE_SIZE, true, true);
      if resp != null {
        assert Spots(t.vbufs) == [Req(), Resp()];
        ok := AddReadData(dev, io, t, resid, h, size, last, [Req(), Resp()]);
        if ok { Cdb.CreateRwCdb(dev.numBlocks, req, blkOffset, nblk, false); }
      }
    }
  }

  // The geometry of a read.
  ghost predicate ReadsRange(dev: VirtioDev, io: IoDesc, resid: nat, h: nat, size: nat, last: nat, nblk: nat)
    requires dev.blockSize > 0 && io.offset <= dev.cap
  {
    forall k {:trigger Ask(Topic.Geometry, k)} :: Ask(Topic.Geometry, k) ==>
      && Data(dev.blockSize, io.offset, SizeOf(dev, io), WholeRead)
         == FirstPart(dev.blockSize, resid, h) + MiddlePart(h, size) + LastPartOf(dev.blockSize, last)
      && nblk == BlockCount(dev.blockSize, io.offset, SizeOf(dev, io), WholeRead)
  }

  lemma ReadCarries(dev: VirtioDev, io: IoDesc, t: VirtioTask, req: array<Byte>, blk: nat, nblk: nat,
                    resid: nat, h: nat, size: nat, last: nat)
    requires Issuable(dev, io) && t.Valid() && !io.isWrite && ReadsRange(dev, io, resid, h, size, last, nblk)
    requires |t.vbufs| >= 2 && t.vbufs[0] == WholeBuf(req, false)
    requires Has(io, t, [Req(), Resp()] + FirstPart(dev.blockSize, resid, h) + MiddlePart(h, size)
                        + LastPartOf(dev.blockSize, last))
    requires Asks(dev, req, blk, nblk, false)
    ensures Carries(dev, io, Submission(WholeRead, Read(blk, nblk)), t)
  {
    assert Ask(Topic.Geometry, 0);
    assert Spots(t.vbufs) == Plan(dev.blockSize, io.offset, LenOf(dev, io, WholeRead), WholeRead);
    TaskTells(dev, io, WholeRead, t, Zeros(Cdb.REQUEST_SIZE), Read(blk, nblk));
  }

  method StartRead(dev: VirtioDev, io: IoDesc, blkOffset: nat, nblk: nat, resid: nat, h: nat, size: nat, last: nat)
    returns (rc: int)
    requires Issuable(dev, io) && !io.isWrite && ReadsRange(dev, io, resid, h, size, last, nblk)
    requires h + size <= io.buf.Length
    modifies dev`submitted, dev.mem
    ensures Launched(dev, io, rc, Submission(WholeRead, Read(blkOffset, nblk)))
  {
    var t, req, ok := MakeReadWhole(dev, io, blkOffset, nblk, resid, h, size, last);
    if ok {
      ReadCarries(dev, io, t, req, blkOffset, nblk, resid, h, size, last);
      rc := SubmitTask(dev, t, WholeRead, io);
      ok := rc == 0;
    }
    rc := StartDone(dev, t, ok);
  }

  lemma ReadStarts(dev: VirtioDev, io: IoDesc, n: nat, h: nat, w: nat, size: nat, last: nat, nblk: nat)
    requires Issuable(dev, io) && !io.isWrite && n == SizeOf(dev, io)
    requires h == Head(dev.blockSize, io.offset, n) && w == Whole(dev.blockSize, io.offset, n)
    requires last == n - Full(dev.blockSize, io.offset, n) && size == w * dev.blockSize
    requires nblk == (if io.offset % dev.blockSize != 0 then 1 else 0) + w + (if last != 0 then 1 else 0)
    ensures ReadsRange(dev, io, io.offset % dev.blockSize, h, size, last, nblk)
    ensures Startable(dev.cap, RequestOf(io))
    ensures FirstSubmission(dev.blockSize, dev.cap, RequestOf(io)) == Submission(WholeRead, Read(BlockOf(dev, io.offset), nblk))
  {
    LenFacts(dev, io, WholeRead);
    ReadData(dev.blockSize, io.offset, n, h, w, size, last);
    RequestValid(dev, io);
  }

  // How a range splits into a partial first block, whole blocks and a partial last block.
  method SplitRange(bs: nat, off: nat, n: nat) returns (h: nat, w: nat, last: nat)
    requires bs > 0 && (n > 0 || off % bs == 0)
    ensures h == Head(bs, off, n) && w == Whole(bs, off, n) && last == n - Full(bs, off, n)
    ensures h + w * bs <= n
  {
    var resid := off % bs;
    h := if resid == 0 then 0 else if resid + n <= bs then n else bs - resid;
    w := (n - h) / bs;
    WholeBytes(bs, n - h);
    var rest := n - (h + w * bs);
    last := if h + w * bs < n then rest % bs else 0;
    SplitIs(bs, off, n, h, w, rest, last);
  }

  method SplitRead(dev: VirtioDev, io: IoDesc) returns (resid: nat, h: nat, size: nat, last: nat, nblk: nat)
    requires Issuable(dev, io) && !io.isWrite
    ensures Startable(dev.cap, RequestOf(io)) && ReadsRange(dev, io, resid, h, size, last, nblk)
    ensures h + size <= io.buf.Length
    ensures FirstSubmission(dev.blockSize, dev.cap, RequestOf(io)) == Submission(WholeRead, Read(BlockOf(dev, io.offset), nblk))
  {
    var w;
    LenFacts(dev, io, WholeRead);
    resid := io.offset % dev.blockSize;
    h, w, last := SplitRange(dev.blockSize, io.offset, SizeOf(dev, io));
    size := w * dev.blockSize;
    nblk := (if resid != 0 then 1 else 0) + w + (if last != 0 then 1 else 0);
    ReadStarts(dev, io, SizeOf(dev, io), h, w, size, last, nblk);
  }

  method ReadVirtioDevAsync(dev: VirtioDev, io: IoDesc) returns (rc: int)
    requires dev.Valid() && !io.isWrite && (io.offset <= dev.cap && io.nbytes > 0 ==> Issuable(dev, io))
    modifies dev`submitted, dev.mem
    ensures io.offset > dev.cap ==>
      rc == -1 && dev.submitted == old(dev.submitted) && dev.mem.live == old(dev.mem.live) && Granted(dev.mem, true)
    ensures io.offset <= dev.cap && io.nbytes == 0 ==>
      rc == 0 && dev.submitted == old(dev.submitted) && dev.mem.live == old(dev.mem.live) && Granted(dev.mem, true)
    ensures io.offset <= dev.cap && io.nbytes > 0 ==>
      && Startable(dev.cap, RequestOf(io))
      && Launched(dev, io, rc, FirstSubmission(dev.blockSize, dev.cap, RequestOf(io)))
  {
    if io.offset > dev.cap { return -1; }
    if io.nbytes == 0 { return 0; }
    var resid, h, size, last, nblk := SplitRead(dev, io);
    rc := StartRead(dev, io, BlockOf(dev, io.offset), nblk, resid, h, size, last);
  }

  // The piece of buffer k goes to its place in the user's buffer, if it is not there.
  method CopyPiece(io: IoDesc, vbuf: VBuf, nbytes: nat, delta: nat, ghost piece: Bytes)
    requires vbuf.from + delta <= vbuf.size && vbuf.base + vbuf.size <= vbuf.buf.Length
    requires nbytes + delta <= io.buf.Length && (vbuf.copy ==> vbuf.buf != io.buf && vbuf.base == 0)
    requires !vbuf.copy ==> vbuf.buf == io.buf && vbuf.base == nbytes && vbuf.from == 0
    requires piece == Contents(vbuf)[vbuf.from..vbuf.from + delta]
    modifies io.buf
    ensures io.buf[..] == Splice(old(io.buf[..]), nbytes, piece)
  {
    if vbuf.copy {
      Memcpy(io.buf, nbytes, vbuf.buf, vbuf.from, delta);
    }
  }

  lemma PieceOfReply(data: Bytes, p: nat, size: nat, from: nat, to: nat)
    requires p + size <= |data| && from <= to <= size
    ensures data[p..p + size][from..to] == data[p + from..p + to]
  {
    var a, b := data[p..p + size][from..to], data[p + from..p + to];
    forall i | 0 <= i < to - from ensures a[i] == b[i] {
    }
  }

  lemma SameSlice(a: Bytes, b: Bytes, m: nat, size: nat)
    requires |a| == |b| && m + size <= |a| && a[m..] == b[m..]
    ensures a[m..m + size] == b[m..m + size]
  {
    var x, y := a[m..m + size], b[m..m + size];
    forall i | 0 <= i < size ensures x[i] == y[i] {
      assert a[m..][i] == b[m..][i];
    }
  }

  lemma SplicedOnto(buf: Bytes, buf': Bytes, reply: Bytes, resid: nat, m: nat, delta: nat, orig: Bytes)
    requires |buf| == |buf'| == |orig| && m + delta <= |buf| && resid + m + delta <= |reply|
    requires buf[..m] == reply[resid..resid + m] && buf[m..] == orig[m..]
    requires buf' == Splice(buf, m, reply[resid + m..resid + m + delta])
    ensures buf'[..m + delta] == reply[resid..resid + m + delta] && buf'[m + delta..] == orig[m + delta..]
  {
    forall i | 0 <= i < m + delta ensures buf'[i] == reply[resid + i] {
      if i < m { assert buf[..m][i] == reply[resid..resid + m][i]; }
    }
    forall i | m + delta <= i < |buf| ensures buf'[i] == orig[i] {
      assert buf[m..][i - m] == orig[m..][i - m];
    }
  }

  // The user has the first m bytes; the rest of the user's buffer is as before.
  ghost predicate GatheredTo(io: IoDesc, m: nat, reply: Bytes, resid: nat, orig: Bytes)
    reads io.buf
  {
    forall k {:trigger Ask(Topic.Geometry, k)} :: Ask(Topic.Geometry, k) ==>
    && io.buf.Length == |orig| && m <= |orig| && resid + m <= |reply|
    && io.buf[..m] == reply[resid..resid + m] && io.buf[m..] == orig[m..]
  }

  method GatherPiece(io: IoDesc, vbuf: VBuf, nbytes: nat, used: nat, ghost reply: Bytes, ghost p: nat, ghost resid: nat,
                     ghost n: nat, ghost orig: Bytes)
    returns (delta: int)
    requires PieceOk(vbuf, nbytes, p, io, orig, reply, resid, n) && nbytes <= used
    requires n <= io.buf.Length && resid + n <= |reply| && GatheredTo(io, nbytes, reply, resid, orig)
    modifies io.buf
    ensures vbuf.from <= vbuf.to && 0 <= delta && nbytes + delta == Min(nbytes + (vbuf.to - vbuf.from), used) <= n
    ensures GatheredTo(io, nbytes + delta, reply, resid, orig)
  {
    assert Ask(Topic.Geometry, 0);
    delta := vbuf.to - vbuf.from;
    if nbytes + delta > used {
      delta := used - nbytes;
    }
    if !vbuf.copy { SameSlice(io.buf[..], orig, nbytes, vbuf.size); }
    assert Contents(vbuf) == reply[p..p + vbuf.size];
    PieceOfReply(reply, p, vbuf.size, vbuf.from, vbuf.from + delta);
    ghost var before := io.buf[..];
    CopyPiece(io, vbuf, nbytes, delta, reply[resid + nbytes..resid + nbytes + delta]);
    SplicedOnto(before, io.buf[..], reply, resid, nbytes, delta, orig);
  }

  // A data buffer of a completed read, whose bytes begin at position p of the reply and whose
  // piece belongs at position `at` of the user's buffer.
  ghost predicate PieceOk(v: VBuf, at: int, p: nat, io: IoDesc, orig: Bytes, reply: Bytes, resid: nat, n: nat)
    reads if v.copy then {v.buf} else {}
  {
    forall k {:trigger Ask(Topic.Geometry, k)} :: Ask(Topic.Geometry, k) ==>
    && v.from <= v.to <= v.size && v.base + v.size <= v.buf.Length
    && 0 <= at && at + (v.to - v.from) <= n && p + v.from == resid + at && p + v.size <= |reply|
    && if v.copy then v.buf != io.buf && v.base == 0 && Contents(v) == reply[p..p + v.size]
       else
         && v.buf == io.buf && v.base == at && v.from == 0 && v.to == v.size && at + v.size <= |orig|
         && orig[at..at + v.size] == reply[p..p + v.size]
  }

  ghost predicate PiecesOk(vs: seq<VBuf>, io: IoDesc, orig: Bytes, reply: Bytes, resid: nat, n: nat)
    reads set v | v in vs && v.copy :: v.buf
  {
    var d := Spots(vs);
    && PickedBefore(d, |vs|) == n <= |orig| && resid + n <= |reply|
    && forall k {:trigger PieceOk(vs[k], PickedBefore(d, k), SizeBefore(d, k), io, orig, reply, resid, n)} ::
         0 <= k < |vs| ==> PieceOk(vs[k], PickedBefore(d, k), SizeBefore(d, k), io, orig, reply, resid, n)
  }

  // Collect the bytes of the request from the buffers, no more than the device moved.
  method Gather(io: IoDesc, task: VirtioTask, used: nat, ghost reply: Bytes, ghost resid: nat, ghost n: nat)
    returns (nbytes: nat)
    requires |task.vbufs| >= 2
    requires PiecesOk(task.vbufs[2..], io, io.buf[..], reply, resid, n)
    modifies io.buf
    ensures nbytes == Min(n, used) && GatheredTo(io, nbytes, reply, resid, old(io.buf[..]))
  {
    ghost var vs, orig, k := task.vbufs[2..], io.buf[..], 0;
    nbytes := 0;
    var i := 2;
    while i < |task.vbufs|
      invariant k <= |vs| && i == k + 2 && nbytes == PickedBefore(Spots(vs), k) && nbytes <= n && nbytes <= used
      invariant GatheredTo(io, nbytes, reply, resid, orig)
    {
      var vbuf := task.vbufs[i];
      assert vbuf == vs[k];
      PickedNext(vs, k);
      assert old(PieceOk(vs[k], nbytes, SizeBefore(Spots(vs), k), io, orig, reply, resid, n));
      var delta := GatherPiece(io, vbuf, nbytes, used, reply, SizeBefore(Spots(vs), k), resid, n, orig);
      nbytes, i, k := nbytes + delta, i + 1, k + 1;
      if nbytes >= used { break; }
    }
  }

  lemma PickedNext(vs: seq<VBuf>, k: nat)
    requires k < |vs|
    ensures PickedBefore(Spots(vs), k + 1) == PickedBefore(Spots(vs), k) + (vs[k].to - vs[k].from)
  {
    assert Spots(vs)[k] == SpotOf(vs[k]);
  }

  lemma ReadOutcome(bs: nat, cap: nat, r: Request, retval: int, reply: Option<Bytes>, n: nat, resid: nat)
    requires bs > 0 && Startable(cap, r) && r.ReadReq? && n == Size(cap, r) && resid == r.off % bs
    requires ReplyFits(bs, cap, r, WholeRead, reply)
    ensures OnReply(bs, cap, r, WholeRead, retval, reply) ==
      if reply.None? then Outcome.Finish(-1, []) else Outcome.Finish(n, reply.value[resid..resid + n])
  {
  }

  // What the callback takes for the number of data bytes; the subtraction wraps around.
  function UsedData(task: VirtioTask): nat
    reads task
  {
    (task.usedBytes - RESPONSE_SIZE) % 0x1_0000_0000_0000_0000
  }

  // A read whose device moved `used` bytes of data.
  ghost function ReadResult(dev: VirtioDev, io: IoDesc, task: VirtioTask, reply: Bytes, used: nat): Outcome
    requires Done(dev, io, WholeRead, task, reply)
    reads task, dev.mem, dev, io.buf, set v | v in task.vbufs :: v.buf
  {
    DoneFits(dev, io, WholeRead, task, reply);
    var m, resid := Min(SizeOf(dev, io), used), io.offset % dev.blockSize;
    if Good(RespOf(task, WholeRead)) then Outcome.Finish(m, reply[resid..resid + m]) else Outcome.Finish(-1, [])
  }

  // Which bytes the user is told are there were moved by the device: the callback does not
  // count those before the request in the first block.
  lemma ShortReadExact(reply: Bytes, resid: nat, n: nat, used: nat)
    requires resid + n <= |reply| && used <= |reply|
    ensures var m := Min(n, used);
            (forall moved: Bytes :: |moved| == |reply| && moved[..used] == reply[..used] ==>
               moved[resid..resid + m] == reply[resid..resid + m])
            <==> m == 0 || resid == 0 || resid + n <= used
  {
    var m := Min(n, used);
    if m == 0 || resid == 0 || resid + n <= used {
      forall moved: Bytes | |moved| == |reply| && moved[..used] == reply[..used]
        ensures moved[resid..resid + m] == reply[resid..resid + m]
      {
        forall i | resid <= i < resid + m ensures moved[i] == reply[i] {
          assert moved[..used][i] == reply[..used][i];
        }
      }
    } else {
      var i := resid + m - 1;
      var moved := reply[i := if reply[i] == 0 then 1 else 0];
      assert moved[..used] == reply[..used];
      assert moved[resid..resid + m][m - 1] != reply[resid..resid + m][m - 1];
    }
  }

  lemma ReadReaction(dev: VirtioDev, io: IoDesc, task: VirtioTask, reply: Bytes, n: nat, resid: nat)
    requires Done(dev, io, WholeRead, task, reply) && n == SizeOf(dev, io)
    requires resid == io.offset % dev.blockSize && resid + n <= |reply|
    ensures Reaction(dev, io, WholeRead, task, reply) ==
      if Good(RespOf(task, WholeRead)) then Outcome.Finish(n, reply[resid..resid + n]) else Outcome.Finish(-1, [])
  {
    RequestValid(dev, io);
    ReadOutcome(dev.blockSize, dev.cap, RequestOf(io), io.retval, Answer(dev, io, WholeRead, task, reply), n, resid);
  }

  lemma PieceHeld(vs: seq<VBuf>, k: nat, reply: Bytes)
    requires k < |vs| && InBounds(vs) && Hold(vs, reply)
    ensures Spots(vs)[k] == SpotOf(vs[k])
    ensures var p := SizeBefore(Spots(vs), k);
            p + vs[k].size <= |reply| && Contents(vs[k]) == reply[p..p + vs[k].size]
  {
    assert PieceIn(vs, k, reply);
  }

  lemma PieceFrom(v: VBuf, at: nat, p: nat, io: IoDesc, reply: Bytes, resid: nat, n: nat)
    requires v.base + v.size <= v.buf.Length && p + v.size <= |reply| && Contents(v) == reply[p..p + v.size]
    requires n <= io.buf.Length && p + v.from == resid + at && v.from <= v.to <= v.size && at + (v.to - v.from) <= n
    requires if v.copy then v.buf != io.buf && v.base == 0
             else v.buf == io.buf && v.base == at && v.from == 0 && v.to == v.size
    ensures PieceOk(v, at, p, io, io.buf[..], reply, resid, n)
  {
    if !v.copy { assert Contents(v) == io.buf[..][at..at + v.size]; }
  }

  lemma ReadBuffers(dev: VirtioDev, io: IoDesc, task: VirtioTask, reply: Bytes, k: nat)
    requires Done(dev, io, WholeRead, task, reply) && k < |task.vbufs| - 2
    ensures var vs := task.vbufs[2..];
            && InBounds(vs) && Hold(vs, reply) && Spots(vs) == Data(dev.blockSize, io.offset, SizeOf(dev, io), WholeRead)
            && if vs[k].copy then vs[k].buf != io.buf && vs[k].base == 0 else vs[k].buf == io.buf
  {
    var d := Data(dev.blockSize, io.offset, SizeOf(dev, io), WholeRead);
    DataSpots(dev, io, WholeRead, task);
    CopiesAre(task.vbufs);
    assert Spots(task.vbufs[2..])[k] == d[k] == SpotOf(task.vbufs[k + 2]);
    assert d[k].copy ==> d[k].base == 0;
  }

  lemma ReadPiece(dev: VirtioDev, io: IoDesc, task: VirtioTask, reply: Bytes, n: nat, k: nat)
    requires Done(dev, io, WholeRead, task, reply) && n == SizeOf(dev, io) && k < |task.vbufs| - 2
    ensures var vs := task.vbufs[2..];
            PieceOk(vs[k], PickedBefore(Spots(vs), k), SizeBefore(Spots(vs), k), io, io.buf[..], reply,
                    io.offset % dev.blockSize, n)
  {
    ReadBuffers(dev, io, task, reply, k);
    LenFacts(dev, io, WholeRead);
    PartsAligned(dev.blockSize, io.offset, n, WholeRead, k);
    var vs := task.vbufs[2..];
    PieceHeld(vs, k, reply);
    PieceFrom(vs[k], PickedBefore(Spots(vs), k), SizeBefore(Spots(vs), k), io, reply, io.offset % dev.blockSize, n);
  }

  // The buffers of a completed read are what Gather needs.
  lemma ReadPieces(dev: VirtioDev, io: IoDesc, task: VirtioTask, reply: Bytes, n: nat, resid: nat)
    requires Done(dev, io, WholeRead, task, reply) && n == SizeOf(dev, io) && resid == io.offset % dev.blockSize
    ensures PiecesOk(task.vbufs[2..], io, io.buf[..], reply, resid, n)
  {
    var bs, off := dev.blockSize, io.offset;
    DataSpots(dev, io, WholeRead, task);
    LenFacts(dev, io, WholeRead);
    DataSizes(bs, off, n, WholeRead);
    BlocksCover(bs, off, n);
    if n > 0 { PlanFits(bs, off, n, WholeRead); PartsAligned(bs, off, n, WholeRead, 0); }
    var vs := task.vbufs[2..];
    forall k | 0 <= k < |vs|
      ensures PieceOk(vs[k], PickedBefore(Spots(vs), k), SizeBefore(Spots(vs), k), io, io.buf[..], reply, resid, n)
    {
      ReadPiece(dev, io, task, reply, n, k);
    }
  }

  method FinishRead(dev: VirtioDev, task: VirtioTask, io: IoDesc, ghost reply: Bytes, ghost resid: nat, ghost n: nat,
                    ghost o: Outcome)
    requires dev.Valid() && io.offset <= dev.cap && task.Valid() && task.Owned() <= dev.mem.live
    requires |dev.outring| < OUTRING_SIZE - 1 && io.buf !in dev.mem.live
    requires |task.vbufs| >= 2 && PiecesOk(task.vbufs[2..], io, io.buf[..], reply, resid, n)
    requires task.vbufs[1].buf.Length == RESPONSE_SIZE
    requires o == if Good(task.vbufs[1]) then
      Outcome.Finish(Min(n, UsedData(task)), reply[resid..resid + Min(n, UsedData(task))]) else Outcome.Finish(-1, [])
    modifies io`retval, io.buf, dev`outring, dev`outfd, dev.mem`live
    ensures Concluded(dev, io, task, o)
    ensures |o.data| <= io.buf.Length && io.buf[..] == o.data + old(io.buf[..])[|o.data|..]
  {
    var resp := task.vbufs[1];
    io.retval := -1;
    if Good(resp) {
      var nbytes := Gather(io, task, UsedData(task), reply, resid, n);
      assert Ask(Topic.Geometry, 0);
      io.retval := nbytes;
      assert io.buf[..] == io.buf[..nbytes] + io.buf[nbytes..];
    }
    PushToOutring(dev, io);
    task.Destroy(dev.mem);
  }

  method BlkReadDone(dev: VirtioDev, task: VirtioTask, io: IoDesc, ghost reply: Bytes)
    requires Done(dev, io, WholeRead, task, reply)
    modifies io`retval, io.buf, dev`outring, dev`outfd, dev.mem`live
    ensures var o := old(ReadResult(dev, io, task, reply, UsedData(task)));
            && Concluded(dev, io, task, o)
            && |o.data| <= io.buf.Length && io.buf[..] == o.data + old(io.buf[..])[|o.data|..]
    ensures SizeOf(dev, io) <= old(UsedData(task)) ==>
      old(ReadResult(dev, io, task, reply, UsedData(task)) == Reaction(dev, io, WholeRead, task, reply))
  {
    ghost var n, resid := SizeOf(dev, io), io.offset % dev.blockSize;
    ReadPieces(dev, io, task, reply, n, resid);
    ReadReaction(dev, io, task, reply, n, resid);
    FinishRead(dev, task, io, reply, resid, n, ReadResult(dev, io, task, reply, UsedData(task)));
  }

  // Main entry point for asynchronous operations.
  method VirtioSubmit(dev: VirtioDev, io: IoDesc) returns (rc: int)
    requires dev.Valid() && (io.offset <= dev.cap && io.nbytes > 0 ==> Issuable(dev, io))
    modifies io`retval, dev`submitted, dev.mem
    ensures io.offset <= dev.cap && io.nbytes > 0 ==>
      && Startable(dev.cap, RequestOf(io)) && (io.isWrite ==> io.retval == -1)
      && Launched(dev, io, rc, FirstSubmission(dev.blockSize, dev.cap, RequestOf(io)))
    ensures io.offset > dev.cap || io.nbytes == 0 ==>
      && rc == (if io.offset > dev.cap then -1 else 0)
      && dev.submitted == old(dev.submitted) && dev.mem.live == old(dev.mem.live) && Granted(dev.mem, true)
  {
    if io.isWrite {
      rc := WriteVirtioDevAsync(dev, io);
    } else {
      rc := ReadVirtioDevAsync(dev, io);
    }
  }
}
