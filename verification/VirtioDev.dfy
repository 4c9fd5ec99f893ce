/** The device handle, its requests, and what a task tells the device. */
module VirtioDev {
  import opened Common
  import opened Blocks
  import opened AsyncSpec
  import opened VirtioTasks
  import opened Layout
  import Cdb

  const OUTRING_SIZE: nat := 4096
  const STATUS_AT: nat := 10    // in virtio_scsi_cmd_resp
  const RESPONSE_AT: nat := 11

  // An asynchronous request of the user, and its result.
  class IoDesc {
    const isWrite: bool
    const buf: array<Byte>
    const offset: nat
    const nbytes: nat
    var retval: int

    constructor (isWrite: bool, buf: array<Byte>, offset: nat, nbytes: nat)
      ensures this.isWrite == isWrite && this.buf == buf && this.offset == offset && this.nbytes == nbytes
    {
      this.isWrite, this.buf, this.offset, this.nbytes := isWrite, buf, offset, nbytes;
      retval := 0;
    }
  }

  // A task that was put on the ring, with its callback and the callback's argument.
  datatype Ticket = Ticket(task: VirtioTask, stage: Stage, io: IoDesc)

  class VirtioDev {
    const blockSize: nat
    const numBlocks: nat
    const cap: nat
    const mem: Memory
    var submitted: seq<Ticket>
    var outring: seq<IoDesc>
    var eventHighWm: nat
    var outfd: nat  // the counter of the eventfd

    constructor (blockSize: nat, numBlocks: nat, mem: Memory)
      requires blockSize > 0 && numBlocks < 0x1_0000_0000_0000_0000
      requires blockSize * numBlocks < 0x1_0000_0000_0000_0000
      ensures Valid() && this.blockSize == blockSize && this.numBlocks == numBlocks && this.mem == mem
      ensures submitted == [] && outring == []
    {
      this.blockSize, this.numBlocks, this.mem := blockSize, numBlocks, mem;
      cap := blockSize * numBlocks;
      submitted, outring, eventHighWm, outfd := [], [], 0, 0;
    }

    predicate Valid() {
      && blockSize > 0 && cap == blockSize * numBlocks
      && numBlocks < 0x1_0000_0000_0000_0000 && cap < 0x1_0000_0000_0000_0000
    }
  }

  function RequestOf(io: IoDesc): Request
    requires io.nbytes <= io.buf.Length
    reads io.buf
  {
    if io.isWrite then WriteReq(io.offset, io.buf[..io.nbytes]) else ReadReq(io.offset, io.nbytes)
  }

  // Operations are clipped at the end of the device.
  function Clip(cap: nat, offset: nat, nbytes: nat): nat
    requires offset <= cap
  {
    if offset + nbytes > cap then cap - offset else nbytes
  }

  // Bytes that the request moves.
  function SizeOf(dev: VirtioDev, io: IoDesc): nat
    requires io.offset <= dev.cap
  {
    Clip(dev.cap, io.offset, io.nbytes)
  }

  // Bytes that the buffers of a command are laid out for.  A first command goes by the clipped
  // length; the callbacks of a write go by what was asked.
  function LenOf(dev: VirtioDev, io: IoDesc, stage: Stage): nat
    requires dev.blockSize > 0 && io.offset <= dev.cap
  {
    if !io.isWrite || io.offset == dev.cap || (stage == FullWrite && io.offset % dev.blockSize == 0) then SizeOf(dev, io)
    else io.nbytes
  }

  // Requests that make the asynchronous interface issue commands whose block counts fit the
  // command form of the device.
  ghost predicate Issuable(dev: VirtioDev, io: IoDesc) {
    && dev.Valid() && io.nbytes <= io.buf.Length
    && 0 < io.nbytes && io.offset <= dev.cap
    && forall stage :: (stage == WholeRead <==> !io.isWrite) ==>
         BlockCount(dev.blockSize, io.offset, LenOf(dev, io, stage), stage) < Cdb.CountSpan(dev.numBlocks)
  }

  // Those that it serves byte-exactly: they start inside the device, and a write ends there.
  ghost predicate Servable(dev: VirtioDev, io: IoDesc) {
    Issuable(dev, io) && io.offset < dev.cap && (io.isWrite ==> io.offset + io.nbytes <= dev.cap)
  }

  // -------------------------------------------------------------------------
  // Buffer lists and bytes
  // -------------------------------------------------------------------------

  function SpotOf(v: VBuf): Spot { Spot(v.size, v.response, v.copy, v.base, v.from, v.to) }

  function Spots(vs: seq<VBuf>): (r: seq<Spot>)
    ensures |r| == |vs|
  {
    seq(|vs|, k requires 0 <= k < |vs| => SpotOf(vs[k]))
  }

  ghost predicate InBounds(vs: seq<VBuf>) {
    forall k :: 0 <= k < |vs| ==> vs[k].base + vs[k].size <= vs[k].buf.Length
  }

  // Buffer k of a list holds its part of the given bytes.
  ghost predicate PieceIn(vs: seq<VBuf>, k: nat, data: Bytes)
    requires k < |vs| && InBounds(vs)
    reads set v | v in vs :: v.buf
  {
    var p := SizeBefore(Spots(vs), k);
    p + vs[k].size <= |data| && Contents(vs[k]) == data[p..p + vs[k].size]
  }

  // The buffers of a list, one after the other, hold the given bytes.
  ghost predicate Hold(vs: seq<VBuf>, data: Bytes)
    requires InBounds(vs)
    reads set v | v in vs :: v.buf
  {
    && |data| == SizeBefore(Spots(vs), |vs|)
    && forall k: nat :: k < |vs| ==> PieceIn(vs, k, data)
  }

  // The data buffers of a task.
  function DataBufs(t: VirtioTask, stage: Stage): seq<VBuf>
    requires |t.vbufs| >= 2
    reads t
  {
    if Writes(stage) then t.vbufs[1..|t.vbufs| - 1] else t.vbufs[2..]
  }

  // A complete task for one command of a request.
  ghost predicate Built(dev: VirtioDev, io: IoDesc, stage: Stage, t: VirtioTask)
    requires dev.Valid() && io.offset <= dev.cap
    reads t
  {
    && t.Valid()
    && Spots(t.vbufs) == Plan(dev.blockSize, io.offset, LenOf(dev, io, stage), stage)
    && forall k :: 0 <= k < |t.vbufs| ==>
         if t.vbufs[k].copy then t.vbufs[k].buf.Length == t.vbufs[k].size else t.vbufs[k].buf == io.buf
  }

  // What the device learns from a task is exactly the given command.
  ghost predicate Tells(bs: nat, stage: Stage, t: VirtioTask, cmd: Command)
    requires |t.vbufs| >= 2 && InBounds(t.vbufs)
    reads t, set v | v in t.vbufs :: v.buf
  {
    var data := DataBufs(t, stage);
    match Cdb.CommandOf(Contents(t.vbufs[0]))
    case None => false
    case Some(cdb) =>
      && cdb.write == cmd.Write? == Writes(stage) && cdb.blk == cmd.blk
      && cdb.count * bs == Length(bs, cmd) == SizeBefore(Spots(data), |data|)
      && (cmd.Write? ==> Hold(data, cmd.payload))
  }

  // The device reports success in the response buffer.
  predicate Good(resp: VBuf)
    requires resp.buf.Length == RESPONSE_SIZE
    reads resp.buf
  {
    resp.buf[RESPONSE_AT] == 0 && resp.buf[STATUS_AT] == 0
  }
}
