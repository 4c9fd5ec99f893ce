/**
 Any number of asynchronous requests in flight at once, over one disk.  Commands of
 different requests are executed and answered in any order, and any command, allocation
 or submission may fail.
 */
module AsyncProtocol {
  import opened Common
  import opened Blocks
  import opened AsyncSpec

  type Id = nat

  datatype Phase =
    | Submitting                      // being put on the ring
    | InFlight                        // accepted, the device has not executed it
    | Answered(reply: Option<Bytes>)  // executed (or failed), the callback has not run

  datatype Op = Op(req: Request, stage: Stage, cmd: Command, phase: Phase, retval: int, issued: nat)

  // One completion in the output ring.
  datatype Entry = Entry(id: Id, req: Request, retval: int, data: Bytes, failed: bool)

  datatype World = World(
    bs: nat, numBlocks: nat,
    disk: Bytes,
    ops: map<Id, Op>,
    log: seq<Entry>,
    // history
    known: set<Id>, accepted: set<Id>)

  datatype Action =
    | Launch(id: Id, req: Request)   // virtio_submit is called
    | Accept(id: Id)                 // vring_submit_task succeeds
    | Reject(id: Id)                 // an allocation failed or the ring was full
    | Execute(id: Id, ok: bool)      // the device executes or fails the command
    | Callback(id: Id)               // the poller runs the callback

  // -------------------------------------------------------------------------
  // Footprints
  // -------------------------------------------------------------------------

  ghost function Lo(w: World, r: Request): nat
    requires w.bs > 0
  {
    Start(w.bs, r.off)
  }

  ghost function Hi(w: World, r: Request): nat
    requires w.bs > 0 && ValidRequest(|w.disk|, r)
  {
    End(w.bs, r.off, Size(|w.disk|, r))
  }

  // The bytes of the request itself.
  ghost predicate Own(cap: nat, r: Request, y: int)
    requires ValidRequest(cap, r)
  {
    r.off <= y < r.off + Size(cap, r)
  }

  // The bytes that a request depends on: its own if it reads; its blocks if it writes, as it may
  // read and put back the rest of the first and the last one.
  ghost function From(bs: nat, r: Request): nat
    requires bs > 0
  {
    if r.ReadReq? then r.off else Start(bs, r.off)
  }

  ghost function Upto(bs: nat, cap: nat, r: Request): nat
    requires bs > 0 && ValidRequest(cap, r)
  {
    if r.ReadReq? then r.off + Size(cap, r) else End(bs, r.off, Size(cap, r))
  }

  // Two requests may be outstanding together when both only read, when both write and their
  // blocks are disjoint, or when one reads and the other writes and their bytes are disjoint.
  ghost predicate Compatible(w: World, a: Request, b: Request)
    requires w.bs > 0 && ValidRequest(|w.disk|, a) && ValidRequest(|w.disk|, b)
  {
    var cap := |w.disk|;
    if a.ReadReq? && b.ReadReq? then true
    else if a.WriteReq? && b.WriteReq? then Hi(w, a) <= Lo(w, b) || Hi(w, b) <= Lo(w, a)
    else a.off + Size(cap, a) <= b.off || b.off + Size(cap, b) <= a.off
  }

  // -------------------------------------------------------------------------
  // Actions
  // -------------------------------------------------------------------------

  ghost predicate Enabled(w: World, a: Action) {
    match a
    case Launch(id, req) =>
      && id !in w.known && w.bs > 0 && ValidRequest(|w.disk|, req)
      && forall j :: j in w.ops ==> ValidRequest(|w.disk|, w.ops[j].req) && Compatible(w, req, w.ops[j].req)
    case Accept(id) => id in w.ops && w.ops[id].phase.Submitting?
    case Reject(id) => id in w.ops && w.ops[id].phase.Submitting?
    case Execute(id, ok) => id in w.ops && w.ops[id].phase.InFlight?
    case Callback(id) => id in w.ops && w.ops[id].phase.Answered?
  }

  ghost function Finished(w: World, id: Id, retval: int, data: Bytes, failed: bool): World
    requires id in w.ops
  {
    w.(ops := w.ops - {id}, log := w.log + [Entry(id, w.ops[id].req, retval, data, failed)])
  }

  ghost function ApplyLaunch(w: World, id: Id, req: Request): World
    requires w.bs > 0 && ValidRequest(|w.disk|, req)
  {
    var sub := FirstSubmission(w.bs, |w.disk|, req);
    w.(ops := w.ops[id := Op(req, sub.stage, sub.cmd, Submitting, -1, 0)], known := w.known + {id})
  }

  ghost function ApplyAccept(w: World, id: Id): World
    requires id in w.ops
  {
    var op := w.ops[id];
    w.(ops := w.ops[id := op.(phase := InFlight, issued := op.issued + 1)],
       accepted := w.accepted + {id})
  }

  // Refusing the first command makes virtio_submit return -1; a later one ends the
  // request with what was written so far.
  ghost function ApplyReject(w: World, id: Id): World
    requires id in w.ops
  {
    if w.ops[id].issued == 0 then w.(ops := w.ops - {id})
    else Finished(w, id, w.ops[id].retval, [], true)
  }

  ghost function ApplyExecute(w: World, id: Id, ok: bool): World
    requires id in w.ops && Fits(w.bs, w.disk, w.ops[id].cmd)
  {
    var op := w.ops[id];
    if !ok then w.(ops := w.ops[id := op.(phase := Answered(None))])
    else w.(disk := DiskAfter(w.bs, w.disk, op.cmd),
            ops := w.ops[id := op.(phase := Answered(Some(DataOf(w.bs, w.disk, op.cmd))))])
  }

  ghost function ApplyCallback(w: World, id: Id): World
    requires id in w.ops && w.ops[id].phase.Answered? && w.bs > 0
    requires ValidRequest(|w.disk|, w.ops[id].req)
    requires ReplyFits(w.bs, |w.disk|, w.ops[id].req, w.ops[id].stage, w.ops[id].phase.reply)
  {
    var op := w.ops[id];
    match OnReply(w.bs, |w.disk|, op.req, op.stage, op.retval, op.phase.reply)
    case Submit(sub, retval) =>
      w.(ops := w.ops[id := Op(op.req, sub.stage, sub.cmd, Submitting, retval, op.issued)])
    case Finish(retval, data) => Finished(w, id, retval, data, op.phase.reply.None?)
  }

  // -------------------------------------------------------------------------
  // The sequential meaning of the output ring
  // -------------------------------------------------------------------------

  // A completed write with return value r has put exactly its first r bytes on the disk.
  function ApplyEntry(disk: Bytes, e: Entry): (r: Bytes)
    ensures |r| == |disk|
  {
    if e.req.WriteReq? && 0 < e.retval <= |e.req.buf| && e.req.off + e.retval <= |disk|
    then Splice(disk, e.req.off, e.req.buf[..e.retval])
    else disk
  }

  function Replay(disk: Bytes, log: seq<Entry>): (r: Bytes)
    ensures |r| == |disk|
  {
    if log == [] then disk
    else ApplyEntry(Replay(disk, log[..|log| - 1]), log[|log| - 1])
  }

  // What a return value promises, given the disk that all earlier completions left.
  predicate EntryOk(disk: Bytes, e: Entry) {
    && ValidRequest(|disk|, e.req)
    && match e.req
       case WriteReq(_, buf) =>
         (e.retval == -1 || 0 < e.retval <= |buf|) && (e.failed <==> e.retval != |buf|)
       case ReadReq(off, _) =>
         var n := Size(|disk|, e.req);
         if e.failed then e.retval == -1 && e.data == []
         else e.retval == n && e.data == disk[off..off + n]
  }

  predicate LogOk(disk: Bytes, log: seq<Entry>) {
    forall i :: 0 <= i < |log| ==> EntryOk(Replay(disk, log[..i]), log[i])
  }

  // -------------------------------------------------------------------------
  // The invariant
  // -------------------------------------------------------------------------

  // How many bytes of its buffer a write has put on the disk.
  ghost function Progress(bs: nat, op: Op): nat
    requires bs > 0
  {
    match op.req
    case ReadReq(_, _) => 0
    case WriteReq(off, buf) =>
      var executed := op.phase.Answered? && op.phase.reply.Some?;
      match op.stage
      case FullWrite => if executed then Full(bs, off, |buf|) else 0
      case LastRead => Full(bs, off, |buf|)
      case LastWrite => if executed then |buf| else Full(bs, off, |buf|)
      case _ => 0
  }

  // From lo to hi the disk shows the first k bytes of a write over the base.
  ghost predicate Shows(disk: Bytes, base: Bytes, r: Request, k: nat, lo: nat, hi: nat)
    requires |disk| == |base| && (r.WriteReq? ==> k <= |r.buf|)
  {
    forall y :: lo <= y < hi && y < |disk| ==>
      disk[y] == if r.WriteReq? && r.off <= y < r.off + k then r.buf[y - r.off] else base[y]
  }

  // A payload for position pos carries the bytes of a write below `upto` over the base.
  ghost predicate Carries(payload: Bytes, pos: nat, base: Bytes, r: Request, upto: nat)
    requires r.WriteReq? && upto <= r.off + |r.buf| && pos + |payload| <= |base|
  {
    forall i :: 0 <= i < |payload| ==>
      payload[i] == if r.off <= pos + i < upto then r.buf[pos + i - r.off] else base[pos + i]
  }

  ghost predicate CommandOk(bs: nat, base: Bytes, op: Op)
    requires bs > 0 && ValidRequest(|base|, op.req) && RangeIs(bs, |base|, op.req)
  {
    var r, n := op.req, Size(|base|, op.req);
    var lo, hi, full := Start(bs, r.off), End(bs, r.off, n), Full(bs, r.off, n);
    var pos := op.cmd.blk * bs;
    && hi <= |base|
    && match op.stage
       case WholeRead =>
         r.ReadReq? && op.cmd.Read? && pos == lo && op.cmd.count * bs == hi - lo && op.retval == -1
       case FirstRead =>
         r.WriteReq? && op.cmd == Read(r.off / bs, 1) && r.off % bs != 0 && op.retval == -1
       case FullWrite =>
         && r.WriteReq? && op.cmd.Write? && pos == lo && op.retval == -1 && 0 < full
         && lo + |op.cmd.payload| <= hi && r.off + full <= lo + |op.cmd.payload|
         && (full == n ==> lo + |op.cmd.payload| == hi)
         && (full < n ==> lo + |op.cmd.payload| == r.off + full)
         && Carries(op.cmd.payload, lo, base, r, r.off + full)
       case LastRead =>
         && r.WriteReq? && op.cmd.Read? && op.cmd.count == 1 && full < n
         && pos == r.off + full && hi == pos + bs
         && op.retval == (if full > 0 then full as int else -1)
       case LastWrite =>
         && r.WriteReq? && op.cmd.Write? && full < n
         && pos == r.off + full && hi == pos + bs && |op.cmd.payload| == bs
         && op.retval == (if full > 0 then full as int else -1)
         && Carries(op.cmd.payload, pos, base, r, r.off + n)
  }

  // Of what was read, the bytes that the request depends on are those of the base.
  ghost predicate ReplyOk(bs: nat, base: Bytes, op: Op)
    requires bs > 0 && ValidRequest(|base|, op.req)
  {
    op.phase.Answered? && op.phase.reply.Some? && op.cmd.Read? ==>
      var reply, pos := op.phase.reply.value, op.cmd.blk * bs;
      && |reply| == op.cmd.count * bs && pos + |reply| <= |base|
      && forall i :: 0 <= i < |reply| && From(bs, op.req) <= pos + i < Upto(bs, |base|, op.req) ==>
           reply[i] == base[pos + i]
  }

  // Commands that a request has issued when it waits for a stage, and could still issue.
  function Rank(stage: Stage): nat {
    match stage
    case WholeRead => 1
    case FirstRead => 1
    case FullWrite => 2
    case LastRead => 3
    case LastWrite => 4
  }

  ghost predicate OpOk(bs: nat, base: Bytes, disk: Bytes, op: Op)
    requires bs > 0 && |disk| == |base|
  {
    && ValidRequest(|base|, op.req)
    && RangeIs(bs, |base|, op.req)
    && CommandOk(bs, base, op) && ReplyOk(bs, base, op)
    && op.issued + (if op.phase.Submitting? then 1 else 0) <= Rank(op.stage)
    && (op.phase.Submitting? || op.issued > 0)
    && (op.issued == 0 ==> op.retval == -1 && Progress(bs, op) == 0)
    && Shows(disk, base, op.req, Progress(bs, op), From(bs, op.req), Upto(bs, |base|, op.req))
  }

  ghost predicate RangeIs(bs: nat, cap: nat, r: Request)
    requires bs > 0 && ValidRequest(cap, r)
  {
    Laid(bs, r.off, Size(cap, r))
  }

  // Byte y belongs to no outstanding write.
  ghost predicate Untouched(w: World, y: nat)
    requires RequestsValid(w)
  {
    forall j :: j in w.ops && w.ops[j].req.WriteReq? ==> !Own(|w.disk|, w.ops[j].req, y)
  }

  ghost predicate Ids(w: World) {
    && w.ops.Keys <= w.known && w.accepted <= w.known
    && (forall j :: j in w.ops ==> (j in w.accepted <==> w.ops[j].issued > 0))
    && (forall i :: 0 <= i < |w.log| ==> w.log[i].id in w.accepted && w.log[i].id !in w.ops)
    && (forall i, j :: 0 <= i < j < |w.log| ==> w.log[i].id != w.log[j].id)
    && (forall id :: id in w.accepted && id !in w.ops ==> exists i :: 0 <= i < |w.log| && w.log[i].id == id)
  }

  ghost predicate RequestsValid(w: World) {
    w.bs > 0 && forall j :: j in w.ops ==> ValidRequest(|w.disk|, w.ops[j].req)
  }

  ghost predicate Apart(w: World)
    requires RequestsValid(w)
  {
    forall i, j :: i in w.ops && j in w.ops && i != j ==> Compatible(w, w.ops[i].req, w.ops[j].req)
  }

  ghost predicate OutsideSame(w: World, base: Bytes)
    requires RequestsValid(w) && |w.disk| == |base|
  {
    forall y :: 0 <= y < |w.disk| && Untouched(w, y) ==> w.disk[y] == base[y]
  }

  ghost predicate OpsOk(w: World, base: Bytes)
    requires w.bs > 0 && |w.disk| == |base|
  {
    forall j {:trigger OpOk(w.bs, base, w.disk, w.ops[j])} :: j in w.ops ==> OpOk(w.bs, base, w.disk, w.ops[j])
  }

  ghost predicate Inv(w: World, disk0: Bytes) {
    && |disk0| == |w.disk| == w.bs * w.numBlocks
    && RequestsValid(w) && Apart(w)
    && OpsOk(w, Replay(disk0, w.log)) && OutsideSame(w, Replay(disk0, w.log))
    && LogOk(disk0, w.log)
    && Ids(w)
  }
}
