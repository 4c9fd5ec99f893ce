/**
 The asynchronous interface in use: any number of requests are submitted, served by the device
 and carried on by their callbacks, in any order.  The objects in memory are tied to a run of
 the step system, whose results hold for them therefore.
 */
module AsyncSession {
  import opened Common
  import opened Blocks
  import opened AsyncSpec
  import opened VirtioTasks
  import opened Layout
  import opened VirtioDev
  import opened AsyncIo
  import opened AsyncTarget
  import opened Ledger
  import Cdb
  import W = AsyncProtocol
  import A = AsyncCorrectness
  import I = AsyncInvariant

  // -------------------------------------------------------------------------
  // One outstanding request
  // -------------------------------------------------------------------------

  // The bytes that a list of buffers holds.
  ghost function Joined(vs: seq<VBuf>): Bytes
    requires InBounds(vs)
    reads set v | v in vs :: v.buf
  {
    if vs == [] then [] else Joined(vs[..|vs| - 1]) + Contents(vs[|vs| - 1])
  }

  lemma {:induction false} HoldsJoined(vs: seq<VBuf>)
    requires InBounds(vs)
    ensures Hold(vs, Joined(vs))
  {
    if vs != [] {
      HoldsJoined(vs[..|vs| - 1]);
      HoldsMore(vs, vs[..|vs| - 1], Joined(vs[..|vs| - 1]));
    }
  }

  // What the task holds after the device has answered.
  ghost predicate AnswerHeld(k: Ticket, phase: W.Phase)
    requires |k.task.vbufs| >= 3 && RespOf(k.task, k.stage).buf.Length == RESPONSE_SIZE
    reads k.task, set v | v in k.task.vbufs :: v.buf
  {
    && !phase.Submitting?
    && (phase.Answered? ==> Good(RespOf(k.task, k.stage)) == phase.reply.Some?)
    && (phase.Answered? && phase.reply.Some? ==>
          if Writes(k.stage) then phase.reply.value == []
          else
            && InBounds(DataBufs(k.task, k.stage)) && Hold(DataBufs(k.task, k.stage), phase.reply.value)
            && k.task.usedBytes == RESPONSE_SIZE + |phase.reply.value|)
  }

  // The task on the ring carries the command that the request has reached.
  ghost predicate TicketOk(dev: VirtioDev, k: Ticket, op: W.Op)
    reads k.task, k.io, k.io.buf, set v | v in k.task.vbufs :: v.buf
  {
    && Servable(dev, k.io) && RequestOf(k.io) == op.req && k.stage == op.stage
    && (k.io.isWrite ==> k.io.retval == op.retval)
    && k.task.Valid() && |k.task.vbufs| >= 3 && RespOf(k.task, k.stage).buf.Length == RESPONSE_SIZE
    && (forall i :: 0 <= i < |k.task.vbufs| ==> k.task.vbufs[i].buf == k.io.buf || k.task.vbufs[i].buf in k.task.Owned())
    && Carries(dev, k.io, Submission(op.stage, op.cmd), k.task)
    && AnswerHeld(k, op.phase)
  }

  lemma BuiltShape(dev: VirtioDev, io: IoDesc, stage: Stage, t: VirtioTask)
    requires Servable(dev, io) && Built(dev, io, stage, t)
    ensures |t.vbufs| >= 3 && RespOf(t, stage).buf.Length == RESPONSE_SIZE
    ensures forall i :: 0 <= i < |t.vbufs| ==> t.vbufs[i].buf == io.buf || t.vbufs[i].buf in t.Owned()
  {
    PlanFits(dev.blockSize, io.offset, LenOf(dev, io, stage), stage);
    CopiesAre(t.vbufs);
    var k := if Writes(stage) then |t.vbufs| - 1 else 1;
    assert Spots(t.vbufs)[k] == Resp();
  }

  // A task that was just put on the ring.
  lemma NewTicket(dev: VirtioDev, io: IoDesc, sub: Submission, t: VirtioTask, op: W.Op)
    requires Servable(dev, io) && Carries(dev, io, sub, t)
    requires RequestOf(io) == op.req && (io.isWrite ==> io.retval == op.retval)
    requires op.stage == sub.stage && op.cmd == sub.cmd && op.phase.InFlight?
    ensures TicketOk(dev, Ticket(t, sub.stage, io), op)
  {
    assert Ask(Topic.Orders, 0);
    BuiltShape(dev, io, sub.stage, t);
  }

  // What a callback may rely on follows from what the request has done.
  lemma StageFacts(w: W.World, disk0: Bytes, id: W.Id)
    requires W.Inv(w, disk0) && id in w.ops
    ensures var op, n := w.ops[id], Size(|w.disk|, w.ops[id].req);
            && (op.stage == WholeRead <==> op.req.ReadReq?)
            && (op.stage == FirstRead ==> op.req.off % w.bs != 0)
            && (op.stage == LastRead || op.stage == LastWrite ==> Full(w.bs, op.req.off, n) < n)
            && Fits(w.bs, w.disk, op.cmd) && (op.cmd.Write? <==> Writes(op.stage))
            && (op.req.off < |w.disk| ==> op.cmd.blk * w.bs < |w.disk|)
  {
    assert W.OpOk(w.bs, I.Base(w, disk0), w.disk, w.ops[id]);
    Division(w.bs, w.ops[id].req.off);
    I.CommandFits(w.bs, I.Base(w, disk0), w.ops[id]);
  }

  lemma ReplySize(w: W.World, disk0: Bytes, id: W.Id)
    requires W.Inv(w, disk0) && id in w.ops && w.ops[id].phase.Answered? && w.ops[id].phase.reply.Some?
    ensures w.ops[id].cmd.Read? ==> |w.ops[id].phase.reply.value| <= |w.disk|
  {
    assert W.OpOk(w.bs, I.Base(w, disk0), w.disk, w.ops[id]);
  }

  lemma UsedWhole(t: VirtioTask, m: nat)
    requires t.usedBytes == RESPONSE_SIZE + m && m < 0x1_0000_0000_0000_0000
    ensures UsedData(t) == m
  {
  }

  // The callback of the ticket can run, and reacts as the request is to react.
  lemma TicketDone(dev: VirtioDev, k: Ticket, w: W.World, disk0: Bytes, id: W.Id) returns (reply: Bytes)
    requires W.Inv(w, disk0) && id in w.ops && w.bs == dev.blockSize && |w.disk| == dev.cap
    requires TicketOk(dev, k, w.ops[id]) && w.ops[id].phase.Answered?
    requires k.task.Owned() <= dev.mem.live && k.io.buf !in dev.mem.live && |dev.outring| < OUTRING_SIZE - 1
    ensures Done(dev, k.io, k.stage, k.task, reply)
    ensures ValidRequest(|w.disk|, w.ops[id].req)
    ensures ReplyFits(w.bs, |w.disk|, w.ops[id].req, w.ops[id].stage, w.ops[id].phase.reply)
    ensures var op := w.ops[id];
            Reaction(dev, k.io, k.stage, k.task, reply) == OnReply(w.bs, |w.disk|, op.req, op.stage, op.retval, op.phase.reply)
    ensures k.stage == WholeRead && Good(RespOf(k.task, k.stage)) ==> SizeOf(dev, k.io) <= UsedData(k.task)
  {
    assert Ask(Topic.Orders, 0);
    StageFacts(w, disk0, id);
    RequestValid(dev, k.io);
    var op := w.ops[id];
    if Writes(k.stage) {
      reply := [];
    } else if op.phase.reply.Some? {
      reply := op.phase.reply.value;
      ReplySize(w, disk0, id);
      UsedWhole(k.task, |reply|);
    } else {
      HoldsJoined(DataBufs(k.task, k.stage));
      reply := Joined(DataBufs(k.task, k.stage));
    }
    DoneFits(dev, k.io, k.stage, k.task, reply);
  }

  // -------------------------------------------------------------------------
  // All outstanding requests
  // -------------------------------------------------------------------------

  type Tickets = map<W.Id, Ticket>

  // The memory that the task of each request owns.
  ghost function Owns(tickets: Tickets): map<W.Id, set<object>>
    reads set id | id in tickets :: tickets[id].task
  {
    map id | id in tickets :: tickets[id].task.Owned()
  }

  // Two requests may be outstanding together with one buffer only if both are writes.
  predicate Separate(a: IoDesc, b: IoDesc) {
    a != b && (a.buf != b.buf || (a.isWrite && b.isWrite))
  }

  // What is outstanding: the requests and their tickets.
  datatype Pending = Pending(dev: VirtioDev, disk: array<Byte>, tickets: Tickets, ops: map<W.Id, W.Op>) {
    function Without(id: W.Id): Pending { this.(tickets := tickets - {id}, ops := ops - {id}) }

    function With(id: W.Id, k: Ticket, op: W.Op): Pending { this.(tickets := tickets[id := k], ops := ops[id := op]) }
  }

  // Every request has its ticket on the ring.
  ghost predicate TicketsOk(p: Pending)
    reads set id | id in p.tickets :: p.tickets[id].task, set id | id in p.tickets :: p.tickets[id].io,
          set id | id in p.tickets :: p.tickets[id].io.buf,
          set id, v | id in p.tickets && v in p.tickets[id].task.vbufs :: v.buf
  {
    && p.tickets.Keys == p.ops.Keys
    && forall k {:trigger Ask(Topic.Tickets, k)} :: Ask(Topic.Tickets, k) ==>
         forall id {:trigger p.tickets[id]} :: id in p.tickets ==> TicketOk(p.dev, p.tickets[id], p.ops[id])
  }

  // The user's buffers are the user's, and used by one request.
  ghost predicate BufsApart(live: set<object>, disk: array<Byte>, tickets: Tickets) {
    forall k {:trigger Ask(Topic.Lending, k)} :: Ask(Topic.Lending, k) ==>
      && disk !in live
      && (forall id :: id in tickets ==> tickets[id].io.buf !in live && tickets[id].io.buf != disk)
      && (forall i, j :: i in tickets && j in tickets && i != j ==> Separate(tickets[i].io, tickets[j].io))
  }

  ghost predicate Audited(live: set<object>, held: map<W.Id, set<object>>) {
    forall k {:trigger Ask(Topic.Ownership, k)} :: Ask(Topic.Ownership, k) ==>
      Balanced(live, held)
  }

  // All of this together.
  ghost predicate Kept(p: Pending)
    reads p.dev.mem, set id | id in p.tickets :: p.tickets[id].task, set id | id in p.tickets :: p.tickets[id].io,
          set id | id in p.tickets :: p.tickets[id].io.buf,
          set id, v | id in p.tickets && v in p.tickets[id].task.vbufs :: v.buf
  {
    forall k {:trigger Ask(Topic.Requests, k)} :: Ask(Topic.Requests, k) ==>
      && TicketsOk(p) && BufsApart(p.dev.mem.live, p.disk, p.tickets)
      && Audited(p.dev.mem.live, Owns(p.tickets))
  }

  // A buffer that a new request may use.
  ghost predicate Lendable(live: set<object>, disk: array<Byte>, tickets: Tickets, io: IoDesc) {
    && io.buf != disk && io.buf !in live
    && forall j :: j in tickets ==> Separate(io, tickets[j].io)
  }

  // Nothing that the ticket stands for was touched.
  twostate predicate Untouched(k: Ticket)
    reads k.task, k.io, k.io.buf, set v | v in k.task.vbufs :: v.buf
  {
    && unchanged(k.task) && unchanged(k.io) && unchanged(k.io.buf)
    && forall v :: v in k.task.vbufs ==> unchanged(v.buf)
  }

  twostate predicate AllUntouched(tickets: Tickets)
    reads set id | id in tickets :: tickets[id].task, set id | id in tickets :: tickets[id].io,
          set id | id in tickets :: tickets[id].io.buf,
          set id, v | id in tickets && v in tickets[id].task.vbufs :: v.buf
  {
    forall k {:trigger Ask(Topic.Frames, k)} :: Ask(Topic.Frames, k) ==>
      forall id :: id in tickets ==> Untouched(tickets[id])
  }

  twostate lemma TicketsStay(p: Pending)
    requires old(TicketsOk(p)) && AllUntouched(p.tickets)
    ensures TicketsOk(p) && Owns(p.tickets) == old(Owns(p.tickets))
  {
    OwnsStay(p.tickets);
    assert Ask(Topic.Frames, 0) && Ask(Topic.Tickets, 0);
    forall id | id in p.tickets ensures TicketOk(p.dev, p.tickets[id], p.ops[id]) {
      assert old(TicketOk(p.dev, p.tickets[id], p.ops[id])) && Untouched(p.tickets[id]);
    }
  }

  twostate lemma OwnsStay(tickets: Tickets)
    requires AllUntouched(tickets)
    ensures Owns(tickets) == old(Owns(tickets))
  {
    assert Ask(Topic.Frames, 0);
    forall id | id in tickets ensures tickets[id].task.Owned() == old(tickets[id].task.Owned()) {
      assert Untouched(tickets[id]);
    }
  }

  // A request is put on the ring.
  lemma TicketAdded(p: Pending, id: W.Id, k: Ticket, op: W.Op)
    requires TicketsOk(p) && id !in p.tickets && TicketOk(p.dev, k, op)
    ensures TicketsOk(p.With(id, k, op))
    ensures Owns(p.tickets[id := k]) == Owns(p.tickets)[id := k.task.Owned()]
  {
    assert Ask(Topic.Tickets, 0);
    var q := p.With(id, k, op);
    forall j | j in q.tickets ensures TicketOk(q.dev, q.tickets[j], q.ops[j]) {
      if j != id { assert TicketOk(p.dev, p.tickets[j], p.ops[j]); }
    }
    OwnsAdded(p.tickets, id, k);
  }

  lemma OwnsAdded(tickets: Tickets, id: W.Id, k: Ticket)
    ensures Owns(tickets[id := k]) == Owns(tickets)[id := k.task.Owned()]
  {
  }

  // A request leaves; the others were not touched.
  twostate lemma OthersStay(p: Pending, new id: W.Id)
    requires old(TicketsOk(p)) && id in p.tickets && AllUntouched(p.tickets - {id})
    ensures TicketsOk(p.Without(id)) && Owns(p.tickets - {id}) == old(Owns(p.tickets)) - {id}
  {
    WithoutOne(p, id);
    TicketsStay(p.Without(id));
  }

  twostate lemma WithoutOne(p: Pending, new id: W.Id)
    requires old(TicketsOk(p)) && id in p.tickets
    ensures old(TicketsOk(p.Without(id))) && old(Owns(p.tickets - {id})) == old(Owns(p.tickets)) - {id}
  {
    assert Ask(Topic.Tickets, 0);
  }

  lemma WithoutWith(p: Pending, id: W.Id, k: Ticket, op: W.Op)
    requires id in p.tickets && id in p.ops
    ensures p.Without(id).With(id, k, op) == p.With(id, k, op)
  {
    RemovedThenPut(p.tickets, id, k);
    RemovedThenPut(p.ops, id, op);
  }

  lemma BufsStillApart(live: set<object>, live': set<object>, disk: array<Byte>, tickets: Tickets, tickets': Tickets,
                       id: W.Id, io: IoDesc)
    requires BufsApart(live, disk, tickets) && disk !in live' - live && io.buf !in live' && io.buf != disk
    requires forall j :: j in tickets ==> tickets[j].io.buf !in live' - live
    requires forall j :: j in tickets' && j != id ==> j in tickets && tickets'[j] == tickets[j]
    requires id in tickets' ==> tickets'[id].io == io
    requires forall j :: j in tickets && j != id ==> Separate(io, tickets[j].io)
    ensures BufsApart(live', disk, tickets')
  {
    assert Ask(Topic.Lending, 0);
  }

  // The same users, or fewer, and no memory that they know.
  lemma SameUsers(live: set<object>, live': set<object>, disk: array<Byte>, tickets: Tickets, tickets': Tickets)
    requires BufsApart(live, disk, tickets) && disk !in live' - live
    requires forall j :: j in tickets ==> tickets[j].io.buf !in live' - live
    requires forall j :: j in tickets' ==> j in tickets && tickets'[j].io == tickets[j].io
    ensures BufsApart(live', disk, tickets')
  {
    assert Ask(Topic.Lending, 0);
  }

  // Nothing has happened to the ring and the memory.
  twostate lemma KeptStays(p: Pending)
    requires old(Kept(p)) && AllUntouched(p.tickets) && p.dev.mem.live == old(p.dev.mem.live)
    ensures Kept(p)
  {
    assert Ask(Topic.Requests, 0);
    TicketsStay(p);
  }

  // A new request beside what is outstanding.
  datatype Start = Start(p: Pending, io: IoDesc)

  // The ticket of the last submission.
  function Newest(dev: VirtioDev): Ticket
    requires dev.submitted != []
    reads dev
  {
    dev.submitted[|dev.submitted| - 1]
  }

  // After virtio_submit the ring has one more task.
  twostate lemma StartKeeps(s: Start, new id: W.Id, new sub: Submission, new op: W.Op)
    requires old(Kept(s.p)) && id !in s.p.tickets && Servable(s.p.dev, s.io)
    requires Lendable(old(s.p.dev.mem.live), s.p.disk, s.p.tickets, s.io) && AllUntouched(s.p.tickets)
    requires Launched(s.p.dev, s.io, 0, sub)
    requires op.req == RequestOf(s.io) && op.stage == sub.stage && op.cmd == sub.cmd && op.phase.InFlight?
    requires s.io.isWrite ==> s.io.retval == op.retval
    ensures s.p.dev.submitted != [] && Newest(s.p.dev).io == s.io
    ensures Kept(s.p.With(id, Newest(s.p.dev), op))
  {
    assert Ask(Topic.Requests, 0) && Ask(Topic.Ownership, 0);
    var k := Newest(s.p.dev);
    TicketsStay(s.p);
    Acquired(old(s.p.dev.mem.live), Owns(s.p.tickets), id, k.task.Owned());
    NewTicket(s.p.dev, s.io, sub, k.task, op);
    TicketAdded(s.p, id, k, op);
    BufsStillApart(old(s.p.dev.mem.live), s.p.dev.mem.live, s.p.disk, s.p.tickets, s.p.tickets[id := k], id, s.io);
  }

  // -------------------------------------------------------------------------
  // The device answers
  // -------------------------------------------------------------------------

  lemma UserResponse(bs: nat, off: nat, n: nat, stage: Stage, i: nat)
    requires bs > 0 && i < |Plan(bs, off, n, stage)|
    ensures var s := Plan(bs, off, n, stage)[i]; s.response && !s.copy ==> stage == WholeRead
  {
  }

  // What the device may write is the task's own, or the buffer of a read.
  lemma ResponseBufs(dev: VirtioDev, k: Ticket, op: W.Op, i: nat)
    requires TicketOk(dev, k, op) && (op.stage == WholeRead <==> op.req.ReadReq?) && i < |k.task.vbufs|
    ensures var v := k.task.vbufs[i]; v.response ==> v.buf in k.task.Owned() || (v.buf == k.io.buf && !k.io.isWrite)
  {
    assert Ask(Topic.Orders, 0);
    UserResponse(dev.blockSize, k.io.offset, LenOf(dev, k.io, k.stage), k.stage, i);
    assert Spots(k.task.vbufs)[i] == SpotOf(k.task.vbufs[i]);
    CopiesAre(k.task.vbufs);
  }

  // The device writes nothing that belongs to the other request.
  ghost predicate Away(k: Ticket, other: Ticket)
    reads k.task, other.task
  {
    && k.task != other.task
    && forall v :: v in k.task.vbufs && v.response ==>
         v.buf != other.io.buf && forall u :: u in other.task.vbufs ==> u.buf != v.buf
  }

  // What is kept for one request, and for two.
  lemma KeptTicket(p: Pending, id: W.Id)
    requires Kept(p) && id in p.tickets
    ensures id in p.ops && TicketOk(p.dev, p.tickets[id], p.ops[id]) && p.tickets[id].task.Owned() <= p.dev.mem.live
    ensures p.disk !in p.dev.mem.live && p.tickets[id].io.buf !in p.dev.mem.live && p.tickets[id].io.buf != p.disk
  {
    assert Ask(Topic.Requests, 0) && Ask(Topic.Tickets, 0) && Ask(Topic.Lending, 0) && Ask(Topic.Ownership, 0);
    assert Owns(p.tickets)[id] == p.tickets[id].task.Owned();
  }

  lemma KeptPair(p: Pending, i: W.Id, j: W.Id)
    requires Kept(p) && i in p.tickets && j in p.tickets && i != j
    ensures p.tickets[i].task.Owned() !! p.tickets[j].task.Owned() && Separate(p.tickets[i].io, p.tickets[j].io)
  {
    assert Ask(Topic.Requests, 0) && Ask(Topic.Lending, 0) && Ask(Topic.Ownership, 0);
    assert Owns(p.tickets)[i] == p.tickets[i].task.Owned() && Owns(p.tickets)[j] == p.tickets[j].task.Owned();
  }

  lemma TicketAway(p: Pending, id: W.Id, j: W.Id)
    requires Kept(p) && id in p.tickets && j in p.tickets && j != id
    requires id in p.ops && (p.ops[id].stage == WholeRead <==> p.ops[id].req.ReadReq?)
    ensures Away(p.tickets[id], p.tickets[j])
  {
    KeptTicket(p, id);
    KeptTicket(p, j);
    KeptPair(p, id, j);
    var k, other := p.tickets[id], p.tickets[j];
    forall v | v in k.task.vbufs && v.response
      ensures v.buf != other.io.buf && forall u :: u in other.task.vbufs ==> u.buf != v.buf
    {
      var i :| 0 <= i < |k.task.vbufs| && k.task.vbufs[i] == v;
      ResponseBufs(p.dev, k, p.ops[id], i);
    }
  }

  // What the device writes for a write command is not the user's.
  lemma ResponsesOwn(dev: VirtioDev, k: Ticket, op: W.Op)
    requires TicketOk(dev, k, op) && (op.stage == WholeRead <==> op.req.ReadReq?)
    requires k.io.buf !in k.task.Owned()
    ensures k.io.isWrite ==> forall v :: v in k.task.vbufs && v.response ==> v.buf != k.io.buf
  {
    forall v | v in k.task.vbufs && v.response && k.io.isWrite ensures v.buf != k.io.buf {
      var i :| 0 <= i < |k.task.vbufs| && k.task.vbufs[i] == v;
      ResponseBufs(dev, k, op, i);
    }
  }

  ghost predicate AwayFromDisk(disk: array<Byte>, k: Ticket)
    reads k.task
  {
    k.io.buf != disk && forall v :: v in k.task.vbufs ==> v.buf != disk
  }

  lemma OthersAway(p: Pending, id: W.Id)
    requires Kept(p) && id in p.tickets
    requires id in p.ops && (p.ops[id].stage == WholeRead <==> p.ops[id].req.ReadReq?)
    ensures forall j :: j in p.tickets - {id} ==>
      Away(p.tickets[id], (p.tickets - {id})[j]) && AwayFromDisk(p.disk, (p.tickets - {id})[j])
  {
    forall j | j in p.tickets - {id} ensures Away(p.tickets[id], p.tickets[j]) && AwayFromDisk(p.disk, p.tickets[j]) {
      TicketAway(p, id, j);
      KeptTicket(p, j);
    }
  }

  // The task of a ticket is what the device needs.
  lemma TicketGiven(dev: VirtioDev, disk: array<Byte>, k: Ticket, op: W.Op)
    requires TicketOk(dev, k, op) && Fits(dev.blockSize, disk[..], op.cmd)
    requires k.io.buf != disk && k.io.buf !in k.task.Owned() && disk !in k.task.Owned()
    requires Cdb.OnWire(dev.numBlocks, op.cmd) == op.cmd
    ensures Given(dev, disk, k.stage, k.task, op.cmd)
  {
    assert Ask(Topic.Orders, 0);
    BufsDistinct(dev, k.io, k.stage, k.task);
    forall i: nat | i < |k.task.vbufs|
      ensures k.task.vbufs[i].response == if Writes(k.stage) then i == |k.task.vbufs| - 1 else i > 0
    {
      PlanDirection(dev.blockSize, k.io.offset, LenOf(dev, k.io, k.stage), k.stage, i);
      assert Spots(k.task.vbufs)[i] == SpotOf(k.task.vbufs[i]);
    }
  }

  // The request of the ticket now waits for its callback.
  twostate lemma TicketAnswered(p: Pending, new id: W.Id, new reply: Option<Bytes>)
    requires id in p.tickets && id in p.ops && old(TicketOk(p.dev, p.tickets[id], p.ops[id]))
    requires (p.ops[id].stage == WholeRead <==> p.ops[id].req.ReadReq?) && (p.ops[id].cmd.Write? <==> Writes(p.ops[id].stage))
    requires var k := p.tickets[id];
             && k.task.vbufs == old(k.task.vbufs) && unchanged(k.io) && (k.io.isWrite ==> unchanged(k.io.buf))
             && InBounds(k.task.vbufs) && Tells(p.dev.blockSize, k.stage, k.task, p.ops[id].cmd)
             && Good(RespOf(k.task, k.stage)) == reply.Some?
    requires Cdb.OnWire(p.dev.numBlocks, p.ops[id].cmd) == p.ops[id].cmd
    requires reply.Some? && p.ops[id].cmd.Write? ==> reply.value == []
    requires reply.Some? && p.ops[id].cmd.Read? ==>
      var k := p.tickets[id];
      k.task.usedBytes == RESPONSE_SIZE + |reply.value| && Hold(DataBufs(k.task, k.stage), reply.value)
    ensures TicketOk(p.dev, p.tickets[id], p.ops[id].(phase := W.Answered(reply)))
    ensures p.tickets[id].task.Owned() == old(p.tickets[id].task.Owned())
  {
    assert Ask(Topic.Orders, 0);
  }

  // The device has answered request id and touched no other.
  twostate lemma AnswerKeeps(p: Pending, new id: W.Id, new op': W.Op)
    requires old(Kept(p)) && id in p.tickets && AllUntouched(p.tickets - {id})
    requires p.dev.mem.live == old(p.dev.mem.live)
    requires TicketOk(p.dev, p.tickets[id], op') && p.tickets[id].task.Owned() == old(p.tickets[id].task.Owned())
    ensures Kept(p.(ops := p.ops[id := op']))
  {
    assert Ask(Topic.Requests, 0);
    var k := p.tickets[id];
    OthersStay(p, id);
    TicketAdded(p.Without(id), id, k, op');
    WithoutWith(p, id, k, op');
    RemovedThenPut(p.tickets, id, k);
    RemovedThenPut(old(Owns(p.tickets)), id, k.task.Owned());
  }

  // -------------------------------------------------------------------------
  // A callback runs
  // -------------------------------------------------------------------------

  // The callback touches nothing of the other requests.
  ghost predicate Apart(k: Ticket, other: Ticket)
    reads other.task
  {
    && k.io != other.io
    && (!k.io.isWrite ==> other.io.buf != k.io.buf && forall u :: u in other.task.vbufs ==> u.buf != k.io.buf)
  }

  lemma OthersApart(p: Pending, id: W.Id)
    requires Kept(p) && id in p.tickets
    ensures forall j :: j in p.tickets - {id} ==> Apart(p.tickets[id], (p.tickets - {id})[j])
  {
    KeptTicket(p, id);
    forall j | j in p.tickets - {id} ensures Apart(p.tickets[id], (p.tickets - {id})[j]) {
      KeptTicket(p, j);
      KeptPair(p, id, j);
    }
  }

  // The callback of the ticket can run, and its reaction is o.
  ghost predicate Ready(dev: VirtioDev, k: Ticket, reply: Bytes, o: Outcome)
    reads k.task, dev.mem, dev, k.io, k.io.buf, set v | v in k.task.vbufs :: v.buf
  {
    && Servable(dev, k.io) && (k.stage == WholeRead <==> !k.io.isWrite)
    && forall n {:trigger Ask(Topic.Answers, n)} :: Ask(Topic.Answers, n) ==>
      && Done(dev, k.io, k.stage, k.task, reply) && o == Reaction(dev, k.io, k.stage, k.task, reply)
      && (k.stage == WholeRead && Good(RespOf(k.task, k.stage)) ==> SizeOf(dev, k.io) <= UsedData(k.task))
  }

  // Each callback of a write touches nothing of the other requests.
  method RunFirstRead(dev: VirtioDev, k: Ticket, ghost reply: Bytes, ghost o: Outcome, ghost others: Tickets)
    requires k.stage == FirstRead && Ready(dev, k, reply, o) && forall j :: j in others ==> Apart(k, others[j])
    modifies k.io`retval, dev`submitted, dev`outring, dev`outfd, dev.mem
    ensures Concluded(dev, k.io, k.task, o) && AllUntouched(others)
  {
    assert Ask(Topic.Answers, 0);
    BlkReadFirstBlockDone(dev, k.task, k.io, reply);
  }

  method RunFullWrite(dev: VirtioDev, k: Ticket, ghost reply: Bytes, ghost o: Outcome, ghost others: Tickets)
    requires k.stage == FullWrite && Ready(dev, k, reply, o) && forall j :: j in others ==> Apart(k, others[j])
    modifies k.io`retval, dev`submitted, dev`outring, dev`outfd, dev.mem
    ensures Concluded(dev, k.io, k.task, o) && AllUntouched(others)
  {
    assert Ask(Topic.Answers, 0);
    var aborted := BlkWriteFullBlocksDone(dev, k.task, k.io);
  }

  method RunLastRead(dev: VirtioDev, k: Ticket, ghost reply: Bytes, ghost o: Outcome, ghost others: Tickets)
    requires k.stage == LastRead && Ready(dev, k, reply, o) && forall j :: j in others ==> Apart(k, others[j])
    modifies k.io`retval, dev`submitted, dev`outring, dev`outfd, dev.mem
    ensures Concluded(dev, k.io, k.task, o) && AllUntouched(others)
  {
    assert Ask(Topic.Answers, 0);
    BlkReadLastBlockDone(dev, k.task, k.io, reply);
  }

  method RunLastWrite(dev: VirtioDev, k: Ticket, ghost reply: Bytes, ghost o: Outcome, ghost others: Tickets)
    requires k.stage == LastWrite && Ready(dev, k, reply, o) && forall j :: j in others ==> Apart(k, others[j])
    modifies k.io`retval, dev`submitted, dev`outring, dev`outfd, dev.mem
    ensures Concluded(dev, k.io, k.task, o) && AllUntouched(others)
  {
    assert Ask(Topic.Answers, 0);
    BlkWriteLastBlockDone(dev, k.task, k.io);
  }

  method RunWholeRead(dev: VirtioDev, k: Ticket, ghost reply: Bytes, ghost o: Outcome, ghost others: Tickets)
    requires k.stage == WholeRead && forall j :: j in others ==> Apart(k, others[j])
    requires Ready(dev, k, reply, o)
    modifies k.io`retval, k.io.buf, dev`outring, dev`outfd, dev.mem`live
    ensures Concluded(dev, k.io, k.task, o) && AllUntouched(others)
    ensures o.Finish? && |o.data| <= k.io.buf.Length && k.io.buf[..|o.data|] == o.data
  {
    assert Ask(Topic.Answers, 0);
    BlkReadDone(dev, k.task, k.io, reply);
  }

  // The poller calls the callback of the task.
  method RunCallback(dev: VirtioDev, k: Ticket, ghost reply: Bytes, ghost o: Outcome, ghost others: Tickets)
    requires Ready(dev, k, reply, o) && forall j :: j in others ==> Apart(k, others[j])
    modifies k.io`retval, k.io.buf, dev`submitted, dev`outring, dev`outfd, dev.mem
    ensures Concluded(dev, k.io, k.task, o)
    ensures AllUntouched(others) && (k.io.isWrite ==> unchanged(k.io.buf))
    ensures !k.io.isWrite ==> o.Finish? && |o.data| <= k.io.buf.Length && k.io.buf[..|o.data|] == o.data
  {
    match k.stage
    case WholeRead => RunWholeRead(dev, k, reply, o, others);
    case FirstRead => RunFirstRead(dev, k, reply, o, others);
    case FullWrite => RunFullWrite(dev, k, reply, o, others);
    case LastRead => RunLastRead(dev, k, reply, o, others);
    case LastWrite => RunLastWrite(dev, k, reply, o, others);
  }

  // A callback of request id has put its next command on the ring, or the request is over.
  twostate lemma CallbackKeeps(p: Pending, new id: W.Id, new o: Outcome, new op': W.Op)
    requires old(Kept(p)) && id in p.tickets && AllUntouched(p.tickets - {id})
    requires p.dev.Valid() && Servable(p.dev, p.tickets[id].io)
    requires Concluded(p.dev, p.tickets[id].io, p.tickets[id].task, o)
    requires op'.req == RequestOf(p.tickets[id].io) && op'.phase.InFlight? && op'.retval == o.retval
    requires o.Submit? ==> op'.stage == o.sub.stage && op'.cmd == o.sub.cmd
    ensures p.dev.submitted == old(p.dev.submitted) ==> Kept(p.Without(id))
    ensures p.dev.submitted != old(p.dev.submitted) ==>
      && o.Submit? && p.dev.submitted != [] && Newest(p.dev).io == p.tickets[id].io && fresh(Newest(p.dev).task.Owned())
      && Kept(p.With(id, Newest(p.dev), op'))
  {
    assert Ask(Topic.Requests, 0);
    OthersStay(p, id);
    var held := old(Owns(p.tickets));
    Freed(old(p.dev.mem.live), held, id);
    if p.dev.submitted != old(p.dev.submitted) {
      var k := Newest(p.dev);
      Gained(old(p.dev.mem.live) - held[id], held - {id}, id, k.task.Owned());
      NewTicket(p.dev, p.tickets[id].io, o.sub, k.task, op');
      TicketAdded(p.Without(id), id, k, op');
      WithoutWith(p, id, k, op');
      SameUsers(old(p.dev.mem.live), p.dev.mem.live, p.disk, p.tickets, p.tickets[id := k]);
      RemovedThenPut(p.tickets, id, k);
    } else {
      SameUsers(old(p.dev.mem.live), p.dev.mem.live, p.disk, p.tickets, p.tickets - {id});
    }
  }

  lemma Freed(live: set<object>, held: map<W.Id, set<object>>, id: W.Id)
    requires Audited(live, held) && id in held
    ensures Audited(live - held[id], held - {id})
  {
    assert Ask(Topic.Ownership, 0);
    Released(live, held, id);
  }

  lemma Gained(live: set<object>, held: map<W.Id, set<object>>, id: W.Id, objs: set<object>)
    requires Audited(live, held) && id !in held && objs !! live
    ensures Audited(live + objs, held[id := objs])
  {
    assert Ask(Topic.Ownership, 0);
    Acquired(live, held, id, objs);
  }

  // -------------------------------------------------------------------------
  // The run of the step system
  // -------------------------------------------------------------------------

  // The run r of requests on the device dev, which started with disk0.
  ghost predicate Runs(dev: VirtioDev, disk0: Bytes, r: A.Run) {
    && dev.Valid() && r.states != [] && r.Last().bs == dev.blockSize && |r.Last().disk| == dev.cap
    && forall k {:trigger Ask(Topic.History, k)} :: Ask(Topic.History, k) ==>
         A.IsRun(r, dev.blockSize, dev.numBlocks, disk0)
  }

  function NewRun(dev: VirtioDev, disk0: Bytes): A.Run {
    A.Run([A.Init(dev.blockSize, dev.numBlocks, disk0)], [])
  }

  lemma RunsInv(dev: VirtioDev, disk0: Bytes, r: A.Run)
    requires Runs(dev, disk0, r)
    ensures W.Inv(r.Last(), disk0)
  {
    assert Ask(Topic.History, 0);
    A.RunKeepsInv(r, dev.blockSize, dev.numBlocks, disk0, |r.acts|);
  }

  lemma Advance(dev: VirtioDev, disk0: Bytes, r: A.Run, a: W.Action) returns (r': A.Run)
    requires Runs(dev, disk0, r) && W.Enabled(r.Last(), a)
    ensures Runs(dev, disk0, r') && W.Inv(r.Last(), disk0) && r'.Last() == A.Apply(r.Last(), disk0, a)
    ensures r'.acts == r.acts + [a]
  {
    assert Ask(Topic.History, 0);
    A.RunExtended(r, dev.blockSize, dev.numBlocks, disk0, a);
    A.StepSizes(r.Last(), disk0, a);
    r' := A.Run(r.states + [A.Apply(r.Last(), disk0, a)], r.acts + [a]);
  }

  // A request whose first command was accepted.
  function FirstOp(req: Request, sub: Submission): W.Op { W.Op(req, sub.stage, sub.cmd, W.InFlight, -1, 1) }

  // Submitting the next command succeeds or ends the request.
  ghost function WentOn(id: W.Id, went: bool): W.Action { if went then W.Accept(id) else W.Reject(id) }

  ghost function AfterSubmit(w: W.World, id: W.Id, went: bool): W.World
    requires id in w.ops
  {
    if went then W.ApplyAccept(w, id) else W.ApplyReject(w, id)
  }

  lemma SubmitSteps(w: W.World, disk0: Bytes, id: W.Id, went: bool)
    requires W.Inv(w, disk0) && id in w.ops && w.ops[id].phase.Submitting?
    ensures W.Enabled(w, WentOn(id, went)) && A.Apply(w, disk0, WentOn(id, went)) == AfterSubmit(w, id, went)
  {
    A.ApplyIs(w, disk0, WentOn(id, went));
  }

  lemma StartedWorld(w: W.World, disk0: Bytes, id: W.Id, req: Request, rc: int) returns (w1: W.World, w2: W.World)
    requires W.Inv(w, disk0) && W.Enabled(w, W.Launch(id, req)) && id !in w.ops
    ensures w1 == A.Apply(w, disk0, W.Launch(id, req)) && W.Inv(w1, disk0)
    ensures W.Enabled(w1, WentOn(id, rc == 0)) && w2 == A.Apply(w1, disk0, WentOn(id, rc == 0))
    ensures w2.disk == w.disk && w2.log == w.log
    ensures rc == 0 ==> w2.ops == w.ops[id := FirstOp(req, FirstSubmission(w.bs, |w.disk|, req))]
    ensures rc != 0 ==> w2.ops == w.ops
  {
    A.StepKeeps(w, disk0, W.Launch(id, req));
    A.ApplyIs(w, disk0, W.Launch(id, req));
    w1 := W.ApplyLaunch(w, id, req);
    SubmitSteps(w1, disk0, id, rc == 0);
    w2 := AfterSubmit(w1, id, rc == 0);
    LaunchSettles(w, id, req, rc == 0);
  }

  lemma LaunchSettles(w: W.World, id: W.Id, req: Request, went: bool)
    requires w.bs > 0 && ValidRequest(|w.disk|, req) && id !in w.ops
    ensures var w2, sub := AfterSubmit(W.ApplyLaunch(w, id, req), id, went), FirstSubmission(w.bs, |w.disk|, req);
            && w2.disk == w.disk && w2.log == w.log
            && w2.ops == if went then w.ops[id := FirstOp(req, sub)] else w.ops
  {
  }

  // The request is launched and accepted, or refused.
  lemma Started(dev: VirtioDev, disk0: Bytes, r: A.Run, id: W.Id, req: Request, rc: int) returns (r': A.Run)
    requires Runs(dev, disk0, r) && W.Enabled(r.Last(), W.Launch(id, req))
    ensures Runs(dev, disk0, r') && r'.acts == r.acts + [W.Launch(id, req), WentOn(id, rc == 0)]
    ensures r'.Last().disk == r.Last().disk && r'.Last().log == r.Last().log
    ensures rc == 0 ==> r'.Last().ops == r.Last().ops[id := FirstOp(req, FirstSubmission(dev.blockSize, dev.cap, req))]
    ensures rc != 0 ==> r'.Last().ops == r.Last().ops
  {
    RunsInv(dev, disk0, r);
    NewId(dev, disk0, r, id);
    var w1, w2 := StartedWorld(r.Last(), disk0, id, req, rc);
    var r1 := Advance(dev, disk0, r, W.Launch(id, req));
    r' := Advance(dev, disk0, r1, WentOn(id, rc == 0));
  }

  lemma NewId(dev: VirtioDev, disk0: Bytes, r: A.Run, id: W.Id)
    requires Runs(dev, disk0, r) && id !in r.Last().known
    ensures id !in r.Last().ops
  {
    RunsInv(dev, disk0, r);
  }

  // The device finds a command that begins inside it as it was meant.
  lemma AsMeant(dev: VirtioDev, cmd: Command)
    requires dev.Valid() && cmd.blk * dev.blockSize < dev.cap
    ensures Cdb.OnWire(dev.numBlocks, cmd) == cmd
  {
    DivisionExact(dev.blockSize, cmd.blk, 0);
    BlockInside(dev.blockSize, dev.numBlocks, cmd.blk * dev.blockSize);
    Cdb.AddressedInside(dev.numBlocks, cmd.blk);
  }

  // What the stage of an outstanding request says.
  lemma Facts(dev: VirtioDev, disk0: Bytes, r: A.Run, id: W.Id)
    requires Runs(dev, disk0, r) && id in r.Last().ops
    ensures ValidRequest(dev.cap, r.Last().ops[id].req)
    ensures var op, n := r.Last().ops[id], Size(dev.cap, r.Last().ops[id].req);
            && (op.stage == WholeRead <==> op.req.ReadReq?)
            && Fits(dev.blockSize, r.Last().disk, op.cmd) && (op.cmd.Write? <==> Writes(op.stage))
            && (!op.phase.Submitting? ==> op.issued > 0)
            && (op.req.off < dev.cap ==> Cdb.OnWire(dev.numBlocks, op.cmd) == op.cmd)
  {
    RunsInv(dev, disk0, r);
    StageFacts(r.Last(), disk0, id);
    if r.Last().ops[id].req.off < dev.cap { AsMeant(dev, r.Last().ops[id].cmd); }
    assert W.OpOk(r.Last().bs, I.Base(r.Last(), disk0), r.Last().disk, r.Last().ops[id]);
  }

  // The device has answered.
  lemma Answered(dev: VirtioDev, disk0: Bytes, r: A.Run, id: W.Id, ok: bool) returns (r': A.Run)
    requires Runs(dev, disk0, r) && id in r.Last().ops && r.Last().ops[id].phase.InFlight?
    ensures Fits(dev.blockSize, r.Last().disk, r.Last().ops[id].cmd)
    ensures Runs(dev, disk0, r') && r'.acts == r.acts + [W.Execute(id, ok)] && r'.Last().log == r.Last().log
    ensures var w, op := r.Last(), r.Last().ops[id];
            && r'.Last().disk == (if ok then DiskAfter(dev.blockSize, w.disk, op.cmd) else w.disk)
            && r'.Last().ops == w.ops[id := op.(phase := W.Answered(ReplyOf(dev, w.disk, op.cmd, ok)))]
  {
    Facts(dev, disk0, r, id);
    r' := Advance(dev, disk0, r, W.Execute(id, ok));
  }

  ghost function ReplyOf(dev: VirtioDev, disk: Bytes, cmd: Command, ok: bool): Option<Bytes>
    requires Fits(dev.blockSize, disk, cmd)
  {
    if ok then Some(DataOf(dev.blockSize, disk, cmd)) else None
  }

  // A request after the callback with outcome o: on the ring again, or in the output ring.
  function NextOp(op: W.Op, o: Outcome): W.Op
    requires o.Submit?
  {
    W.Op(op.req, o.sub.stage, o.sub.cmd, W.InFlight, o.retval, op.issued + 1)
  }

  function LastEntry(id: W.Id, op: W.Op, o: Outcome): W.Entry {
    W.Entry(id, op.req, o.retval, if o.Finish? then o.data else [], o.Submit? || op.phase == W.Answered(None))
  }

  // The callback, and what becomes of its submission.
  lemma CallbackSettles(w: W.World, id: W.Id, went: bool, o: Outcome)
    requires w.bs > 0 && id in w.ops && w.ops[id].phase.Answered? && w.ops[id].issued > 0
    requires var op := w.ops[id];
             && ValidRequest(|w.disk|, op.req) && ReplyFits(w.bs, |w.disk|, op.req, op.stage, op.phase.reply)
             && o == OnReply(w.bs, |w.disk|, op.req, op.stage, op.retval, op.phase.reply)
    requires went ==> o.Submit?
    ensures var w1 := W.ApplyCallback(w, id);
            && w1.disk == w.disk && (o.Submit? ==> id in w1.ops && w1.ops[id].phase.Submitting?)
            && var w2 := if o.Submit? then AfterSubmit(w1, id, went) else w1;
               && w2.disk == w.disk
               && (went ==> w2.ops == w.ops[id := NextOp(w.ops[id], o)] && w2.log == w.log)
               && (!went ==> w2.ops == w.ops - {id} && w2.log == w.log + [LastEntry(id, w.ops[id], o)])
  {
    if o.Submit? {
      UpdatedTwice(w.ops, id, W.ApplyCallback(w, id).ops[id], NextOp(w.ops[id], o));
    }
  }

  // Request id is closer to its end, the others are as before.
  ghost predicate Closer(ops: map<W.Id, W.Op>, ops': map<W.Id, W.Op>, id: W.Id) {
    && id in ops && id in ops' && ops' == ops[id := ops'[id]] && ops'[id].req == ops[id].req
    && A.StepsLeft(ops'[id]) < A.StepsLeft(ops[id])
  }

  lemma NextCloser(bs: nat, cap: nat, op: W.Op, o: Outcome)
    requires bs > 0 && ValidRequest(cap, op.req) && op.phase.Answered?
    requires ReplyFits(bs, cap, op.req, op.stage, op.phase.reply) && o.Submit?
    requires o == OnReply(bs, cap, op.req, op.stage, op.retval, op.phase.reply)
    ensures A.StepsLeft(NextOp(op, o)) < A.StepsLeft(op)
  {
    A.StageAdvances(bs, cap, op.req, op.stage, op.retval, op.phase.reply);
  }

  lemma SettledWorld(w: W.World, disk0: Bytes, id: W.Id, went: bool, o: Outcome) returns (w1: W.World, w2: W.World)
    requires W.Inv(w, disk0) && id in w.ops && w.ops[id].phase.Answered? && w.ops[id].issued > 0
    requires var op := w.ops[id];
             && ValidRequest(|w.disk|, op.req) && ReplyFits(w.bs, |w.disk|, op.req, op.stage, op.phase.reply)
             && o == OnReply(w.bs, |w.disk|, op.req, op.stage, op.retval, op.phase.reply)
    requires went ==> o.Submit?
    ensures w1 == A.Apply(w, disk0, W.Callback(id)) && W.Inv(w1, disk0)
    ensures if o.Submit? then W.Enabled(w1, WentOn(id, went)) && w2 == A.Apply(w1, disk0, WentOn(id, went)) else w2 == w1
    ensures w2.disk == w.disk
    ensures went ==> w2.ops == w.ops[id := NextOp(w.ops[id], o)] && w2.log == w.log
    ensures !went ==> w2.ops == w.ops - {id} && w2.log == w.log + [LastEntry(id, w.ops[id], o)]
  {
    A.StepKeeps(w, disk0, W.Callback(id));
    A.ApplyIs(w, disk0, W.Callback(id));
    CallbackSettles(w, id, went, o);
    w1 := W.ApplyCallback(w, id);
    w2 := w1;
    if o.Submit? {
      SubmitSteps(w1, disk0, id, went);
      w2 := AfterSubmit(w1, id, went);
    }
  }

  // The steps of a request whose callback has run.
  lemma Settled(dev: VirtioDev, disk0: Bytes, r: A.Run, id: W.Id, went: bool, o: Outcome) returns (r': A.Run)
    requires Runs(dev, disk0, r) && id in r.Last().ops && r.Last().ops[id].phase.Answered?
    requires var op := r.Last().ops[id];
             && ValidRequest(dev.cap, op.req) && ReplyFits(dev.blockSize, dev.cap, op.req, op.stage, op.phase.reply)
             && o == OnReply(dev.blockSize, dev.cap, op.req, op.stage, op.retval, op.phase.reply)
    requires went ==> o.Submit?
    ensures Runs(dev, disk0, r') && r'.Last().disk == r.Last().disk
    ensures r'.acts == r.acts + [W.Callback(id)] + if o.Submit? then [WentOn(id, went)] else []
    ensures went ==>
      r'.Last().ops == r.Last().ops[id := NextOp(r.Last().ops[id], o)] && r'.Last().log == r.Last().log
    ensures !went ==>
      && r'.Last().ops == r.Last().ops - {id}
      && r'.Last().log == r.Last().log + [LastEntry(id, r.Last().ops[id], o)]
  {
    Facts(dev, disk0, r, id);
    RunsInv(dev, disk0, r);
    var w1, w2 := SettledWorld(r.Last(), disk0, id, went, o);
    r' := Advance(dev, disk0, r, W.Callback(id));
    if o.Submit? { r' := Advance(dev, disk0, r', WentOn(id, went)); }
  }

  // -------------------------------------------------------------------------
  // The library in use
  // -------------------------------------------------------------------------

  // The device serves one task and touches nothing of the others.
  method ServeOne(dev: VirtioDev, disk: array<Byte>, k: Ticket, status: Byte, response: Byte, ghost cmd: Command, ghost others: Tickets)
    requires Given(dev, disk, k.stage, k.task, cmd) && Fits(dev.blockSize, disk[..], cmd)
    requires forall j :: j in others ==> Away(k, others[j]) && AwayFromDisk(disk, others[j])
    requires k.io.buf != disk && (k.io.isWrite ==> forall v :: v in k.task.vbufs && v.response ==> v.buf != k.io.buf)
    modifies disk, k.task`usedBytes, set v | v in k.task.vbufs && v.response :: v.buf
    ensures AllUntouched(others) && unchanged(k.io) && (k.io.isWrite ==> unchanged(k.io.buf))
    ensures Tells(dev.blockSize, k.stage, k.task, cmd) && Good(RespOf(k.task, k.stage)) == Success(status, response)
    ensures disk[..] == if Success(status, response) then DiskAfter(dev.blockSize, old(disk[..]), cmd) else old(disk[..])
    ensures Success(status, response) && cmd.Read? ==>
      && k.task.usedBytes == RESPONSE_SIZE + Length(dev.blockSize, cmd)
      && InBounds(DataBufs(k.task, k.stage))
      && Hold(DataBufs(k.task, k.stage), DataOf(dev.blockSize, old(disk[..]), cmd))
  {
    ServeTask(dev, disk, k.task, status, response, k.stage, cmd);
  }

  // virtio_submit touches nothing of the other requests.
  method SubmitOne(dev: VirtioDev, io: IoDesc, ghost others: Tickets) returns (rc: int)
    requires dev.Valid() && (io.offset <= dev.cap && io.nbytes > 0 ==> Servable(dev, io))
    requires forall j :: j in others ==> others[j].io != io
    modifies io`retval, dev`submitted, dev.mem
    ensures AllUntouched(others) && unchanged(io.buf)
    ensures io.offset <= dev.cap && io.nbytes > 0 ==>
      && ValidRequest(dev.cap, RequestOf(io)) && (io.isWrite ==> io.retval == -1)
      && Launched(dev, io, rc, FirstSubmission(dev.blockSize, dev.cap, RequestOf(io)))
    ensures io.offset > dev.cap || io.nbytes == 0 ==>
      && rc == (if io.offset > dev.cap then -1 else 0)
      && dev.mem.live == old(dev.mem.live) && Granted(dev.mem, true)
  {
    rc := VirtioSubmit(dev, io);
  }

  // No command failed from this step on.
  predicate NoneFailed(acts: seq<W.Action>, from: nat) {
    forall i :: from <= i < |acts| && acts[i].Execute? ==> acts[i].ok
  }

  lemma MoreFailed(a: seq<W.Action>, b: seq<W.Action>, from: nat)
    requires a <= b && from <= |a|
    ensures NoneFailed(b, from) <==> NoneFailed(a, from) && NoneFailed(b, |a|)
  {
    if NoneFailed(b, from) {
      forall i | from <= i < |a| && a[i].Execute? ensures a[i].ok { assert b[i] == a[i]; }
    }
  }

  lemma OneServed(acts: seq<W.Action>, id: W.Id, ok: bool)
    ensures NoneFailed(acts + [W.Execute(id, ok)], |acts|) <==> ok
  {
    assert (acts + [W.Execute(id, ok)])[|acts|] == W.Execute(id, ok);
  }

  // The completion in the output ring says what the user finds in the request.
  predicate Reports(e: W.Entry, id: W.Id, req: Request, io: IoDesc)
    reads io, io.buf
  {
    && e.id == id && e.req == req && e.retval == io.retval
    && (!io.isWrite ==> |e.data| <= io.buf.Length && io.buf[..|e.data|] == e.data)
  }

  lemma FinalResult(dev: VirtioDev, disk0: Bytes, r: A.Run, log: seq<W.Entry>, req: Request, io: IoDesc)
    requires Runs(dev, disk0, r) && |r.Last().log| == |log| + 1 && |disk0| == dev.cap
    requires var e := r.Last().log[|log|];
             r.Last().log == log + [e] && Reports(e, e.id, req, io)
    requires io.offset < dev.cap && ValidRequest(dev.cap, req) && Size(dev.cap, req) == SizeOf(dev, io) && req.off == io.offset
    requires (req.ReadReq? <==> !io.isWrite) && (req.WriteReq? ==> SizeOf(dev, io) == |req.buf|)
    ensures io.retval == SizeOf(dev, io) <==> !r.Last().log[|log|].failed
    ensures io.retval == SizeOf(dev, io) && !io.isWrite ==>
      && SizeOf(dev, io) <= io.buf.Length
      && io.buf[..SizeOf(dev, io)] == W.Replay(disk0, log)[io.offset..io.offset + SizeOf(dev, io)]
  {
    RunsInv(dev, disk0, r);
    assert r.Last().log[..|log|] == log;
    assert W.EntryOk(W.Replay(disk0, r.Last().log[..|log|]), r.Last().log[|log|]);
    EntryMeans(W.Replay(disk0, log), r.Last().log[|log|], io, SizeOf(dev, io));
  }

  lemma EntryMeans(disk: Bytes, e: W.Entry, io: IoDesc, n: nat)
    requires W.EntryOk(disk, e) && ValidRequest(|disk|, e.req) && n == Size(|disk|, e.req) > 0 && e.req.off == io.offset
    requires Reports(e, e.id, e.req, io) && (e.req.ReadReq? <==> !io.isWrite) && (e.req.WriteReq? ==> n == |e.req.buf|)
    ensures io.retval == n <==> !e.failed
    ensures io.retval == n && !io.isWrite ==>
      n <= io.buf.Length && io.buf[..n] == disk[io.offset..io.offset + n]
  {
  }

  class Session {
    const dev: VirtioDev
    const disk: array<Byte>
    ghost const disk0: Bytes
    var tickets: Tickets  // what is on the ring

    // The state in memory is the last state of the run r.
    ghost predicate Follows(r: A.Run)
      reads this, dev.mem, disk, set id | id in tickets :: tickets[id].task, set id | id in tickets :: tickets[id].io,
            set id | id in tickets :: tickets[id].io.buf,
            set id, v | id in tickets && v in tickets[id].task.vbufs :: v.buf
    {
      && Runs(dev, disk0, r) && r.Last().disk == disk[..] && tickets.Keys == r.Last().ops.Keys
      && Kept(Pending(dev, disk, tickets, r.Last().ops))
    }

    // A device with any contents, and nothing outstanding.
    constructor (dev: VirtioDev, disk: array<Byte>)
      requires dev.Valid() && disk.Length == dev.cap && dev.mem.live == {}
      ensures this.dev == dev && this.disk == disk && disk0 == disk[..]
      ensures Follows(NewRun(dev, disk0)) && tickets == map[]
    {
      this.dev, this.disk, this.disk0 := dev, disk, disk[..];
      tickets := map[];
    }

    // What the library asks of its user: buffers that it may use, and a request that the
    // rule on overlaps and shared blocks allows beside those outstanding.
    ghost predicate MayStart(r: A.Run, io: IoDesc, id: W.Id)
      requires r.states != []
      reads this, dev.mem, io.buf
    {
      && Servable(dev, io) && W.Enabled(r.Last(), W.Launch(id, RequestOf(io)))
      && Lendable(dev.mem.live, disk, tickets, io)
    }

    // virtio_submit of nothing, or beyond the device.
    method SubmitNothing(io: IoDesc, ghost r: A.Run) returns (rc: int)
      requires Follows(r) && (io.offset > dev.cap || io.nbytes == 0) && forall j :: j in tickets ==> io != tickets[j].io
      modifies io`retval, dev`submitted, dev.mem
      ensures Follows(r) && Granted(dev.mem, true) && rc == if io.offset > dev.cap then -1 else 0
    {
      rc := SubmitOne(dev, io, tickets);
      KeptStays(Pending(dev, disk, tickets, r.Last().ops));
    }

    // virtio_submit: the request is outstanding, or all is as if it had not been called.
    method Submit(io: IoDesc, id: W.Id, ghost r: A.Run) returns (rc: int, ghost r': A.Run)
      requires Follows(r) && MayStart(r, io, id)
      modifies this`tickets, io`retval, dev`submitted, dev.mem
      ensures Follows(r')
      ensures r'.acts == r.acts + [W.Launch(id, RequestOf(io)), WentOn(id, rc == 0)]
      ensures rc == 0 || (rc == -1 && tickets == old(tickets))
      ensures Granted(dev.mem, rc == 0)
      ensures rc == 0 ==> tickets.Keys == old(tickets.Keys) + {id} && tickets[id].io == io
    {
      ghost var before, ops, req := tickets, r.Last().ops, RequestOf(io);
      ghost var sub := FirstSubmission(dev.blockSize, dev.cap, req);
      NewId(dev, disk0, r, id);
      rc := SubmitOne(dev, io, tickets);
      r' := Started(dev, disk0, r, id, req, rc);
      if rc == 0 {
        tickets := tickets[id := Newest(dev)];
        StartKeeps(Start(Pending(dev, disk, before, ops), io), id, sub, FirstOp(req, sub));
      } else {
        KeptStays(Pending(dev, disk, before, ops));
      }
    }

    // The device executes the command of a request, or fails it.
    method Serve(id: W.Id, status: Byte, response: Byte, ghost r: A.Run) returns (ghost r': A.Run)
      requires Follows(r) && id in tickets && r.Last().ops[id].phase.InFlight?
      modifies disk, tickets[id].task`usedBytes, set v | v in tickets[id].task.vbufs && v.response :: v.buf
      ensures Follows(r') && r'.acts == r.acts + [W.Execute(id, Success(status, response))] && r'.Last().log == r.Last().log
      ensures Closer(r.Last().ops, r'.Last().ops, id) && r'.Last().ops[id].phase.Answered?
      ensures r'.Last().ops[id].phase == W.Answered(None) <==> !Success(status, response)
    {
      ghost var ops := r.Last().ops;
      ghost var k, op := tickets[id], ops[id];
      Facts(dev, disk0, r, id);
      ghost var ok := Success(status, response);
      r' := Answered(dev, disk0, r, id, ok);
      ghost var p := Pending(dev, disk, tickets, ops);
      KeptTicket(p, id);
      TicketGiven(dev, disk, k, op);
      ResponsesOwn(dev, k, op);
      OthersAway(p, id);
      ghost var reply := ReplyOf(dev, disk[..], op.cmd, ok);
      ServeOne(dev, disk, tickets[id], status, response, op.cmd, tickets - {id});
      TicketAnswered(p, id, reply);
      AnswerKeeps(p, id, op.(phase := W.Answered(reply)));
    }

    // The callback of request id runs: the others are as they were, and it has its next ticket
    // or none.
    method CarryOn(id: W.Id, ghost ops: map<W.Id, W.Op>, ghost reply: Bytes, ghost o: Outcome, ghost op': W.Op)
      returns (went: bool)
      requires id in tickets && Kept(Pending(dev, disk, tickets, ops))
      requires forall j :: j in tickets - {id} ==> Apart(tickets[id], (tickets - {id})[j])
      requires var k := tickets[id];
               Ready(dev, k, reply, o) && k.io.buf != disk && op'.req == RequestOf(k.io)
      requires op'.phase.InFlight? && op'.retval == o.retval
      requires o.Submit? ==> op'.stage == o.sub.stage && op'.cmd == o.sub.cmd
      modifies this`tickets, tickets[id].io`retval, tickets[id].io.buf, dev`submitted, dev`outring, dev`outfd, dev.mem
      ensures disk[..] == old(disk[..])
      ensures went ==>
        && o.Submit? && id in tickets && tickets == old(tickets)[id := tickets[id]] && tickets[id].io == old(tickets[id].io)
        && fresh(tickets[id].task.Owned()) && dev.outring == old(dev.outring) && Granted(dev.mem, true)
        && Kept(Pending(dev, disk, tickets, ops[id := op']))
      ensures !went ==>
        && tickets == old(tickets) - {id} && dev.outring == old(dev.outring) + [old(tickets[id].io)]
        && old(tickets[id].io).retval == o.retval && Granted(dev.mem, o.Finish?) && Kept(Pending(dev, disk, tickets, ops - {id}))
      ensures var io := old(tickets[id].io);
              !io.isWrite ==> o.Finish? && |o.data| <= io.buf.Length && io.buf[..|o.data|] == o.data
    {
      ghost var p := Pending(dev, disk, tickets, ops);
      var k, n := tickets[id], |dev.submitted|;
      RunCallback(dev, k, reply, o, p.tickets - {id});
      went := |dev.submitted| != n;
      tickets := if went then tickets[id := Newest(dev)] else tickets - {id};
      CallbackKeeps(p, id, o, op');
    }

    // The poller takes a completed task from the ring and runs its callback: the request goes
    // on with its next command, or it is in the output ring once, with its result.
    method Poll(id: W.Id, ghost r: A.Run) returns (ghost r': A.Run)
      requires Follows(r) && id in tickets && r.Last().ops[id].phase.Answered? && |dev.outring| < OUTRING_SIZE - 1
      modifies this`tickets, tickets[id].io`retval, tickets[id].io.buf, dev`submitted, dev`outring, dev`outfd, dev.mem
      ensures Follows(r') && r.acts < r'.acts && NoneFailed(r'.acts, |r.acts|) && r'.Last().disk == r.Last().disk
      ensures id in tickets ==> tickets[id].io == old(tickets[id].io) && dev.outring == old(dev.outring)
      ensures id in tickets ==>
        && tickets == old(tickets)[id := tickets[id]] && r'.Last().log == r.Last().log
        && Closer(r.Last().ops, r'.Last().ops, id) && r'.Last().ops[id].phase.InFlight?
        && fresh(tickets[id].task.Owned()) && Granted(dev.mem, true) && r.Last().ops[id].phase != W.Answered(None)
      ensures id !in tickets ==>
        && tickets == old(tickets) - {id} && dev.outring == old(dev.outring) + [old(tickets[id].io)]
        && |r'.Last().log| == |r.Last().log| + 1
        && var e, io := r'.Last().log[|r.Last().log|], old(tickets[id].io);
           && r'.Last().log == r.Last().log + [e]
           && e.id == id && e.req == r.Last().ops[id].req && e.retval == io.retval
           && Granted(dev.mem, !e.failed || r.Last().ops[id].phase == W.Answered(None))
           && (r.Last().ops[id].phase == W.Answered(None) ==> e.failed)
           && (!io.isWrite ==> |e.data| <= io.buf.Length && io.buf[..|e.data|] == e.data)
    {
      ghost var ops := r.Last().ops;
      ghost var op := ops[id];
      ghost var reply, o := AnsweredDone(id, r);
      OthersApart(Pending(dev, disk, tickets, ops), id);
      ghost var op' := if o.Submit? then NextOp(op, o) else op.(phase := W.InFlight, retval := o.retval);
      var went := CarryOn(id, ops, reply, o, op');
      r' := Settled(dev, disk0, r, id, went, o);
      if went { NextCloser(dev.blockSize, dev.cap, op, o); }
    }

    // virtio_get_completed takes the oldest finished request from the output ring.
    method GetCompleted(ghost r: A.Run) returns (io: IoDesc?)
      requires Follows(r)
      modifies dev`outring
      ensures Follows(r)
      ensures if old(dev.outring) == [] then io == null && dev.outring == []
              else io != null && old(dev.outring) == [io] + dev.outring
    {
      io := null;
      if dev.outring != [] {
        io, dev.outring := dev.outring[0], dev.outring[1..];
      }
      assert AllUntouched(tickets);
      KeptStays(Pending(dev, disk, tickets, r.Last().ops));
    }

    lemma TicketReq(id: W.Id, r: A.Run)
      requires Follows(r) && id in tickets
      ensures var io, req := tickets[id].io, r.Last().ops[id].req;
              && |disk0| == dev.cap && io.offset < dev.cap
              && ValidRequest(dev.cap, req) && Size(dev.cap, req) == SizeOf(dev, io)
              && req.off == io.offset && (req.ReadReq? <==> !io.isWrite)
              && (req.WriteReq? ==> SizeOf(dev, io) == |req.buf|)
    {
      KeptTicket(Pending(dev, disk, tickets, r.Last().ops), id);
      RunsInv(dev, disk0, r);
      RequestValid(dev, tickets[id].io);
    }

    // What the device may write of a ticket.
    lemma Responses(id: W.Id, r: A.Run)
      requires Follows(r) && id in tickets
      ensures tickets[id].io.buf != disk
      ensures forall v :: v in tickets[id].task.vbufs && v.response ==>
        v.buf in tickets[id].task.Owned() || v.buf == tickets[id].io.buf
    {
      Facts(dev, disk0, r, id);
      KeptTicket(Pending(dev, disk, tickets, r.Last().ops), id);
      forall v | v in tickets[id].task.vbufs && v.response
        ensures v.buf in tickets[id].task.Owned() || v.buf == tickets[id].io.buf
      {
        var i :| 0 <= i < |tickets[id].task.vbufs| && tickets[id].task.vbufs[i] == v;
        ResponseBufs(dev, tickets[id], r.Last().ops[id], i);
      }
    }

    // The device serves the command of a request, or fails it, and the poller runs the callback.
    method Round(id: W.Id, status: Byte, response: Byte, ghost r: A.Run) returns (ghost r': A.Run)
      requires Follows(r) && id in tickets && r.Last().ops[id].phase.InFlight? && |dev.outring| < OUTRING_SIZE - 1
      modifies this`tickets, disk, dev`submitted, dev`outring, dev`outfd, dev.mem, tickets[id].io`retval, tickets[id].io.buf,
               tickets[id].task.Owned()
      ensures Follows(r') && r.acts < r'.acts && (NoneFailed(r'.acts, |r.acts|) <==> Success(status, response))
      ensures id in tickets ==>
        && tickets == old(tickets)[id := tickets[id]] && tickets[id].io == old(tickets[id].io)
        && r'.Last().ops[id].phase.InFlight? && A.StepsLeft(r'.Last().ops[id]) < A.StepsLeft(r.Last().ops[id])
        && r'.Last().ops[id].req == r.Last().ops[id].req && r'.Last().log == r.Last().log
        && dev.outring == old(dev.outring) && fresh(tickets[id].task.Owned())
        && Granted(dev.mem, true) && Success(status, response)
      ensures id !in tickets ==>
        && tickets == old(tickets) - {id} && dev.outring == old(dev.outring) + [old(tickets[id].io)]
        && |r'.Last().log| == |r.Last().log| + 1
        && var e, io := r'.Last().log[|r.Last().log|], old(tickets[id].io);
           && r'.Last().log == r.Last().log + [e]
           && Reports(e, id, r.Last().ops[id].req, io)
           && Granted(dev.mem, !e.failed || !Success(status, response)) && (!Success(status, response) ==> e.failed)
    {
      Responses(id, r);
      r' := Serve(id, status, response, r);
      ghost var served := r'.acts;
      OneServed(r.acts, id, Success(status, response));
      r' := Poll(id, r');
      MoreFailed(served, r'.acts, |r.acts|);
    }

    // A request that is served and polled goes through all its commands, whatever fails, and
    // ends in the output ring: with its full length if and only if no command fails and nothing
    // is refused.
    method Finish(id: W.Id, ghost r: A.Run) returns (ghost r': A.Run)
      requires Follows(r) && id in tickets && r.Last().ops[id].phase.InFlight? && |dev.outring| < OUTRING_SIZE - 1
      modifies this`tickets, disk, dev`submitted, dev`outring, dev`outfd, dev.mem, tickets[id].io`retval, tickets[id].io.buf,
               tickets[id].task.Owned()
      ensures Follows(r') && r.acts < r'.acts && tickets == old(tickets) - {id}
      ensures dev.outring == old(dev.outring) + [old(tickets[id].io)]
      ensures var io := old(tickets[id].io);
              && io.offset <= dev.cap
              && (io.retval == SizeOf(dev, io) <==> Granted(dev.mem, true) && NoneFailed(r'.acts, |r.acts|))
              && (io.retval == SizeOf(dev, io) && !io.isWrite ==>
                    && SizeOf(dev, io) <= io.buf.Length && io.offset + SizeOf(dev, io) <= |disk0|
                    && io.buf[..SizeOf(dev, io)] == W.Replay(disk0, r.Last().log)[io.offset..io.offset + SizeOf(dev, io)])
    {
      r' := r;
      ghost var io := tickets[id].io;
      ghost var req := r.Last().ops[id].req;
      ghost var clean := true;
      TicketReq(id, r);
      var more := true;
      while more
        invariant Follows(r') && r.acts <= r'.acts && (more <==> id in tickets)
        invariant more ==>
          && tickets == old(tickets)[id := tickets[id]] && tickets[id].io == io
          && r'.Last().ops[id].phase.InFlight? && r'.Last().ops[id].req == req && dev.outring == old(dev.outring)
          && (fresh(tickets[id].task.Owned()) || tickets[id].task.Owned() == old(tickets[id].task.Owned()))
          && Granted(dev.mem, true) && NoneFailed(r'.acts, |r.acts|) && r'.Last().log == r.Last().log
        invariant !more ==>
          && r.acts < r'.acts && tickets == old(tickets) - {id} && dev.outring == old(dev.outring) + [io]
          && |r'.Last().log| == |r.Last().log| + 1
          && var e := r'.Last().log[|r.Last().log|];
             && r'.Last().log == r.Last().log + [e] && Reports(e, id, req, io)
             && (e.failed <==> !clean) && (clean <==> Granted(dev.mem, true) && NoneFailed(r'.acts, |r.acts|))
        decreases if more then A.StepsLeft(r'.Last().ops[id]) else 0, if more then 1 else 0
      {
        var status: Byte, response: Byte := *, *;
        ghost var before := r'.acts;
        r' := Round(id, status, response, r');
        MoreFailed(before, r'.acts, |r.acts|);
        more := id in tickets;
        if !more { clean := !r'.Last().log[|r.Last().log|].failed; }
      }
      FinalResult(dev, disk0, r', r.Last().log, req, io);
    }

    // What holds for every run of the step system holds here; when nothing is outstanding, the
    // disk is the replay of the output ring and the library holds no memory.
    lemma Quiet(r: A.Run)
      requires Follows(r)
      ensures A.IsRun(r, dev.blockSize, dev.numBlocks, disk0) && W.LogOk(disk0, r.Last().log)
      ensures tickets == map[] ==> disk[..] == W.Replay(disk0, r.Last().log) && dev.mem.live == {}
    {
      assert Ask(Topic.History, 0) && Ask(Topic.Requests, 0) && Ask(Topic.Ownership, 0);
      A.Serializable(r, dev.blockSize, dev.numBlocks, disk0);
      NothingLeft(dev.mem.live, Owns(tickets));
      assert tickets == map[] ==> r.Last().ops == map[];
    }

    lemma AnsweredDone(id: W.Id, r: A.Run) returns (reply: Bytes, o: Outcome)
      requires Follows(r) && id in tickets && r.Last().ops[id].phase.Answered? && |dev.outring| < OUTRING_SIZE - 1
      ensures var k, op := tickets[id], r.Last().ops[id];
              && Ready(dev, k, reply, o) && op.req == RequestOf(k.io) && k.io.buf != disk
              && ValidRequest(dev.cap, op.req) && ReplyFits(dev.blockSize, dev.cap, op.req, op.stage, op.phase.reply)
              && o == OnReply(dev.blockSize, dev.cap, op.req, op.stage, op.retval, op.phase.reply)
    {
      KeptTicket(Pending(dev, disk, tickets, r.Last().ops), id);
      RunsInv(dev, disk0, r);
      reply := TicketDone(dev, tickets[id], r.Last(), disk0, id);
      o := Reaction(dev, tickets[id].io, tickets[id].stage, tickets[id].task, reply);
    }
  }
}
