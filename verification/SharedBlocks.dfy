/**
 Why two writes that are outstanding together must not share a block.  The step relation
 without that rule has, for any two writes of different bytes with a block in common, a run
 in which nothing fails and the bytes that one of them puts into that block are lost.
 */
module SharedBlocks {
  import opened Common
  import opened Blocks
  import opened AsyncSpec
  import opened AsyncProtocol
  import opened AsyncInvariant
  import opened AsyncCorrectness

  // -------------------------------------------------------------------------
  // Steps without the rule
  // -------------------------------------------------------------------------

  ghost predicate RawEnabled(w: World, a: Action) {
    match a
    case Launch(id, req) => id !in w.known && w.bs > 0 && ValidRequest(|w.disk|, req)
    case Accept(id) => Enabled(w, a)
    case Reject(id) => Enabled(w, a)
    case Execute(id, ok) => Enabled(w, a) && Fits(w.bs, w.disk, w.ops[id].cmd)
    case Callback(id) =>
      && Enabled(w, a) && w.bs > 0 && ValidRequest(|w.disk|, w.ops[id].req)
      && ReplyFits(w.bs, |w.disk|, w.ops[id].req, w.ops[id].stage, w.ops[id].phase.reply)
  }

  ghost function RawApply(w: World, a: Action): World
    requires RawEnabled(w, a)
  {
    match a
    case Launch(id, req) => ApplyLaunch(w, id, req)
    case Accept(id) => ApplyAccept(w, id)
    case Reject(id) => ApplyReject(w, id)
    case Execute(id, ok) => ApplyExecute(w, id, ok)
    case Callback(id) => ApplyCallback(w, id)
  }

  // The rule is all that the two step relations differ in.
  lemma RuleIsAll(w: World, disk0: Bytes, a: Action)
    requires Inv(w, disk0)
    ensures Enabled(w, a) <==>
      && RawEnabled(w, a)
      && (a.Launch? ==> forall j :: j in w.ops ==> Compatible(w, a.req, w.ops[j].req))
    ensures Enabled(w, a) ==> RawApply(w, a) == Apply(w, disk0, a)
  {
    if Enabled(w, a) { StepDefined(w, disk0, a); }
  }

  ghost predicate Leads(w: World, acts: seq<Action>, w': World)
    decreases |acts|
  {
    if acts == [] then w' == w
    else RawEnabled(w, acts[0]) && Leads(RawApply(w, acts[0]), acts[1..], w')
  }

  lemma {:induction false} LeadsOn(w: World, a: seq<Action>, w1: World, b: seq<Action>, w2: World)
    requires Leads(w, a, w1) && Leads(w1, b, w2)
    ensures Leads(w, a + b, w2)
    decreases |a|
  {
    if a == [] {
      assert a + b == b;
    } else {
      LeadsOn(RawApply(w, a[0]), a[1..], w1, b, w2);
      assert (a + b)[1..] == a[1..] + b;
    }
  }

  lemma LeadsFirst(w: World, a: Action, b: seq<Action>, w': World)
    requires RawEnabled(w, a) && Leads(RawApply(w, a), b, w')
    ensures Leads(w, [a] + b, w')
  {
    assert ([a] + b)[1..] == b;
  }

  // -------------------------------------------------------------------------
  // One write goes on without failures
  // -------------------------------------------------------------------------

  // The write id has done its work so far over `base`; of other requests nothing is said.
  ghost predicate Working(w: World, id: Id, base: Bytes) {
    && w.bs > 0 && id in w.ops && |w.disk| == |base| && OpOk(w.bs, base, w.disk, w.ops[id])
    && w.ops[id].req.WriteReq? && w.ops[id].phase != Answered(None)
  }

  function Completed(id: Id, r: Request): Entry
    requires r.WriteReq?
  {
    Entry(id, r, |r.buf|, [], false)
  }

  ghost predicate SameOutside(w: World, w': World, id: Id)
    requires w.bs > 0 && id in w.ops && ValidRequest(|w.disk|, w.ops[id].req)
  {
    && w'.bs == w.bs && |w'.disk| == |w.disk| && w'.known == w.known
    && forall y :: 0 <= y < |w.disk| && !(Lo(w, w.ops[id].req) <= y < Hi(w, w.ops[id].req)) ==> w'.disk[y] == w.disk[y]
  }

  // The write is complete in full, and its blocks show it over `base`.
  ghost predicate Finishes(w: World, id: Id, base: Bytes, w': World) {
    && w.bs > 0 && id in w.ops && |w.disk| == |base| && ValidRequest(|w.disk|, w.ops[id].req)
    && w.ops[id].req.WriteReq? && SameOutside(w, w', id)
    && w'.ops == w.ops - {id} && w'.log == w.log + [Completed(id, w.ops[id].req)]
    && SameRange(w'.disk, ApplyEntry(base, Completed(id, w.ops[id].req)), Lo(w, w.ops[id].req), Hi(w, w.ops[id].req))
  }

  // The write goes on.
  ghost predicate Continues(w: World, id: Id, base: Bytes, w': World) {
    && Working(w, id, base) && Working(w', id, base) && SameOutside(w, w', id)
    && w'.ops == w.ops[id := w'.ops[id]] && w'.ops[id].req == w.ops[id].req && w'.log == w.log
  }

  lemma ContinuesOn(w: World, id: Id, base: Bytes, w1: World, w2: World)
    requires Continues(w, id, base, w1)
    ensures Continues(w1, id, base, w2) ==> Continues(w, id, base, w2)
    ensures Finishes(w1, id, base, w2) ==> Finishes(w, id, base, w2)
  {
    if Finishes(w1, id, base, w2) {
      assert w1.ops - {id} == w.ops - {id};
    }
    if Continues(w1, id, base, w2) {
      assert w1.ops[id := w2.ops[id]] == w.ops[id := w2.ops[id]];
    }
  }

  ghost function NextAction(id: Id, op: Op): Action {
    match op.phase
    case Submitting => Accept(id)
    case InFlight => Execute(id, true)
    case Answered(_) => Callback(id)
  }

  // Accept or execute.
  lemma MovesOn(w: World, id: Id, base: Bytes) returns (w': World)
    requires Working(w, id, base) && !w.ops[id].phase.Answered?
    ensures RawEnabled(w, NextAction(id, w.ops[id])) && w' == RawApply(w, NextAction(id, w.ops[id]))
    ensures Continues(w, id, base, w') && StepsLeft(w'.ops[id]) < StepsLeft(w.ops[id])
    ensures w'.ops[id].stage == w.ops[id].stage && w'.ops[id].cmd == w.ops[id].cmd
    ensures w.ops[id].phase.InFlight? ==> w'.ops[id].phase.Answered?
  {
    var op := w.ops[id];
    if op.phase.InFlight? { ExecuteOk(w.bs, base, w.disk, op, true); }
    w' := RawApply(w, NextAction(id, op));
  }

  // The callback runs; `seen` is a disk over which the request is in order, the real one may
  // be different.
  lemma CallsBack(w: World, id: Id, base: Bytes, seen: Bytes) returns (w': World)
    requires w.bs > 0 && id in w.ops && |w.disk| == |base| == |seen|
    requires OpOk(w.bs, base, seen, w.ops[id]) && w.ops[id].req.WriteReq?
    requires w.ops[id].phase.Answered? && w.ops[id].phase.reply.Some?
    ensures RawEnabled(w, Callback(id)) && w' == RawApply(w, Callback(id))
    ensures var op := w.ops[id];
            match OnReply(w.bs, |w.disk|, op.req, op.stage, op.retval, op.phase.reply)
            case Submit(sub, retval) =>
              && w' == w.(ops := w.ops[id := Op(op.req, sub.stage, sub.cmd, Submitting, retval, op.issued)])
              && OpOk(w.bs, base, seen, w'.ops[id]) && StepsLeft(w'.ops[id]) < StepsLeft(op)
            case Finish(_, _) =>
              && w' == w.(ops := w.ops - {id}, log := w.log + [Completed(id, op.req)])
              && SameRange(seen, ApplyEntry(base, Completed(id, op.req)), Lo(w, op.req), Hi(w, op.req))
  {
    var op := w.ops[id];
    CallbackOk(w.bs, base, seen, op, id);
    w' := ApplyCallback(w, id);
    var o := OnReply(w.bs, |w.disk|, op.req, op.stage, op.retval, op.phase.reply);
    if o.Submit? {
      StageAdvances(w.bs, |w.disk|, op.req, op.stage, op.retval, op.phase.reply);
    } else {
      FinishShows(w.bs, base, seen, op, Completed(id, op.req));
    }
  }

  // Nothing stops a write before its end.
  lemma {:induction false} RunsToEnd(w: World, id: Id, base: Bytes) returns (acts: seq<Action>, w': World)
    requires Working(w, id, base)
    ensures Leads(w, acts, w') && Finishes(w, id, base, w')
    decreases StepsLeft(w.ops[id])
  {
    var a := NextAction(id, w.ops[id]);
    var w1;
    if w.ops[id].phase.Answered? {
      w1 := CallsBack(w, id, base, w.disk);
      if id !in w1.ops {
        acts, w' := [a], w1;
        return;
      }
    } else {
      w1 := MovesOn(w, id, base);
    }
    var rest;
    rest, w' := RunsToEnd(w1, id, base);
    LeadsFirst(w, a, rest, w');
    ContinuesOn(w, id, base, w1, w');
    acts := [a] + rest;
  }

  // -------------------------------------------------------------------------
  // Up to the read of the shared block
  // -------------------------------------------------------------------------

  // The request has yet to look at the answer to its read of block c, the last that it touches.
  ghost predicate WillRead(bs: nat, op: Op, c: nat)
    requires bs > 0 && op.req.WriteReq?
  {
    var off, n := op.req.off, |op.req.buf|;
    && (op.stage.LastRead? ==> op.cmd == Read(c, 1))
    && if op.stage.FirstRead? && op.cmd == Read(c, 1) then true
       else (op.stage.FirstRead? || op.stage.FullWrite? || op.stage.LastRead?)
            && Full(bs, off, n) < n && (off + n) / bs == c
  }

  // The answer to the read of block c is there.
  ghost predicate HasRead(op: Op, c: nat) {
    && op.phase.Answered? && op.phase.reply.Some? && op.cmd == Read(c, 1)
    && (op.stage.FirstRead? || op.stage.LastRead?)
  }

  lemma {:induction false} RunsToRead(w: World, id: Id, base: Bytes, c: nat) returns (acts: seq<Action>, w': World)
    requires Working(w, id, base) && WillRead(w.bs, w.ops[id], c)
    ensures Leads(w, acts, w') && Continues(w, id, base, w')
    ensures HasRead(w'.ops[id], c) && WillRead(w'.bs, w'.ops[id], c)
    decreases StepsLeft(w.ops[id])
  {
    if HasRead(w.ops[id], c) {
      acts, w' := [], w;
      return;
    }
    var a := NextAction(id, w.ops[id]);
    var w1;
    if w.ops[id].phase.Answered? {
      w1 := CallsBack(w, id, base, w.disk);
    } else {
      w1 := MovesOn(w, id, base);
    }
    var rest;
    rest, w' := RunsToRead(w1, id, base, c);
    LeadsFirst(w, a, rest, w');
    ContinuesOn(w, id, base, w1, w');
    acts := [a] + rest;
  }

  // -------------------------------------------------------------------------
  // A write that goes on from an answer that is out of date
  // -------------------------------------------------------------------------

  ghost predicate InBlock(bs: nat, c: nat, y: int) { c * bs <= y < c * bs + bs }

  // Outside block c the disk is what the request would expect.
  ghost predicate DiffersIn(bs: nat, c: nat, disk: Bytes, seen: Bytes) {
    |disk| == |seen| && forall y :: 0 <= y < |disk| && !InBlock(bs, c, y) ==> disk[y] == seen[y]
  }

  lemma MergedFirstLength(bs: nat, off: nat, buf: Bytes, block: Bytes)
    requires bs > 0 && |block| == bs && |buf| > 0
    ensures |MergedFirst(bs, off, buf, block)| >= bs
  {
    RangeFacts(bs, off, |buf|);
  }

  lemma FirstCovers(bs: nat, cap: nat, off: nat, buf: Bytes, retval: int, block: Bytes)
    requires bs > 0 && ValidRequest(cap, WriteReq(off, buf)) && |block| == bs
    ensures var o := OnReply(bs, cap, WriteReq(off, buf), FirstRead, retval, Some(block));
            o.Submit? && o.sub.cmd.Write? && o.sub.cmd.blk == off / bs && |o.sub.cmd.payload| >= bs
  {
    MergedFirstLength(bs, off, buf, block);
  }

  lemma MergedLastLength(bs: nat, off: nat, buf: Bytes, block: Bytes)
    requires bs > 0 && |block| == bs && (off + |buf|) % bs <= |buf|
    ensures |MergedLast(bs, off, buf, block)| == bs
  {
  }

  lemma LastCovers(bs: nat, cap: nat, off: nat, buf: Bytes, retval: int, block: Bytes)
    requires bs > 0 && ValidRequest(cap, WriteReq(off, buf)) && |block| == bs && (off + |buf|) % bs <= |buf|
    ensures var o := OnReply(bs, cap, WriteReq(off, buf), LastRead, retval, Some(block));
            o.Submit? && o.sub.cmd.Write? && o.sub.cmd.blk == (off + |buf|) / bs && |o.sub.cmd.payload| >= bs
  {
    MergedLastLength(bs, off, buf, block);
  }

  // The write after the read of block c covers the block: it repairs the difference.
  lemma CoversBlock(bs: nat, cap: nat, op: Op, c: nat)
    requires bs > 0 && ValidRequest(cap, op.req) && op.req.WriteReq? && HasRead(op, c) && WillRead(bs, op, c)
    requires ReplyFits(bs, cap, op.req, op.stage, op.phase.reply)
    requires op.stage.FirstRead? ==> op.cmd == Read(op.req.off / bs, 1)
    ensures var o := OnReply(bs, cap, op.req, op.stage, op.retval, op.phase.reply);
            o.Submit? && o.sub.cmd.Write? && o.sub.cmd.blk == c && |o.sub.cmd.payload| >= bs
  {
    if op.stage.FirstRead? {
      FirstCovers(bs, cap, op.req.off, op.req.buf, op.retval, op.phase.reply.value);
    } else {
      LastCovers(bs, cap, op.req.off, op.req.buf, op.retval, op.phase.reply.value);
    }
  }

  lemma SpliceCovers(disk: Bytes, seen: Bytes, bs: nat, c: nat, payload: Bytes)
    requires DiffersIn(bs, c, disk, seen) && |payload| >= bs && c * bs + |payload| <= |disk|
    ensures Splice(disk, c * bs, payload) == Splice(seen, c * bs, payload)
  {
  }

  // The callback asks for a write of the block.
  lemma AsksForBlock(w: World, id: Id, base: Bytes, seen: Bytes, c: nat) returns (w1: World)
    requires w.bs > 0 && id in w.ops && |base| == |seen| == |w.disk|
    requires OpOk(w.bs, base, seen, w.ops[id]) && w.ops[id].req.WriteReq?
    requires HasRead(w.ops[id], c) && WillRead(w.bs, w.ops[id], c)
    ensures RawEnabled(w, Callback(id)) && w1 == RawApply(w, Callback(id))
    ensures id in w1.ops && w1 == w.(ops := w.ops[id := w1.ops[id]]) && w1.ops[id].req == w.ops[id].req
    ensures OpOk(w.bs, base, seen, w1.ops[id]) && w1.ops[id].phase.Submitting?
    ensures var cmd := w1.ops[id].cmd; cmd.Write? && cmd.blk == c && |cmd.payload| >= w.bs
  {
    w1 := CallsBack(w, id, base, seen);
    CoversBlock(w.bs, |w.disk|, w.ops[id], c);
  }

  // A write of block c makes the disk what the request expects.
  lemma Repairs(bs: nat, base: Bytes, disk: Bytes, seen: Bytes, op: Op, c: nat)
    requires bs > 0 && |base| == |seen| && DiffersIn(bs, c, disk, seen)
    requires OpOk(bs, base, seen, op) && op.phase.InFlight?
    requires op.cmd.Write? && op.cmd.blk == c && |op.cmd.payload| >= bs
    ensures Fits(bs, disk, op.cmd) && DataOf(bs, disk, op.cmd) == []
    ensures var disk' := DiskAfter(bs, disk, op.cmd);
            && OpOk(bs, base, disk', op.(phase := Answered(Some([]))))
            && forall y :: 0 <= y < |seen| && !(OpLo(bs, op) <= y < OpHi(bs, |base|, op)) ==> disk'[y] == seen[y]
  {
    ExecutedWrite(bs, base, seen, op);
    SpliceCovers(disk, seen, bs, c, op.cmd.payload);
  }

  // The command is accepted and executed: the stale block is written over.
  lemma WritesBlock(w1: World, id: Id, base: Bytes, seen: Bytes, c: nat) returns (w2: World, w3: World)
    requires w1.bs > 0 && id in w1.ops && |base| == |seen| && DiffersIn(w1.bs, c, w1.disk, seen)
    requires OpOk(w1.bs, base, seen, w1.ops[id]) && w1.ops[id].req.WriteReq? && w1.ops[id].phase.Submitting?
    requires var cmd := w1.ops[id].cmd; cmd.Write? && cmd.blk == c && |cmd.payload| >= w1.bs
    ensures RawEnabled(w1, Accept(id)) && w2 == RawApply(w1, Accept(id))
    ensures RawEnabled(w2, Execute(id, true)) && w3 == RawApply(w2, Execute(id, true))
    ensures id in w3.ops && w3 == w1.(disk := w3.disk, ops := w1.ops[id := w3.ops[id]], accepted := w3.accepted)
    ensures Working(w3, id, base) && w3.ops[id].req == w1.ops[id].req
    ensures forall y :: 0 <= y < |seen| && !(Lo(w1, w1.ops[id].req) <= y < Hi(w1, w1.ops[id].req)) ==> w3.disk[y] == seen[y]
  {
    w2 := ApplyAccept(w1, id);
    var op := w2.ops[id];
    AcceptedOk(w1.bs, base, seen, w1.ops[id]);
    Repairs(w1.bs, base, w2.disk, seen, op, c);
    w3 := ApplyExecute(w2, id, true);
    UpdatedTwice(w1.ops, id, op, w3.ops[id]);
  }

  // The callback, and the write of the block.
  lemma RewritesBlock(w: World, id: Id, base: Bytes, seen: Bytes, c: nat) returns (w1: World, w2: World, w3: World)
    requires w.bs > 0 && id in w.ops && |base| == |seen| && DiffersIn(w.bs, c, w.disk, seen)
    requires OpOk(w.bs, base, seen, w.ops[id]) && w.ops[id].req.WriteReq?
    requires HasRead(w.ops[id], c) && WillRead(w.bs, w.ops[id], c)
    ensures RawEnabled(w, Callback(id)) && w1 == RawApply(w, Callback(id))
    ensures RawEnabled(w1, Accept(id)) && w2 == RawApply(w1, Accept(id))
    ensures RawEnabled(w2, Execute(id, true)) && w3 == RawApply(w2, Execute(id, true))
    ensures id in w3.ops && w3 == w.(disk := w3.disk, ops := w.ops[id := w3.ops[id]], accepted := w3.accepted)
    ensures Working(w3, id, base) && w3.ops[id].req == w.ops[id].req
    ensures forall y :: 0 <= y < |seen| && !(Lo(w, w.ops[id].req) <= y < Hi(w, w.ops[id].req)) ==> w3.disk[y] == seen[y]
  {
    w1 := AsksForBlock(w, id, base, seen, c);
    w2, w3 := WritesBlock(w1, id, base, seen, c);
    UpdatedTwice(w.ops, id, w1.ops[id], w3.ops[id]);
  }

  lemma OverwritesBlock(w: World, id: Id, base: Bytes, seen: Bytes, c: nat) returns (acts: seq<Action>, w': World)
    requires w.bs > 0 && id in w.ops && |base| == |seen| && DiffersIn(w.bs, c, w.disk, seen)
    requires OpOk(w.bs, base, seen, w.ops[id]) && w.ops[id].req.WriteReq?
    requires HasRead(w.ops[id], c) && WillRead(w.bs, w.ops[id], c)
    requires Lo(w, w.ops[id].req) <= c * w.bs && c * w.bs + w.bs <= Hi(w, w.ops[id].req)
    ensures Leads(w, acts, w') && Finishes(w, id, base, w')
  {
    var w1, w2, w3 := RewritesBlock(w, id, base, seen, c);
    var rest;
    rest, w' := RunsToEnd(w3, id, base);
    LeadsFirst(w2, Execute(id, true), rest, w');
    LeadsFirst(w1, Accept(id), [Execute(id, true)] + rest, w');
    LeadsFirst(w, Callback(id), [Accept(id)] + ([Execute(id, true)] + rest), w');
    acts := [Callback(id)] + ([Accept(id)] + ([Execute(id, true)] + rest));
    FinishesAfter(w, w3, id, base, w');
  }

  lemma FinishesAfter(w: World, w3: World, id: Id, base: Bytes, w': World)
    requires w.bs > 0 && id in w.ops && |w.disk| == |base| && w.ops[id].req.WriteReq? && ValidRequest(|w.disk|, w.ops[id].req)
    requires id in w3.ops && w3.ops[id].req == w.ops[id].req && Finishes(w3, id, base, w')
    requires SameOutside(w, w3, id) && w3.log == w.log && w3.ops - {id} == w.ops - {id}
    ensures Finishes(w, id, base, w')
  {
  }

  // -------------------------------------------------------------------------
  // Main result
  // -------------------------------------------------------------------------

  // Writes of different bytes, e before l, that touch a common block.
  ghost predicate ShareBlock(bs: nat, cap: nat, e: Request, l: Request) {
    && bs > 0 && e.WriteReq? && l.WriteReq? && ValidRequest(cap, e) && ValidRequest(cap, l)
    && e.off + |e.buf| <= l.off && Start(bs, l.off) < End(bs, e.off, |e.buf|)
  }

  // What the rule forbids, for writes of different bytes, is exactly a common block.
  lemma ForbiddenExactly(w: World, a: Request, b: Request)
    requires w.bs > 0 && a.WriteReq? && b.WriteReq? && ValidRequest(|w.disk|, a) && ValidRequest(|w.disk|, b)
    requires a.off + |a.buf| <= b.off || b.off + |b.buf| <= a.off
    ensures !Compatible(w, a, b) <==> ShareBlock(w.bs, |w.disk|, a, b) || ShareBlock(w.bs, |w.disk|, b, a)
  {
    RangeFacts(w.bs, a.off, |a.buf|);
    RangeFacts(w.bs, b.off, |b.buf|);
  }

  // The block is the last of e, which ends inside it, and the first of l, which starts inside it.
  lemma BlockShared(bs: nat, cap: nat, e: Request, l: Request)
    requires ShareBlock(bs, cap, e, l)
    ensures var c, end := l.off / bs, e.off + |e.buf|;
            && Start(bs, l.off) == c * bs && End(bs, e.off, |e.buf|) == c * bs + bs
            && end / bs == c && end % bs != 0 && l.off % bs != 0 && c * bs < end
  {
    var c, end := l.off / bs, e.off + |e.buf|;
    var q := end / bs;
    Division(bs, l.off);
    Division(bs, end);
    Multiples(bs, q - c);
    assert bs * (q - c) == q * bs - c * bs;
    assert (q + 1) * bs == q * bs + bs;
    assert q == c;
    assert (c + 1) * bs == c * bs + bs;
  }

  lemma WillReadFirst(bs: nat, cap: nat, e: Request, c: nat)
    requires bs > 0 && e.WriteReq? && ValidRequest(cap, e)
    requires (e.off + |e.buf|) / bs == c && (e.off + |e.buf|) % bs != 0 && End(bs, e.off, |e.buf|) == c * bs + bs
    ensures var sub := FirstSubmission(bs, cap, e);
            WillRead(bs, Op(e, sub.stage, sub.cmd, Submitting, -1, 0), c)
  {
    var off, n := e.off, |e.buf|;
    RangeFacts(bs, off, n);
    if Full(bs, off, n) == n {
      assert Head(bs, off, n) == n;
      SameFactor(bs, off / bs, c);
    } else if off % bs == 0 && n / bs == 0 {
      SameFactor(bs, off / bs, c);
    }
  }

  // Both writes have read the shared block, neither has written it.
  ghost predicate BothHaveRead(w: World, bs: nat, disk: Bytes, e: Request, l: Request, c: nat) {
    && ShareBlock(bs, |disk|, e, l) && w.bs == bs && |w.disk| == |disk| && w.log == []
    && w.ops.Keys == {0, 1} && w.ops[0].req == e && w.ops[1].req == l
    && forall k {:trigger Ask(Topic.Requests, k)} :: Ask(Topic.Requests, k) ==>
      && Working(w, 0, disk) && Working(w, 1, w.disk)
      && HasRead(w.ops[0], c) && WillRead(bs, w.ops[0], c) && HasRead(w.ops[1], c) && WillRead(bs, w.ops[1], c)
      && (forall y :: 0 <= y < |disk| && !(e.off <= y < c * bs) ==> w.disk[y] == disk[y])
  }

  // What e has written by then lies before the shared block.
  lemma WrittenBefore(bs: nat, base: Bytes, disk: Bytes, op: Op, c: nat)
    requires bs > 0 && |disk| == |base| && OpOk(bs, base, disk, op) && op.req.WriteReq?
    requires HasRead(op, c) && WillRead(bs, op, c)
    ensures forall y :: OpLo(bs, op) <= y < OpHi(bs, |base|, op) && !(op.req.off <= y < c * bs) ==> disk[y] == base[y]
    ensures op.phase.reply.value == base[c * bs..c * bs + bs]
  {
    assert 1 * bs == bs;
  }

  lemma FirstHasRead(bs: nat, numBlocks: nat, disk: Bytes, e: Request, c: nat) returns (acts: seq<Action>, w: World)
    requires bs > 0 && |disk| == bs * numBlocks && e.WriteReq? && ValidRequest(|disk|, e)
    requires (e.off + |e.buf|) / bs == c && (e.off + |e.buf|) % bs != 0 && End(bs, e.off, |e.buf|) == c * bs + bs
    ensures Leads(Init(bs, numBlocks, disk), acts, w)
    ensures w.bs == bs && |w.disk| == |disk| && w.log == [] && w.known == {0}
    ensures w.ops.Keys == {0} && w.ops[0].req == e
    ensures Working(w, 0, disk) && HasRead(w.ops[0], c) && WillRead(bs, w.ops[0], c)
    ensures forall y :: 0 <= y < |disk| && !(e.off <= y < c * bs) ==> w.disk[y] == disk[y]
  {
    var w0 := Init(bs, numBlocks, disk);
    var w1 := ApplyLaunch(w0, 0, e);
    LaunchOk(bs, numBlocks, disk, disk, e);
    WillReadFirst(bs, |disk|, e, c);
    var rest;
    rest, w := RunsToRead(w1, 0, disk, c);
    WrittenBefore(bs, disk, w.disk, w.ops[0], c);
    LeadsFirst(w0, Launch(0, e), rest, w);
    acts := [Launch(0, e)] + rest;
  }

  // A write that starts inside block c reads it first.
  lemma SecondHasRead(w: World, numBlocks: nat, id: Id, l: Request, c: nat) returns (acts: seq<Action>, w': World)
    requires w.bs > 0 && |w.disk| == w.bs * numBlocks && l.WriteReq? && ValidRequest(|w.disk|, l)
    requires l.off / w.bs == c && l.off % w.bs != 0 && id !in w.known
    ensures Leads(w, acts, w')
    ensures id in w'.ops && w' == w.(ops := w.ops[id := w'.ops[id]], known := w.known + {id}, accepted := w'.accepted)
    ensures w'.ops[id].req == l && Working(w', id, w.disk) && HasRead(w'.ops[id], c) && WillRead(w.bs, w'.ops[id], c)
  {
    var w1 := ApplyLaunch(w, id, l);
    LaunchOk(w.bs, numBlocks, w.disk, w.disk, l);
    var w2 := MovesOn(w1, id, w.disk);
    w' := MovesOn(w2, id, w.disk);
    LeadsFirst(w2, Execute(id, true), [], w');
    LeadsFirst(w1, Accept(id), [Execute(id, true)] + [], w');
    acts := [Accept(id)] + ([Execute(id, true)] + []);
    LeadsFirst(w, Launch(id, l), acts, w');
    acts := [Launch(id, l)] + acts;
  }

  lemma BothRead(bs: nat, numBlocks: nat, disk: Bytes, e: Request, l: Request) returns (acts: seq<Action>, w: World)
    requires |disk| == bs * numBlocks && ShareBlock(bs, |disk|, e, l)
    ensures Leads(Init(bs, numBlocks, disk), acts, w)
    ensures BothHaveRead(w, bs, disk, e, l, l.off / bs)
  {
    var c := l.off / bs;
    BlockShared(bs, |disk|, e, l);
    var first, w1 := FirstHasRead(bs, numBlocks, disk, e, c);
    var second;
    second, w := SecondHasRead(w1, numBlocks, 1, l, c);
    LeadsOn(Init(bs, numBlocks, disk), first, w1, second, w);
    acts := first + second;
  }

  ghost predicate Inside(r: Request, y: int)
    requires r.WriteReq?
  {
    r.off <= y < r.off + |r.buf|
  }

  function ByteOf(r: Request, y: int): Byte
    requires r.WriteReq? && r.off <= y < r.off + |r.buf|
  {
    r.buf[y - r.off]
  }

  // The winner's bytes, the loser's bytes outside block c, and nothing else.
  ghost predicate LosesIn(bs: nat, c: nat, disk: Bytes, after: Bytes, loser: Request, winner: Request)
    requires loser.WriteReq? && winner.WriteReq?
  {
    && |after| == |disk|
    && forall y :: 0 <= y < |disk| ==>
         after[y] == if Inside(winner, y) then ByteOf(winner, y)
                     else if Inside(loser, y) && !InBlock(bs, c, y) then ByteOf(loser, y)
                     else disk[y]
  }

  // The base over which request 0 or 1 works.
  ghost function BaseOf(w: World, disk: Bytes, id: Id): Bytes { if id == 0 then disk else w.disk }

  lemma OneHasRead(w: World, bs: nat, disk: Bytes, e: Request, l: Request, c: nat, a: Id)
    requires BothHaveRead(w, bs, disk, e, l, c) && a <= 1
    ensures w.ops[a].req == if a == 0 then e else l
    ensures Working(w, a, BaseOf(w, disk, a)) && HasRead(w.ops[a], c) && WillRead(bs, w.ops[a], c)
  {
    assert Ask(Topic.Requests, 0);
  }

  // The disk with block c as it was.
  ghost function Stale(bs: nat, c: nat, disk: Bytes, before: Bytes): (seen: Bytes)
    requires |disk| == |before|
    ensures DiffersIn(bs, c, disk, seen)
  {
    seq(|disk|, y requires 0 <= y < |disk| => if c * bs <= y < c * bs + bs then before[y] else disk[y])
  }

  // Where the loser wrote outside block c the winner does not look.
  lemma StaleSame(w: World, bs: nat, disk: Bytes, e: Request, l: Request, a: Id, w1: World)
    requires ShareBlock(bs, |disk|, e, l) && w.bs == bs && |w.disk| == |w1.disk| == |disk| && a <= 1
    requires a in w.ops && w.ops[a].req == (if a == 0 then e else l) && SameOutside(w, w1, a)
    ensures var other := if a == 0 then l else e;
            SameRange(w.disk, Stale(bs, l.off / bs, w1.disk, w.disk), Start(bs, other.off), End(bs, other.off, |other.buf|))
  {
    RangesMeet(bs, |disk|, e, l);
  }

  // The loser is complete; the winner's answer shows block c as it was before.
  lemma LoserFirst(w: World, bs: nat, disk: Bytes, e: Request, l: Request, c: nat, a: Id, w1: World) returns (seen: Bytes)
    requires BothHaveRead(w, bs, disk, e, l, c) && c == l.off / bs && a <= 1
    requires Finishes(w, a, BaseOf(w, disk, a), w1)
    ensures w1.bs == bs && w1.ops == map[1 - a := w.ops[1 - a]] && DiffersIn(bs, c, w1.disk, seen)
    ensures |seen| == |disk| && OpOk(bs, BaseOf(w, disk, 1 - a), seen, w1.ops[1 - a])
    ensures Lo(w1, w1.ops[1 - a].req) <= c * bs && c * bs + bs <= Hi(w1, w1.ops[1 - a].req)
  {
    OneHasRead(w, bs, disk, e, l, c, a);
    OneHasRead(w, bs, disk, e, l, c, 1 - a);
    RangesMeet(bs, |disk|, e, l);
    StaleSame(w, bs, disk, e, l, a, w1);
    seen := Stale(bs, c, w1.disk, w.disk);
    WriteFrame(bs, BaseOf(w, disk, 1 - a), w.disk, seen, w.ops[1 - a]);
  }

  // A write sees no more of the disk than its blocks.
  lemma WriteFrame(bs: nat, base: Bytes, disk: Bytes, seen: Bytes, op: Op)
    requires bs > 0 && |disk| == |base| == |seen| && op.req.WriteReq? && OpOk(bs, base, disk, op)
    requires SameRange(disk, seen, Start(bs, op.req.off), End(bs, op.req.off, |op.req.buf|))
    ensures OpOk(bs, base, seen, op)
  {
    OpFrame(bs, base, base, disk, seen, op);
  }

  lemma RangesMeet(bs: nat, cap: nat, e: Request, l: Request)
    requires ShareBlock(bs, cap, e, l)
    ensures var c := l.off / bs;
            && Start(bs, e.off) <= e.off && Start(bs, e.off) <= c * bs
            && c * bs + bs <= End(bs, l.off, |l.buf|) && l.off + |l.buf| <= End(bs, l.off, |l.buf|)
            && End(bs, e.off, |e.buf|) == c * bs + bs && Start(bs, l.off) == c * bs
            && c * bs < e.off + |e.buf| && l.off < c * bs + bs
  {
    BlockShared(bs, cap, e, l);
    RangeFacts(bs, l.off, |l.buf|);
    FirstBlockInside(bs, l.off, |l.buf|);
    RangeFacts(bs, e.off, |e.buf|);
  }

  lemma CompletedSplices(base: Bytes, id: Id, r: Request)
    requires r.WriteReq? && ValidRequest(|base|, r)
    ensures ApplyEntry(base, Completed(id, r)) == Splice(base, r.off, r.buf)
  {
    assert r.buf[..|r.buf|] == r.buf;
  }

  // disk' is disk with a write over `base` in the range that starts at lo.
  ghost predicate WrittenOver(disk': Bytes, disk: Bytes, base: Bytes, r: Request, lo: nat, hi: nat) {
    && r.WriteReq? && ValidRequest(|base|, r) && |disk| == |disk'| == |base|
    && forall y :: 0 <= y < |disk| ==>
         disk'[y] == if !(lo <= y < hi) then disk[y] else if Inside(r, y) then ByteOf(r, y) else base[y]
  }

  lemma FinishedOver(w: World, id: Id, base: Bytes, w': World)
    requires Finishes(w, id, base, w')
    ensures WrittenOver(w'.disk, w.disk, base, w.ops[id].req, Lo(w, w.ops[id].req), Hi(w, w.ops[id].req))
  {
    CompletedSplices(base, id, w.ops[id].req);
  }

  // The ranges of e and l meet in [mid, top).
  lemma EarlierLost(disk: Bytes, d0: Bytes, d1: Bytes, d2: Bytes, e: Request, l: Request, elo: nat, mid: nat, top: nat, lhi: nat)
    requires WrittenOver(d1, d0, disk, e, elo, top) && WrittenOver(d2, d1, d0, l, mid, lhi)
    requires elo <= e.off && mid < e.off + |e.buf| <= l.off && l.off < top <= lhi && l.off + |l.buf| <= lhi
    requires forall y :: 0 <= y < |disk| && !(e.off <= y < mid) ==> d0[y] == disk[y]
    ensures forall y :: 0 <= y < |disk| ==>
      d2[y] == if Inside(l, y) then ByteOf(l, y)
               else if Inside(e, y) && !(mid <= y < top) then ByteOf(e, y) else disk[y]
  {
  }

  lemma LaterLost(disk: Bytes, d0: Bytes, d1: Bytes, d2: Bytes, e: Request, l: Request, elo: nat, mid: nat, top: nat, lhi: nat)
    requires WrittenOver(d1, d0, d0, l, mid, lhi) && WrittenOver(d2, d1, disk, e, elo, top)
    requires elo <= e.off && elo <= mid < e.off + |e.buf| <= l.off && l.off < top <= lhi && l.off + |l.buf| <= lhi
    requires forall y :: 0 <= y < |disk| && !(e.off <= y < mid) ==> d0[y] == disk[y]
    ensures forall y :: 0 <= y < |disk| ==>
      d2[y] == if Inside(e, y) then ByteOf(e, y)
               else if Inside(l, y) && !(mid <= y < top) then ByteOf(l, y) else disk[y]
  {
  }

  lemma LostBytes(w: World, bs: nat, disk: Bytes, e: Request, l: Request, c: nat, a: Id, w1: World, w2: World)
    requires BothHaveRead(w, bs, disk, e, l, c) && c == l.off / bs && a <= 1
    requires Finishes(w, a, BaseOf(w, disk, a), w1) && 1 - a in w1.ops && w1.ops[1 - a] == w.ops[1 - a]
    requires Finishes(w1, 1 - a, BaseOf(w, disk, 1 - a), w2)
    ensures LosesIn(bs, c, disk, w2.disk, if a == 0 then e else l, if a == 0 then l else e)
  {
    assert Ask(Topic.Requests, 0);
    RangesMeet(bs, |disk|, e, l);
    FinishedOver(w, a, BaseOf(w, disk, a), w1);
    FinishedOver(w1, 1 - a, BaseOf(w, disk, 1 - a), w2);
    LostBytesAt(w.disk, w1.disk, w2.disk, bs, disk, e, l, c, a);
  }

  lemma LostBytesAt(d0: Bytes, d1: Bytes, d2: Bytes, bs: nat, disk: Bytes, e: Request, l: Request, c: nat, a: nat)
    requires ShareBlock(bs, |disk|, e, l) && c == l.off / bs && a <= 1 && |d0| == |disk|
    requires forall y :: 0 <= y < |disk| && !(e.off <= y < c * bs) ==> d0[y] == disk[y]
    requires var elo, ehi, llo, lhi := Start(bs, e.off), End(bs, e.off, |e.buf|), Start(bs, l.off), End(bs, l.off, |l.buf|);
             if a == 0 then WrittenOver(d1, d0, disk, e, elo, ehi) && WrittenOver(d2, d1, d0, l, llo, lhi)
             else WrittenOver(d1, d0, d0, l, llo, lhi) && WrittenOver(d2, d1, disk, e, elo, ehi)
    ensures LosesIn(bs, c, disk, d2, if a == 0 then e else l, if a == 0 then l else e)
  {
    RangesMeet(bs, |disk|, e, l);
    var mid := c * bs;
    if a == 0 {
      EarlierLost(disk, d0, d1, d2, e, l, Start(bs, e.off), mid, mid + bs, End(bs, l.off, |l.buf|));
    } else {
      LaterLost(disk, d0, d1, d2, e, l, Start(bs, e.off), mid, mid + bs, End(bs, l.off, |l.buf|));
    }
  }

  lemma ReplayTwo(disk: Bytes, x: Entry, y: Entry)
    ensures Replay(disk, [x, y]) == ApplyEntry(ApplyEntry(disk, x), y)
  {
    assert [x, y][..1] == [x] && [x][..0] == [];
    assert Replay(disk, [x]) == ApplyEntry(Replay(disk, []), x);
  }

  // Nothing fails, both writes report success, and the disk is what they were to leave exactly
  // when the loser's bytes in the shared block were there before.
  lemma SharedBlockLosesUpdate(bs: nat, numBlocks: nat, disk: Bytes, e: Request, l: Request, earlierLoses: bool)
    returns (acts: seq<Action>, w: World)
    requires |disk| == bs * numBlocks && ShareBlock(bs, |disk|, e, l)
    ensures Leads(Init(bs, numBlocks, disk), acts, w) && w.ops == map[]
    ensures w.log == if earlierLoses then [Completed(0, e), Completed(1, l)] else [Completed(1, l), Completed(0, e)]
    ensures var loser, c := if earlierLoses then e else l, l.off / bs;
            && LosesIn(bs, c, disk, w.disk, loser, if earlierLoses then l else e)
            && (exists y :: 0 <= y < |disk| && Inside(loser, y) && InBlock(bs, c, y))
            && (w.disk == Replay(disk, w.log) <==>
                  forall y :: 0 <= y < |disk| && Inside(loser, y) && InBlock(bs, c, y) ==> ByteOf(loser, y) == disk[y])
  {
    var c, a := l.off / bs, if earlierLoses then 0 else 1;
    var loser, winner := if earlierLoses then e else l, if earlierLoses then l else e;
    acts, w := LoserWinnerRun(bs, numBlocks, disk, e, l, a);
    LossExact(bs, c, disk, w.disk, a, loser, winner);
    BytesShared(bs, |disk|, e, l);
  }

  // Both requests have bytes in the shared block.
  lemma BytesShared(bs: nat, cap: nat, e: Request, l: Request)
    requires ShareBlock(bs, cap, e, l)
    ensures var y := e.off + |e.buf| - 1; 0 <= y < cap && Inside(e, y) && InBlock(bs, l.off / bs, y)
    ensures var y := l.off; 0 <= y < cap && Inside(l, y) && InBlock(bs, l.off / bs, y)
  {
    RangesMeet(bs, cap, e, l);
  }

  lemma LoserWinnerRun(bs: nat, numBlocks: nat, disk: Bytes, e: Request, l: Request, a: Id)
    returns (acts: seq<Action>, w: World)
    requires |disk| == bs * numBlocks && ShareBlock(bs, |disk|, e, l) && a <= 1
    ensures Leads(Init(bs, numBlocks, disk), acts, w) && w.ops == map[]
    ensures w.log == [Completed(a, if a == 0 then e else l), Completed(1 - a, if a == 0 then l else e)]
    ensures LosesIn(bs, l.off / bs, disk, w.disk, if a == 0 then e else l, if a == 0 then l else e)
  {
    var first, w0 := BothRead(bs, numBlocks, disk, e, l);
    var rest;
    rest, w := BothFinish(w0, bs, disk, e, l, a);
    LeadsOn(Init(bs, numBlocks, disk), first, w0, rest, w);
    acts := first + rest;
  }

  lemma LoserFinishes(w: World, bs: nat, disk: Bytes, e: Request, l: Request, c: nat, a: Id, w1: World)
    returns (acts: seq<Action>, w': World)
    requires BothHaveRead(w, bs, disk, e, l, c) && c == l.off / bs && a <= 1
    requires Finishes(w, a, BaseOf(w, disk, a), w1)
    ensures Leads(w1, acts, w') && 1 - a in w1.ops && Finishes(w1, 1 - a, BaseOf(w, disk, 1 - a), w')
  {
    var seen := LoserFirst(w, bs, disk, e, l, c, a, w1);
    OneHasRead(w, bs, disk, e, l, c, 1 - a);
    acts, w' := OverwritesBlock(w1, 1 - a, BaseOf(w, disk, 1 - a), seen, c);
  }

  lemma BothFinish(w0: World, bs: nat, disk: Bytes, e: Request, l: Request, a: Id) returns (acts: seq<Action>, w: World)
    requires bs > 0 && BothHaveRead(w0, bs, disk, e, l, l.off / bs) && a <= 1
    ensures Leads(w0, acts, w) && w.ops == map[]
    ensures w.log == [Completed(a, if a == 0 then e else l), Completed(1 - a, if a == 0 then l else e)]
    ensures LosesIn(bs, l.off / bs, disk, w.disk, if a == 0 then e else l, if a == 0 then l else e)
  {
    var c := l.off / bs;
    OneHasRead(w0, bs, disk, e, l, c, a);
    OneHasRead(w0, bs, disk, e, l, c, 1 - a);
    var second, w1 := RunsToEnd(w0, a, BaseOf(w0, disk, a));
    var third;
    third, w := LoserFinishes(w0, bs, disk, e, l, c, a, w1);
    LeadsOn(w0, second, w1, third, w);
    acts := second + third;
    LostBytes(w0, bs, disk, e, l, c, a, w1, w);
  }

  lemma LossExact(bs: nat, c: nat, disk: Bytes, after: Bytes, a: Id, loser: Request, winner: Request)
    requires a <= 1 && loser.WriteReq? && winner.WriteReq? && ValidRequest(|disk|, loser) && ValidRequest(|disk|, winner)
    requires forall y :: Inside(loser, y) ==> !Inside(winner, y)
    requires LosesIn(bs, c, disk, after, loser, winner)
    ensures after == Replay(disk, [Completed(a, loser), Completed(1 - a, winner)]) <==>
      forall y :: 0 <= y < |disk| && Inside(loser, y) && InBlock(bs, c, y) ==> ByteOf(loser, y) == disk[y]
  {
    ReplayTwo(disk, Completed(a, loser), Completed(1 - a, winner));
    CompletedSplices(disk, a, loser);
    CompletedSplices(Splice(disk, loser.off, loser.buf), 1 - a, winner);
    BothSpliced(disk, loser, winner);
    var both := Splice(Splice(disk, loser.off, loser.buf), winner.off, winner.buf);
    if forall y :: 0 <= y < |disk| && Inside(loser, y) && InBlock(bs, c, y) ==> ByteOf(loser, y) == disk[y] {
      forall y | 0 <= y < |disk| ensures after[y] == both[y] { }
    }
    if after == both {
      forall y | 0 <= y < |disk| && Inside(loser, y) && InBlock(bs, c, y) ensures ByteOf(loser, y) == disk[y] {
        assert after[y] == both[y];
      }
    }
  }

  lemma BothSpliced(disk: Bytes, loser: Request, winner: Request)
    requires loser.WriteReq? && winner.WriteReq? && ValidRequest(|disk|, loser) && ValidRequest(|disk|, winner)
    ensures var both := Splice(Splice(disk, loser.off, loser.buf), winner.off, winner.buf);
            forall y :: 0 <= y < |disk| ==>
              both[y] == if Inside(winner, y) then ByteOf(winner, y)
                         else if Inside(loser, y) then ByteOf(loser, y) else disk[y]
  {
  }
}
