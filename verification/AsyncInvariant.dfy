/** Every step of every asynchronous request keeps the invariant of the whole system. */
module AsyncInvariant {
  import opened Common
  import opened Blocks
  import opened AsyncSpec
  import opened AsyncProtocol

  // -------------------------------------------------------------------------
  // One request
  // -------------------------------------------------------------------------

  ghost predicate SameRange(a: Bytes, b: Bytes, lo: nat, hi: nat) {
    |a| == |b| && forall y :: lo <= y < hi && y < |a| ==> a[y] == b[y]
  }

  ghost function OpLo(bs: nat, op: Op): nat
    requires bs > 0
  {
    From(bs, op.req)
  }

  ghost function OpHi(bs: nat, cap: nat, op: Op): nat
    requires bs > 0 && ValidRequest(cap, op.req)
  {
    Upto(bs, cap, op.req)
  }

  lemma CarriesFrame(payload: Bytes, pos: nat, base: Bytes, base': Bytes, r: Request, upto: nat, lo: nat, hi: nat)
    requires r.WriteReq? && upto <= r.off + |r.buf| && pos + |payload| <= |base|
    requires Carries(payload, pos, base, r, upto)
    requires SameRange(base, base', lo, hi) && lo <= pos && pos + |payload| <= hi
    ensures Carries(payload, pos, base', r, upto)
  {
    forall i | 0 <= i < |payload|
      ensures payload[i] == if r.off <= pos + i < upto then r.buf[pos + i - r.off] else base'[pos + i]
    {
      assert base'[pos + i] == base[pos + i];
    }
  }

  lemma ReplyFrame(bs: nat, base: Bytes, base': Bytes, op: Op)
    requires bs > 0 && |base'| == |base| && ValidRequest(|base|, op.req) && RangeIs(bs, |base|, op.req)
    requires CommandOk(bs, base, op) && ReplyOk(bs, base, op)
    requires SameRange(base, base', OpLo(bs, op), OpHi(bs, |base|, op))
    ensures ReplyOk(bs, base', op)
  {
  }

  lemma CommandFrame(bs: nat, base: Bytes, base': Bytes, op: Op)
    requires bs > 0 && |base'| == |base| && ValidRequest(|base|, op.req) && RangeIs(bs, |base|, op.req)
    requires CommandOk(bs, base, op)
    requires SameRange(base, base', OpLo(bs, op), OpHi(bs, |base|, op))
    ensures CommandOk(bs, base', op)
  {
    match op.stage
    case FullWrite =>
      CarriesFrame(op.cmd.payload, OpLo(bs, op), base, base', op.req, op.req.off + Full(bs, op.req.off, |op.req.buf|),
                   OpLo(bs, op), OpHi(bs, |base|, op));
    case LastWrite =>
      CarriesFrame(op.cmd.payload, op.cmd.blk * bs, base, base', op.req, op.req.off + |op.req.buf|,
                   OpLo(bs, op), OpHi(bs, |base|, op));
    case _ =>
  }

  // A read only depends on its own bytes, a write on the blocks it touches.
  lemma OpFrame(bs: nat, base: Bytes, base': Bytes, disk: Bytes, disk': Bytes, op: Op)
    requires bs > 0 && |disk| == |base| && OpOk(bs, base, disk, op)
    requires SameRange(base, base', OpLo(bs, op), OpHi(bs, |base|, op))
    requires SameRange(disk, disk', OpLo(bs, op), OpHi(bs, |base|, op))
    ensures OpOk(bs, base', disk', op)
  {
    CommandFrame(bs, base, base', op);
    ReplyFrame(bs, base, base', op);
  }

  // A read command of a request stays inside its blocks.
  lemma ReadInside(bs: nat, base: Bytes, op: Op)
    requires bs > 0 && ValidRequest(|base|, op.req) && RangeIs(bs, |base|, op.req)
    requires CommandOk(bs, base, op) && op.cmd.Read?
    ensures Start(bs, op.req.off) <= op.cmd.blk * bs
    ensures op.cmd.blk * bs + op.cmd.count * bs <= End(bs, op.req.off, Size(|base|, op.req)) <= |base|
    ensures op.stage != WholeRead ==> op.cmd.count * bs == bs
  {
    if op.stage.FirstRead? {
      assert op.cmd.blk * bs == Start(bs, op.req.off);
      FirstBlockInside(bs, op.req.off, Size(|base|, op.req));
    }
  }

  lemma FirstBlockInside(bs: nat, off: nat, n: nat)
    requires bs > 0 && n > 0 && off % bs != 0 && Laid(bs, off, n)
    ensures Start(bs, off) + bs <= End(bs, off, n)
  {
  }

  lemma FirstCommandOk(bs: nat, base: Bytes, req: Request)
    requires bs > 0 && ValidRequest(|base|, req) && RangeIs(bs, |base|, req)
    requires End(bs, req.off, Size(|base|, req)) <= |base|
    ensures var sub := FirstSubmission(bs, |base|, req);
            CommandOk(bs, base, Op(req, sub.stage, sub.cmd, Submitting, -1, 0))
  {
    var n := Size(|base|, req);
    if req.ReadReq? {
      var c0, c1, c2 := if req.off % bs != 0 then 1 else 0, Whole(bs, req.off, n), if Full(bs, req.off, n) < n then 1 else 0;
      ThreeTerms(c0, c1, c2, bs);
    } else if req.off % bs == 0 {
      assert Head(bs, req.off, n) == 0 && Whole(bs, req.off, n) == n / bs;
      if n / bs > 0 { Multiples(bs, n / bs); }
    }
  }

  // Also for a read of nothing, at the very end.
  lemma RangeInside(bs: nat, numBlocks: nat, off: nat, n: nat)
    requires bs > 0 && off + n <= bs * numBlocks && (n == 0 ==> off == bs * numBlocks)
    ensures Laid(bs, off, n) && End(bs, off, n) <= bs * numBlocks
  {
    if n == 0 { DivisionExact(bs, numBlocks, 0); }
    RangeFacts(bs, off, n);
    EndFits(bs, off, n, numBlocks);
  }

  lemma LaunchOk(bs: nat, numBlocks: nat, base: Bytes, disk: Bytes, req: Request)
    requires bs > 0 && |disk| == |base| == bs * numBlocks && ValidRequest(|base|, req)
    requires SameRange(disk, base, From(bs, req), Upto(bs, |base|, req))
    ensures var sub := FirstSubmission(bs, |base|, req);
            OpOk(bs, base, disk, Op(req, sub.stage, sub.cmd, Submitting, -1, 0))
  {
    var n := Size(|base|, req);
    RangeInside(bs, numBlocks, req.off, n);
    FirstCommandOk(bs, base, req);
    if req.WriteReq? && req.off % bs == 0 && n / bs == 0 {
      assert Full(bs, req.off, n) == 0;
    }
  }

  // -------------------------------------------------------------------------
  // The device executes a command
  // -------------------------------------------------------------------------

  lemma CommandFits(bs: nat, base: Bytes, op: Op)
    requires bs > 0 && ValidRequest(|base|, op.req) && RangeIs(bs, |base|, op.req) && CommandOk(bs, base, op)
    ensures Start(bs, op.req.off) <= op.cmd.blk * bs
    ensures op.cmd.blk * bs + Length(bs, op.cmd) <= End(bs, op.req.off, Size(|base|, op.req)) <= |base|
  {
    if op.cmd.Read? { ReadInside(bs, base, op); }
  }

  // Nothing that the request itself has written lies inside what it reads.
  lemma ReadsBase(bs: nat, base: Bytes, disk: Bytes, op: Op)
    requires bs > 0 && |disk| == |base| && OpOk(bs, base, disk, op) && op.cmd.Read? && op.phase.InFlight?
    ensures Fits(bs, disk, op.cmd)
    ensures ReplyOk(bs, base, op.(phase := Answered(Some(DataOf(bs, disk, op.cmd)))))
  {
    ReadInside(bs, base, op);
    var p, q := op.cmd.blk * bs, op.cmd.blk * bs + op.cmd.count * bs;
    forall y | p <= y < q && OpLo(bs, op) <= y < OpHi(bs, |base|, op) ensures disk[y] == base[y] {
      assert !(op.req.WriteReq? && op.req.off <= y < op.req.off + Progress(bs, op));
    }
  }

  // Writing a payload that carries the request up to byte r.off + k' over a disk that
  // shows it up to k.
  lemma SpliceShows(disk: Bytes, base: Bytes, r: Request, k: nat, k': nat, pos: nat, payload: Bytes, lo: nat, hi: nat)
    requires |disk| == |base| && r.WriteReq? && k <= |r.buf| && k' <= |r.buf|
    requires lo <= pos && pos + |payload| <= hi <= |base|
    requires Shows(disk, base, r, k, lo, hi) && Carries(payload, pos, base, r, r.off + k')
    requires k <= k' && (k > 0 ==> r.off + k <= pos + |payload|)
    requires r.off + k' <= pos + |payload| && (pos <= r.off || pos <= r.off + k)
    ensures Shows(Splice(disk, pos, payload), base, r, k', lo, hi)
  {
    var disk' := Splice(disk, pos, payload);
    forall y | lo <= y < hi
      ensures disk'[y] == if r.off <= y < r.off + k' then r.buf[y - r.off] else base[y]
    {
      if pos <= y < pos + |payload| {
        var i := y - pos;
        assert disk'[y] == payload[i];
      } else {
        assert disk'[y] == disk[y];
      }
    }
  }

  lemma WriteShows(bs: nat, base: Bytes, disk: Bytes, op: Op)
    requires bs > 0 && |disk| == |base| && OpOk(bs, base, disk, op) && op.cmd.Write? && op.phase.InFlight?
    ensures Fits(bs, disk, op.cmd)
    ensures var op' := op.(phase := Answered(Some([])));
            && (op'.req.WriteReq? ==> Progress(bs, op') <= |op'.req.buf|)
            && Shows(DiskAfter(bs, disk, op.cmd), base, op.req, Progress(bs, op'), OpLo(bs, op), OpHi(bs, |base|, op))
  {
    CommandFits(bs, base, op);
    var k' := Progress(bs, op.(phase := Answered(Some([]))));
    SpliceShows(disk, base, op.req, Progress(bs, op), k', op.cmd.blk * bs, op.cmd.payload,
                OpLo(bs, op), OpHi(bs, |base|, op));
  }

  lemma ExecuteOk(bs: nat, base: Bytes, disk: Bytes, op: Op, ok: bool)
    requires bs > 0 && |disk| == |base| && OpOk(bs, base, disk, op) && op.phase.InFlight?
    ensures Fits(bs, disk, op.cmd)
    ensures var disk' := if ok then DiskAfter(bs, disk, op.cmd) else disk;
            var reply := if ok then Some(DataOf(bs, disk, op.cmd)) else None;
            && |disk'| == |disk| && OpOk(bs, base, disk', op.(phase := Answered(reply)))
            && (forall y :: 0 <= y < |disk| && !Own(|base|, op.req, y) ==> disk'[y] == disk[y])
            && (op.req.ReadReq? ==> disk' == disk)
  {
    CommandFits(bs, base, op);
    if ok && op.cmd.Read? { ExecutedRead(bs, base, disk, op); }
    if ok && op.cmd.Write? { ExecutedWrite(bs, base, disk, op); }
  }

  lemma ExecutedRead(bs: nat, base: Bytes, disk: Bytes, op: Op)
    requires bs > 0 && |disk| == |base| && OpOk(bs, base, disk, op) && op.phase.InFlight? && op.cmd.Read?
    ensures Fits(bs, disk, op.cmd)
    ensures OpOk(bs, base, disk, op.(phase := Answered(Some(DataOf(bs, disk, op.cmd)))))
  {
    ReadsBase(bs, base, disk, op);
    assert CommandOk(bs, base, op.(phase := Answered(Some(DataOf(bs, disk, op.cmd)))));
  }

  lemma ExecutedWrite(bs: nat, base: Bytes, disk: Bytes, op: Op)
    requires bs > 0 && |disk| == |base| && OpOk(bs, base, disk, op) && op.phase.InFlight? && op.cmd.Write?
    ensures Fits(bs, disk, op.cmd) && op.req.WriteReq?
    ensures OpOk(bs, base, DiskAfter(bs, disk, op.cmd), op.(phase := Answered(Some([]))))
    ensures forall y :: 0 <= y < |disk| && !Own(|base|, op.req, y) ==> DiskAfter(bs, disk, op.cmd)[y] == disk[y]
  {
    CommandFits(bs, base, op);
    WriteShows(bs, base, disk, op);
    assert CommandOk(bs, base, op.(phase := Answered(Some([]))));
    OutsideOwn(bs, base, disk, op);
  }

  // Of its blocks a write puts back the bytes that are not its own.
  lemma OutsideOwn(bs: nat, base: Bytes, disk: Bytes, op: Op)
    requires bs > 0 && |disk| == |base| && OpOk(bs, base, disk, op) && op.req.WriteReq? && op.cmd.Write?
    requires Fits(bs, disk, op.cmd)
    requires OpLo(bs, op) <= op.cmd.blk * bs && op.cmd.blk * bs + |op.cmd.payload| <= OpHi(bs, |base|, op)
    requires var k := Progress(bs, op.(phase := Answered(Some([]))));
             k <= |op.req.buf| && Shows(DiskAfter(bs, disk, op.cmd), base, op.req, k, OpLo(bs, op), OpHi(bs, |base|, op))
    ensures forall y :: 0 <= y < |disk| && !Own(|base|, op.req, y) ==> DiskAfter(bs, disk, op.cmd)[y] == disk[y]
  {
    var disk' := DiskAfter(bs, disk, op.cmd);
    forall y | 0 <= y < |disk| && !Own(|base|, op.req, y) ensures disk'[y] == disk[y] {
      if OpLo(bs, op) <= y < OpHi(bs, |base|, op) {
        assert disk'[y] == base[y] == disk[y];
      }
    }
  }

  // -------------------------------------------------------------------------
  // The callback
  // -------------------------------------------------------------------------

  lemma ReplyOfStage(bs: nat, base: Bytes, disk: Bytes, op: Op)
    requires bs > 0 && |disk| == |base| && OpOk(bs, base, disk, op) && op.phase.Answered?
    ensures ReplyFits(bs, |base|, op.req, op.stage, op.phase.reply)
  {
    if op.phase.reply.Some? && op.cmd.Read? { ReadInside(bs, base, op); }
  }

  lemma MergedFirstCarries(bs: nat, base: Bytes, r: Request, block: Bytes)
    requires bs > 0 && ValidRequest(|base|, r) && r.WriteReq? && RangeIs(bs, |base|, r) && r.off % bs != 0
    requires End(bs, r.off, |r.buf|) <= |base|
    requires |block| == bs && Start(bs, r.off) + bs <= |base|
    requires block == base[Start(bs, r.off)..Start(bs, r.off) + bs]
    ensures var p, lo := MergedFirst(bs, r.off, r.buf, block), Start(bs, r.off);
            && |p| == bs + Whole(bs, r.off, |r.buf|) * bs && lo + |p| <= |base|
            && Carries(p, lo, base, r, r.off + Full(bs, r.off, |r.buf|))
  {
    var n, lo, h, w := |r.buf|, Start(bs, r.off), Head(bs, r.off, |r.buf|), Whole(bs, r.off, |r.buf|) * bs;
    var p := MergedFirst(bs, r.off, r.buf, block);
    forall i | 0 <= i < |p|
      ensures p[i] == if r.off <= lo + i < r.off + h + w then r.buf[lo + i - r.off] else base[lo + i]
    {
      if i < bs { assert block[i] == base[lo + i]; }
    }
  }

  lemma MergedLastCarries(bs: nat, base: Bytes, r: Request, block: Bytes, pos: nat)
    requires bs > 0 && ValidRequest(|base|, r) && r.WriteReq? && RangeIs(bs, |base|, r)
    requires Full(bs, r.off, |r.buf|) < |r.buf| && pos == r.off + Full(bs, r.off, |r.buf|)
    requires |block| == bs && pos + bs <= |base| && block == base[pos..pos + bs]
    ensures var p := MergedLast(bs, r.off, r.buf, block);
            |p| == bs && Carries(p, pos, base, r, r.off + |r.buf|)
  {
    var delta := (r.off + |r.buf|) % bs;
    var p := MergedLast(bs, r.off, r.buf, block);
    forall i | 0 <= i < bs
      ensures p[i] == if r.off <= pos + i < r.off + |r.buf| then r.buf[pos + i - r.off] else base[pos + i]
    {
      assert block[i] == base[pos + i];
    }
  }

  ghost function NextOp(op: Op, o: Outcome): Op
    requires o.Submit?
  {
    Op(op.req, o.sub.stage, o.sub.cmd, Submitting, o.retval, op.issued)
  }

  // What a write has read is a whole block of the base.
  lemma BlockOfBase(bs: nat, base: Bytes, op: Op)
    requires bs > 0 && ValidRequest(|base|, op.req) && RangeIs(bs, |base|, op.req)
    requires CommandOk(bs, base, op) && ReplyOk(bs, base, op) && op.req.WriteReq? && op.cmd.Read?
    requires op.phase.Answered? && op.phase.reply.Some?
    ensures var pos := op.cmd.blk * bs; pos + bs <= |base| && op.phase.reply.value == base[pos..pos + bs]
  {
    ReadInside(bs, base, op);
  }

  lemma FirstReadContinues(bs: nat, base: Bytes, disk: Bytes, op: Op)
    requires bs > 0 && |disk| == |base| && OpOk(bs, base, disk, op)
    requires op.phase.Answered? && op.phase.reply.Some? && op.stage == FirstRead
    ensures ReplyFits(bs, |base|, op.req, op.stage, op.phase.reply)
    ensures var o := OnReply(bs, |base|, op.req, op.stage, op.retval, op.phase.reply);
            o.Submit? && OpOk(bs, base, disk, NextOp(op, o))
  {
    ReadInside(bs, base, op);
    BlockOfBase(bs, base, op);
    MergedFirstCarries(bs, base, op.req, op.phase.reply.value);
  }

  lemma FullWriteContinues(bs: nat, base: Bytes, disk: Bytes, op: Op)
    requires bs > 0 && |disk| == |base| && OpOk(bs, base, disk, op)
    requires op.phase.Answered? && op.phase.reply.Some? && op.stage == FullWrite
    ensures ReplyFits(bs, |base|, op.req, op.stage, op.phase.reply)
    ensures var o := OnReply(bs, |base|, op.req, op.stage, op.retval, op.phase.reply);
            if o.Submit? then OpOk(bs, base, disk, NextOp(op, o))
            else o.retval == |op.req.buf| == Progress(bs, op) && o.data == []
  {
    assert 1 * bs == bs;
  }

  lemma LastReadContinues(bs: nat, base: Bytes, disk: Bytes, op: Op)
    requires bs > 0 && |disk| == |base| && OpOk(bs, base, disk, op)
    requires op.phase.Answered? && op.phase.reply.Some? && op.stage == LastRead
    ensures ReplyFits(bs, |base|, op.req, op.stage, op.phase.reply)
    ensures var o := OnReply(bs, |base|, op.req, op.stage, op.retval, op.phase.reply);
            o.Submit? && OpOk(bs, base, disk, NextOp(op, o))
  {
    LastWriteOk(bs, base, disk, op);
    LastReadSubmits(bs, |base|, op.req, op.retval, op.phase.reply);
  }

  lemma LastWriteOk(bs: nat, base: Bytes, disk: Bytes, op: Op)
    requires bs > 0 && |disk| == |base| && OpOk(bs, base, disk, op)
    requires op.phase.Answered? && op.phase.reply.Some? && op.stage == LastRead
    ensures ReplyFits(bs, |base|, op.req, op.stage, op.phase.reply)
    ensures var r := op.req;
            && |op.phase.reply.value| == bs && (r.off + |r.buf|) % bs <= |r.buf|
            && var payload := MergedLast(bs, r.off, r.buf, op.phase.reply.value);
               OpOk(bs, base, disk, Op(r, LastWrite, Write(BlockAt(bs, r.off + |r.buf|), payload), Submitting, op.retval, op.issued))
  {
    ReadInside(bs, base, op);
    BlockOfBase(bs, base, op);
    MergedLastCarries(bs, base, op.req, op.phase.reply.value, op.cmd.blk * bs);
  }

  lemma LastReadSubmits(bs: nat, cap: nat, r: Request, retval: int, reply: Option<Bytes>)
    requires bs > 0 && r.WriteReq? && ValidRequest(cap, r) && reply.Some? && ReplyFits(bs, cap, r, LastRead, reply)
    ensures OnReply(bs, cap, r, LastRead, retval, reply)
         == Submit(Submission(LastWrite, Write(BlockAt(bs, r.off + |r.buf|), MergedLast(bs, r.off, r.buf, reply.value))), retval)
  {
  }

  lemma WholeReadFinishes(bs: nat, base: Bytes, disk: Bytes, op: Op)
    requires bs > 0 && |disk| == |base| && OpOk(bs, base, disk, op)
    requires op.phase.Answered? && op.phase.reply.Some? && op.stage == WholeRead
    ensures ReplyFits(bs, |base|, op.req, op.stage, op.phase.reply)
    ensures var o := OnReply(bs, |base|, op.req, op.stage, op.retval, op.phase.reply);
            var n := Size(|base|, op.req);
            o.Finish? && o.retval == n && o.data == base[op.req.off..op.req.off + n]
  {
    ReadInside(bs, base, op);
    var reply, off, resid, n := op.phase.reply.value, op.req.off, op.req.off % bs, Size(|base|, op.req);
    var got, want := reply[resid..resid + n], base[off..off + n];
    forall i | 0 <= i < n ensures got[i] == want[i] {
      assert op.cmd.blk * bs + (resid + i) == off + i;
      assert reply[resid + i] == base[off + i];
    }
  }

  // A finished request: the return value counts exactly the bytes that it has put on the
  // disk, and it falls short of the request exactly when something failed.
  ghost predicate FinishOk(bs: nat, base: Bytes, op: Op, e: Entry)
    requires bs > 0
  {
    && e.req == op.req && EntryOk(base, e)
    && (op.req.WriteReq? ==> Progress(bs, op) == if e.retval < 0 then 0 else e.retval)
  }

  lemma CallbackOk(bs: nat, base: Bytes, disk: Bytes, op: Op, id: Id)
    requires bs > 0 && |disk| == |base| && OpOk(bs, base, disk, op) && op.phase.Answered?
    ensures ReplyFits(bs, |base|, op.req, op.stage, op.phase.reply)
    ensures var o := OnReply(bs, |base|, op.req, op.stage, op.retval, op.phase.reply);
            match o
            case Submit(_, _) => OpOk(bs, base, disk, NextOp(op, o))
            case Finish(retval, data) => FinishOk(bs, base, op, Entry(id, op.req, retval, data, op.phase.reply.None?))
  {
    ReplyOfStage(bs, base, disk, op);
    if op.phase.reply.Some? {
      match op.stage
      case WholeRead => WholeReadFinishes(bs, base, disk, op);
      case FirstRead => FirstReadContinues(bs, base, disk, op);
      case FullWrite => FullWriteContinues(bs, base, disk, op);
      case LastRead => LastReadContinues(bs, base, disk, op);
      case LastWrite =>
    }
  }

  // A command that cannot be submitted ends the request with what was written before.
  lemma RejectOk(bs: nat, base: Bytes, disk: Bytes, op: Op, id: Id)
    requires bs > 0 && |disk| == |base| && OpOk(bs, base, disk, op) && op.phase.Submitting? && op.issued > 0
    ensures FinishOk(bs, base, op, Entry(id, op.req, op.retval, [], true))
  {
  }

  lemma FinishShows(bs: nat, base: Bytes, disk: Bytes, op: Op, e: Entry)
    requires bs > 0 && |disk| == |base| && OpOk(bs, base, disk, op) && FinishOk(bs, base, op, e)
    ensures SameRange(disk, ApplyEntry(base, e), OpLo(bs, op), OpHi(bs, |base|, op))
    ensures forall y :: 0 <= y < |base| && !Own(|base|, op.req, y) ==> ApplyEntry(base, e)[y] == base[y]
    ensures op.req.ReadReq? ==> ApplyEntry(base, e) == base
  {
    var base' := ApplyEntry(base, e);
    forall y | OpLo(bs, op) <= y < OpHi(bs, |base|, op) && y < |base|
      ensures disk[y] == base'[y]
    {
      if op.req.WriteReq? && e.retval > 0 { assert e.req.buf[..e.retval][..] == e.req.buf[..e.retval]; }
    }
  }

  // -------------------------------------------------------------------------
  // The world
  // -------------------------------------------------------------------------

  ghost function Base(w: World, disk0: Bytes): Bytes { Replay(disk0, w.log) }

  ghost predicate SameRequests(w: World, w': World) {
    && w'.bs == w.bs && |w'.disk| == |w.disk| && w'.ops.Keys == w.ops.Keys
    && (forall j :: j in w.ops ==> w'.ops[j].req == w.ops[j].req)
  }

  lemma RequestsUnchanged(w: World, w': World)
    requires RequestsValid(w) && Apart(w) && SameRequests(w, w')
    ensures RequestsValid(w') && Apart(w')
    ensures forall y: nat :: Untouched(w', y) ==> Untouched(w, y)
  {
    forall i, j | i in w'.ops && j in w'.ops && i != j ensures Compatible(w', w'.ops[i].req, w'.ops[j].req) {
      assert Compatible(w, w.ops[i].req, w.ops[j].req);
    }
    forall y: nat | Untouched(w', y) ensures Untouched(w, y) {
      forall j | j in w.ops && w.ops[j].req.WriteReq? ensures !Own(|w.disk|, w.ops[j].req, y) {
        assert w'.ops[j].req.WriteReq?;
      }
    }
  }

  // The disk changes at most in the bytes of request id, and not at all if it only reads.
  ghost predicate ChangesOnly(w: World, disk': Bytes, id: Id)
    requires RequestsValid(w) && id in w.ops
  {
    && |disk'| == |w.disk|
    && (forall y :: 0 <= y < |w.disk| && !Own(|w.disk|, w.ops[id].req, y) ==> disk'[y] == w.disk[y])
    && (w.ops[id].req.ReadReq? ==> disk' == w.disk)
  }

  // What a request depends on is not written by a compatible one.
  lemma NeedsOther(w: World, r: Request, writer: Request)
    requires w.bs > 0 && ValidRequest(|w.disk|, r) && ValidRequest(|w.disk|, writer) && Compatible(w, r, writer)
    ensures writer.WriteReq? ==>
      forall y :: From(w.bs, r) <= y < Upto(w.bs, |w.disk|, r) ==> !Own(|w.disk|, writer, y)
  {
    if writer.WriteReq? { RangeFacts(w.bs, writer.off, |writer.buf|); }
    if r.WriteReq? { RangeFacts(w.bs, r.off, |r.buf|); }
  }

  lemma OthersOk(w: World, base: Bytes, disk': Bytes, id: Id, j: Id)
    requires RequestsValid(w) && Apart(w) && |w.disk| == |base| && id in w.ops && j in w.ops && j != id
    requires ChangesOnly(w, disk', id) && OpOk(w.bs, base, w.disk, w.ops[j])
    ensures OpOk(w.bs, base, disk', w.ops[j])
  {
    NeedsOther(w, w.ops[j].req, w.ops[id].req);
    OpFrame(w.bs, base, base, w.disk, disk', w.ops[j]);
  }

  lemma OutsideUnchanged(w: World, base: Bytes, disk': Bytes, id: Id, w': World)
    requires RequestsValid(w) && Apart(w) && |w.disk| == |base| && id in w.ops
    requires OutsideSame(w, base) && ChangesOnly(w, disk', id)
    requires SameRequests(w, w') && w'.disk == disk'
    ensures RequestsValid(w') && OutsideSame(w', base)
  {
    RequestsUnchanged(w, w');
    forall y | 0 <= y < |w'.disk| && Untouched(w', y) ensures w'.disk[y] == base[y] {
      assert Untouched(w, y);
    }
  }

  lemma OpsInside(w: World, base: Bytes, w': World, id: Id)
    requires RequestsValid(w) && Apart(w) && |w.disk| == |base| && id in w.ops && id in w'.ops
    requires w'.bs == w.bs && w'.ops == w.ops[id := w'.ops[id]] && ChangesOnly(w, w'.disk, id)
    requires OpsOk(w, base) && OpOk(w.bs, base, w'.disk, w'.ops[id])
    ensures OpsOk(w', base)
  {
    forall j | j in w'.ops ensures OpOk(w.bs, base, w'.disk, w'.ops[j]) {
      if j != id {
        assert OpOk(w.bs, base, w.disk, w.ops[j]);
        OthersOk(w, base, w'.disk, id, j);
      }
    }
  }

  lemma IdsInside(w: World, w': World, id: Id)
    requires Ids(w) && id in w.ops && id in w'.ops && w.ops[id].issued <= w'.ops[id].issued
    requires w'.ops == w.ops[id := w'.ops[id]] && w'.known == w.known && w'.log == w.log
    requires w'.accepted == if w'.ops[id].issued > 0 then w.accepted + {id} else w.accepted
    ensures Ids(w')
  {
  }

  // Steps that log nothing: request id becomes op, the disk changes only in its blocks.
  lemma StepInside(w: World, w': World, disk0: Bytes, id: Id)
    requires Inv(w, disk0) && id in w.ops && id in w'.ops
    requires w' == w.(disk := w'.disk, ops := w.ops[id := w'.ops[id]], accepted := w'.accepted)
    requires w'.ops[id].req == w.ops[id].req && ChangesOnly(w, w'.disk, id)
    requires OpOk(w.bs, Base(w, disk0), w'.disk, w'.ops[id])
    requires w'.accepted == if w'.ops[id].issued > 0 then w.accepted + {id} else w.accepted
    requires w.ops[id].issued <= w'.ops[id].issued
    ensures Inv(w', disk0)
  {
    var base := Base(w, disk0);
    OpsInside(w, base, w', id);
    IdsInside(w, w', id);
    RequestsUnchanged(w, w');
    OutsideUnchanged(w, base, w'.disk, id, w');
  }

  lemma AcceptedOk(bs: nat, base: Bytes, disk: Bytes, op: Op)
    requires bs > 0 && |disk| == |base| && OpOk(bs, base, disk, op) && op.phase.Submitting?
    ensures OpOk(bs, base, disk, op.(phase := InFlight, issued := op.issued + 1))
  {
  }

  lemma AcceptKeeps(w: World, disk0: Bytes, id: Id)
    requires Inv(w, disk0) && Enabled(w, Accept(id))
    ensures Inv(ApplyAccept(w, id), disk0)
  {
    AcceptedOk(w.bs, Base(w, disk0), w.disk, w.ops[id]);
    StepInside(w, ApplyAccept(w, id), disk0, id);
  }

  lemma ExecuteKeeps(w: World, disk0: Bytes, id: Id, ok: bool)
    requires Inv(w, disk0) && Enabled(w, Execute(id, ok))
    ensures Fits(w.bs, w.disk, w.ops[id].cmd) && Inv(ApplyExecute(w, id, ok), disk0)
  {
    assert OpOk(w.bs, Base(w, disk0), w.disk, w.ops[id]);
    ExecuteOk(w.bs, Base(w, disk0), w.disk, w.ops[id], ok);
    StepInside(w, ApplyExecute(w, id, ok), disk0, id);
  }

  // -------------------------------------------------------------------------
  // Requests that leave
  // -------------------------------------------------------------------------

  // Without request id, its bytes are like all others.
  lemma OutsideAfter(w: World, base: Bytes, base': Bytes, id: Id, w': World)
    requires RequestsValid(w) && Apart(w) && |w.disk| == |base| == |base'| && id in w.ops
    requires OutsideSame(w, base) && w'.bs == w.bs && w'.disk == w.disk && w'.ops == w.ops - {id}
    requires forall y :: 0 <= y < |base| && Own(|base|, w.ops[id].req, y) ==> w.disk[y] == base'[y]
    requires forall y :: 0 <= y < |base| && !Own(|base|, w.ops[id].req, y) ==> base'[y] == base[y]
    ensures RequestsValid(w') && Apart(w') && OutsideSame(w', base')
  {
    forall i, j | i in w'.ops && j in w'.ops && i != j ensures Compatible(w', w'.ops[i].req, w'.ops[j].req) {
      assert Compatible(w, w.ops[i].req, w.ops[j].req);
    }
    forall y | 0 <= y < |w'.disk| && Untouched(w', y) ensures w'.disk[y] == base'[y] {
      if !Own(|base|, w.ops[id].req, y) {
        forall j | j in w.ops && w.ops[j].req.WriteReq? ensures !Own(|base|, w.ops[j].req, y) {
          if j != id { assert w'.ops[j].req.WriteReq?; }
        }
        assert Untouched(w, y);
      }
    }
  }

  lemma OpsAfter(w: World, base: Bytes, base': Bytes, id: Id, w': World)
    requires RequestsValid(w) && Apart(w) && |w.disk| == |base| == |base'| && id in w.ops
    requires OpsOk(w, base) && w'.bs == w.bs && w'.disk == w.disk && w'.ops == w.ops - {id}
    requires forall y :: 0 <= y < |base| && !Own(|base|, w.ops[id].req, y) ==> base'[y] == base[y]
    requires w.ops[id].req.ReadReq? ==> base' == base
    ensures OpsOk(w', base')
  {
    forall j | j in w'.ops ensures OpOk(w.bs, base', w.disk, w'.ops[j]) {
      assert OpOk(w.bs, base, w.disk, w.ops[j]);
      NeedsOther(w, w.ops[j].req, w.ops[id].req);
      OpFrame(w.bs, base, base', w.disk, w.disk, w.ops[j]);
    }
  }

  lemma IdsAfter(w: World, e: Entry, w': World)
    requires Ids(w) && e.id in w.ops && w.ops[e.id].issued > 0
    requires w'.ops == w.ops - {e.id} && w'.log == w.log + [e]
    requires w'.known == w.known && w'.accepted == w.accepted
    ensures Ids(w')
  {
    forall id | id in w'.accepted && id !in w'.ops
      ensures exists i :: 0 <= i < |w'.log| && w'.log[i].id == id
    {
      if id == e.id {
        assert w'.log[|w.log|].id == id;
      } else {
        var i :| 0 <= i < |w.log| && w.log[i].id == id;
        assert w'.log[i].id == id;
      }
    }
  }

  lemma LogExtended(disk0: Bytes, log: seq<Entry>, e: Entry)
    requires LogOk(disk0, log) && EntryOk(Replay(disk0, log), e)
    ensures LogOk(disk0, log + [e])
    ensures Replay(disk0, log + [e]) == ApplyEntry(Replay(disk0, log), e)
  {
    var log' := log + [e];
    assert log'[..|log|] == log;
    forall i | 0 <= i < |log'| ensures EntryOk(Replay(disk0, log'[..i]), log'[i]) {
      if i < |log| { assert log'[..i] == log[..i]; }
    }
  }

  lemma FinishKeeps(w: World, disk0: Bytes, id: Id, retval: int, data: Bytes, failed: bool)
    requires Inv(w, disk0) && id in w.ops && w.ops[id].issued > 0
    requires FinishOk(w.bs, Base(w, disk0), w.ops[id], Entry(id, w.ops[id].req, retval, data, failed))
    ensures Inv(Finished(w, id, retval, data, failed), disk0)
  {
    var base := Base(w, disk0);
    var e := Entry(id, w.ops[id].req, retval, data, failed);
    var w' := Finished(w, id, retval, data, failed);
    assert OpOk(w.bs, base, w.disk, w.ops[id]);
    FinishShows(w.bs, base, w.disk, w.ops[id], e);
    LogExtended(disk0, w.log, e);
    OutsideAfter(w, base, ApplyEntry(base, e), id, w');
    OpsAfter(w, base, ApplyEntry(base, e), id, w');
    IdsAfter(w, e, w');
  }

  lemma RejectKeeps(w: World, disk0: Bytes, id: Id)
    requires Inv(w, disk0) && Enabled(w, Reject(id))
    ensures Inv(ApplyReject(w, id), disk0)
  {
    var base := Base(w, disk0);
    assert OpOk(w.bs, base, w.disk, w.ops[id]);
    if w.ops[id].issued > 0 {
      RejectOk(w.bs, base, w.disk, w.ops[id], id);
      FinishKeeps(w, disk0, id, w.ops[id].retval, [], true);
    } else {
      var w' := ApplyReject(w, id);
      OutsideAfter(w, base, base, id, w');
      OpsAfter(w, base, base, id, w');
    }
  }

  lemma CallbackKeeps(w: World, disk0: Bytes, id: Id)
    requires Inv(w, disk0) && Enabled(w, Callback(id))
    ensures ReplyFits(w.bs, |w.disk|, w.ops[id].req, w.ops[id].stage, w.ops[id].phase.reply)
    ensures Inv(ApplyCallback(w, id), disk0)
  {
    var base, op := Base(w, disk0), w.ops[id];
    assert OpOk(w.bs, base, w.disk, op);
    CallbackOk(w.bs, base, w.disk, op, id);
    var o := OnReply(w.bs, |w.disk|, op.req, op.stage, op.retval, op.phase.reply);
    if o.Submit? {
      StepInside(w, ApplyCallback(w, id), disk0, id);
    } else {
      FinishKeeps(w, disk0, id, o.retval, o.data, op.phase.reply.None?);
    }
  }

  // Where no outstanding write is, a new request finds the replayed log on the disk.
  lemma LaunchFinds(w: World, disk0: Bytes, id: Id, req: Request)
    requires Inv(w, disk0) && Enabled(w, Launch(id, req))
    ensures SameRange(w.disk, Base(w, disk0), From(w.bs, req), Upto(w.bs, |w.disk|, req))
  {
    var base := Base(w, disk0);
    forall y | From(w.bs, req) <= y < Upto(w.bs, |w.disk|, req) && y < |w.disk| ensures w.disk[y] == base[y] {
      forall j | j in w.ops && w.ops[j].req.WriteReq? ensures !Own(|w.disk|, w.ops[j].req, y) {
        NeedsOther(w, req, w.ops[j].req);
      }
      assert Untouched(w, y);
    }
  }

  lemma LaunchApart(w: World, base: Bytes, id: Id, req: Request)
    requires RequestsValid(w) && Apart(w) && |base| == |w.disk| && OutsideSame(w, base)
    requires Enabled(w, Launch(id, req)) && id !in w.ops
    ensures var w' := ApplyLaunch(w, id, req); RequestsValid(w') && Apart(w') && OutsideSame(w', base)
  {
    var w' := ApplyLaunch(w, id, req);
    forall i, j | i in w'.ops && j in w'.ops && i != j ensures Compatible(w', w'.ops[i].req, w'.ops[j].req) {
      if i != id && j != id { assert Compatible(w, w.ops[i].req, w.ops[j].req); }
    }
    forall y | 0 <= y < |w'.disk| && Untouched(w', y) ensures w'.disk[y] == base[y] {
      forall j | j in w.ops && w.ops[j].req.WriteReq? ensures !Own(|w.disk|, w.ops[j].req, y) {
        assert w'.ops[j] == w.ops[j];
      }
      assert Untouched(w, y);
    }
  }

  lemma LaunchKeeps(w: World, disk0: Bytes, id: Id, req: Request)
    requires Inv(w, disk0) && Enabled(w, Launch(id, req))
    ensures Inv(ApplyLaunch(w, id, req), disk0)
  {
    var base := Base(w, disk0);
    var w' := ApplyLaunch(w, id, req);
    LaunchFinds(w, disk0, id, req);
    LaunchOk(w.bs, w.numBlocks, base, w.disk, req);
    LaunchApart(w, base, id, req);
    LaunchOps(w, base, id, req);
  }

  lemma LaunchOps(w: World, base: Bytes, id: Id, req: Request)
    requires w.bs > 0 && |w.disk| == |base| && OpsOk(w, base) && ValidRequest(|w.disk|, req)
    requires var sub := FirstSubmission(w.bs, |base|, req);
             OpOk(w.bs, base, w.disk, Op(req, sub.stage, sub.cmd, Submitting, -1, 0))
    ensures OpsOk(ApplyLaunch(w, id, req), base)
  {
    var w' := ApplyLaunch(w, id, req);
    forall j | j in w'.ops ensures OpOk(w.bs, base, w.disk, w'.ops[j]) {
      if j != id { assert OpOk(w.bs, base, w.disk, w.ops[j]); }
    }
  }
}
