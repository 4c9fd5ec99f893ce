/**
 Why requests that are outstanding together must not overlap unless both only read, and that
 the rule forbids nothing else than overlaps and writes with a common block.
 */
module OverlappingRequests {
  import opened Common
  import opened Blocks
  import opened AsyncSpec
  import opened AsyncProtocol
  import opened AsyncInvariant
  import opened AsyncCorrectness
  import opened SharedBlocks

  ghost predicate Overlap(cap: nat, a: Request, b: Request) {
    ValidRequest(cap, a) && ValidRequest(cap, b) && exists y :: 0 <= y < cap && Own(cap, a, y) && Own(cap, b, y)
  }

  // What the rule forbids: overlaps, unless both only read, and different bytes of a common
  // block, if both write.
  lemma RuleExactly(w: World, a: Request, b: Request)
    requires w.bs > 0 && ValidRequest(|w.disk|, a) && ValidRequest(|w.disk|, b)
    ensures var cap := |w.disk|;
            !Compatible(w, a, b) <==>
              || (Overlap(cap, a, b) && !(a.ReadReq? && b.ReadReq?))
              || ShareBlock(w.bs, cap, a, b) || ShareBlock(w.bs, cap, b, a)
  {
    var cap := |w.disk|;
    if a.off + Size(cap, a) > b.off && b.off + Size(cap, b) > a.off {
      var y := if a.off <= b.off then b.off else a.off;
      assert Own(cap, a, y) && Own(cap, b, y);
    }
    if a.WriteReq? && b.WriteReq? {
      if a.off + |a.buf| <= b.off || b.off + |b.buf| <= a.off { ForbiddenExactly(w, a, b); } else { BlocksOverlap(w, a, b); }
    }
  }

  lemma BlocksOverlap(w: World, a: Request, b: Request)
    requires w.bs > 0 && a.WriteReq? && b.WriteReq? && ValidRequest(|w.disk|, a) && ValidRequest(|w.disk|, b)
    requires a.off < b.off + |b.buf| && b.off < a.off + |a.buf|
    ensures !Compatible(w, a, b)
  {
    RangeFacts(w.bs, a.off, |a.buf|);
    RangeFacts(w.bs, b.off, |b.buf|);
  }

  // -------------------------------------------------------------------------
  // Two writes
  // -------------------------------------------------------------------------

  // A write goes on until the answer to its last command is there, and its callback has not run.
  lemma {:induction false} RunsToLast(w: World, id: Id, base: Bytes) returns (acts: seq<Action>, w': World)
    requires Working(w, id, base)
    ensures Leads(w, acts, w') && Continues(w, id, base, w') && AtLast(w', id)
    decreases StepsLeft(w.ops[id])
  {
    var op := w.ops[id];
    var w1;
    if op.phase.Answered? {
      CallbackOk(w.bs, base, w.disk, op, id);
      if AtLast(w, id) {
        acts, w' := [], w;
        return;
      }
      w1 := CallsBack(w, id, base, w.disk);
    } else {
      w1 := MovesOn(w, id, base);
    }
    var rest;
    rest, w' := RunsToLast(w1, id, base);
    LeadsFirst(w, NextAction(id, op), rest, w');
    ContinuesOn(w, id, base, w1, w');
    acts := [NextAction(id, op)] + rest;
  }

  ghost predicate AtLast(w: World, id: Id) {
    && w.bs > 0 && id in w.ops && w.ops[id].phase.Answered? && w.ops[id].phase.reply.Some?
    && ValidRequest(|w.disk|, w.ops[id].req)
    && ReplyFits(w.bs, |w.disk|, w.ops[id].req, w.ops[id].stage, w.ops[id].phase.reply)
    && OnReply(w.bs, |w.disk|, w.ops[id].req, w.ops[id].stage, w.ops[id].retval, w.ops[id].phase.reply).Finish?
  }

  // Alone on the disk, a write is there before its last callback has run.
  lemma FirstIsThere(bs: nat, numBlocks: nat, disk: Bytes, a: Request) returns (acts: seq<Action>, w: World)
    requires bs > 0 && |disk| == bs * numBlocks && a.WriteReq? && ValidRequest(|disk|, a)
    ensures Leads(Init(bs, numBlocks, disk), acts, w) && Working(w, 0, disk) && AtLast(w, 0)
    ensures w.bs == bs && w.log == [] && w.known == {0} && w.ops.Keys == {0} && w.ops[0].req == a
    ensures w.disk == Splice(disk, a.off, a.buf)
  {
    var w0 := Init(bs, numBlocks, disk);
    var w1 := ApplyLaunch(w0, 0, a);
    LaunchOk(bs, numBlocks, disk, disk, a);
    var rest;
    rest, w := RunsToLast(w1, 0, disk);
    LeadsFirst(w0, Launch(0, a), rest, w);
    acts := [Launch(0, a)] + rest;
    var w' := CallsBack(w, 0, disk, w.disk);
    CompletedSplices(disk, 0, a);
  }

  // A request that is launched when nobody else is writing on the disk finds it as its base.
  lemma SecondRuns(w: World, numBlocks: nat, id: Id, b: Request) returns (acts: seq<Action>, w': World)
    requires w.bs > 0 && |w.disk| == w.bs * numBlocks && b.WriteReq? && ValidRequest(|w.disk|, b)
    requires id !in w.known && id !in w.ops
    ensures Leads(w, acts, w') && w'.disk == Splice(w.disk, b.off, b.buf)
    ensures w'.bs == w.bs && w'.ops == w.ops && w'.log == w.log + [Completed(id, b)]
  {
    var w1 := ApplyLaunch(w, id, b);
    LaunchOk(w.bs, numBlocks, w.disk, w.disk, b);
    var rest;
    rest, w' := RunsToEnd(w1, id, w.disk);
    LeadsFirst(w, Launch(id, b), rest, w');
    acts := [Launch(id, b)] + rest;
    FinishedOver(w1, id, w.disk, w');
    RangeFacts(w.bs, b.off, |b.buf|);
    assert w1.ops - {id} == w.ops;
  }

  lemma LastCallback(w: World, base: Bytes, seen: Bytes) returns (w': World)
    requires AtLast(w, 0) && w.ops.Keys == {0} && w.ops[0].req.WriteReq? && |base| == |seen| == |w.disk|
    requires OpOk(w.bs, base, seen, w.ops[0])
    ensures Leads(w, [Callback(0)], w') && w'.ops == map[] && w'.disk == w.disk
    ensures w'.log == w.log + [Completed(0, w.ops[0].req)]
  {
    w' := CallsBack(w, 0, base, seen);
    assert w.ops - {0} == map[];
    LeadsFirst(w, Callback(0), [], w');
    assert [Callback(0)] + [] == [Callback(0)];
  }

  // Write a is on the disk first and in the output ring last: nothing fails, both report
  // success, and the disk is the replay exactly when their common bytes are equal.
  lemma OverlappingWrites(bs: nat, numBlocks: nat, disk: Bytes, a: Request, b: Request) returns (acts: seq<Action>, w: World)
    requires bs > 0 && |disk| == bs * numBlocks && a.WriteReq? && b.WriteReq?
    requires ValidRequest(|disk|, a) && ValidRequest(|disk|, b)
    ensures Leads(Init(bs, numBlocks, disk), acts, w) && w.ops == map[]
    ensures w.log == [Completed(1, b), Completed(0, a)]
    ensures w.disk == Replay(disk, w.log) <==> forall y :: Inside(a, y) && Inside(b, y) ==> ByteOf(a, y) == ByteOf(b, y)
  {
    var first, w1 := FirstIsThere(bs, numBlocks, disk, a);
    var second, w2 := SecondRuns(w1, numBlocks, 1, b);
    w := LastCallback(w2, disk, w1.disk);
    LeadsOn(w1, second, w2, [Callback(0)], w);
    LeadsOn(Init(bs, numBlocks, disk), first, w1, second + [Callback(0)], w);
    acts := first + (second + [Callback(0)]);
    OverlapReplayed(disk, a, b);
    OrdersAgree(disk, a, b);
  }

  lemma OverlapReplayed(disk: Bytes, a: Request, b: Request)
    requires a.WriteReq? && b.WriteReq? && ValidRequest(|disk|, a) && ValidRequest(|disk|, b)
    ensures Replay(disk, [Completed(1, b), Completed(0, a)]) == Splice(Splice(disk, b.off, b.buf), a.off, a.buf)
  {
    ReplayTwo(disk, Completed(1, b), Completed(0, a));
    CompletedSplices(disk, 1, b);
    CompletedSplices(Splice(disk, b.off, b.buf), 0, a);
  }

  lemma OrdersAgree(disk: Bytes, a: Request, b: Request)
    requires a.WriteReq? && b.WriteReq? && ValidRequest(|disk|, a) && ValidRequest(|disk|, b)
    ensures Splice(Splice(disk, a.off, a.buf), b.off, b.buf) == Splice(Splice(disk, b.off, b.buf), a.off, a.buf)
       <==> forall y :: Inside(a, y) && Inside(b, y) ==> ByteOf(a, y) == ByteOf(b, y)
  {
    BothSpliced(disk, a, b);
    BothSpliced(disk, b, a);
    var ab, ba := Splice(Splice(disk, a.off, a.buf), b.off, b.buf), Splice(Splice(disk, b.off, b.buf), a.off, a.buf);
    if ab == ba {
      forall y | Inside(a, y) && Inside(b, y) ensures ByteOf(a, y) == ByteOf(b, y) {
        assert ab[y] == ba[y];
      }
    } else {
      var y :| 0 <= y < |ab| && ab[y] != ba[y];
      assert Inside(a, y) && Inside(b, y) && ByteOf(a, y) != ByteOf(b, y);
    }
  }

  // -------------------------------------------------------------------------
  // A read and a write
  // -------------------------------------------------------------------------

  // A read has its data, and its callback has not run.
  lemma ReadIsAnswered(bs: nat, numBlocks: nat, disk: Bytes, r: Request) returns (acts: seq<Action>, w: World)
    requires bs > 0 && |disk| == bs * numBlocks && r.ReadReq? && ValidRequest(|disk|, r)
    ensures Leads(Init(bs, numBlocks, disk), acts, w)
    ensures w.bs == bs && w.disk == disk && w.log == [] && w.known == {0} && w.ops.Keys == {0} && w.ops[0].req == r
    ensures w.ops[0].stage == WholeRead && w.ops[0].phase.Answered? && w.ops[0].phase.reply.Some?
    ensures OpOk(bs, disk, disk, w.ops[0])
  {
    var w0 := Init(bs, numBlocks, disk);
    var w1 := ApplyLaunch(w0, 0, r);
    LaunchOk(bs, numBlocks, disk, disk, r);
    var w2 := ApplyAccept(w1, 0);
    assert OpOk(bs, disk, disk, w2.ops[0]);
    ExecuteOk(bs, disk, disk, w2.ops[0], true);
    w := ApplyExecute(w2, 0, true);
    LeadsFirst(w2, Execute(0, true), [], w);
    LeadsFirst(w1, Accept(0), [Execute(0, true)] + [], w);
    acts := [Accept(0)] + ([Execute(0, true)] + []);
    LeadsFirst(w0, Launch(0, r), acts, w);
    acts := [Launch(0, r)] + acts;
  }

  // The read is executed before the write and in the output ring after it: nothing fails, and
  // its data are what the completions before it have left exactly when the write has not
  // changed its bytes.
  lemma ReadOverWrite(bs: nat, numBlocks: nat, disk: Bytes, r: Request, b: Request) returns (acts: seq<Action>, w: World)
    requires bs > 0 && |disk| == bs * numBlocks && r.ReadReq? && b.WriteReq?
    requires ValidRequest(|disk|, r) && ValidRequest(|disk|, b)
    ensures Leads(Init(bs, numBlocks, disk), acts, w) && w.ops == map[] && |w.log| == 2
    ensures w.log[0] == Completed(1, b) && w.log[1].id == 0 && w.log[1].req == r && !w.log[1].failed
    ensures EntryOk(Replay(disk, w.log[..1]), w.log[1]) <==>
      forall y :: Own(|disk|, r, y) && Inside(b, y) ==> ByteOf(b, y) == disk[y]
  {
    var first, w1 := ReadIsAnswered(bs, numBlocks, disk, r);
    var second, w2 := SecondRuns(w1, numBlocks, 1, b);
    WholeReadFinishes(bs, disk, disk, w2.ops[0]);
    w := ApplyCallback(w2, 0);
    assert w2.ops - {0} == map[];
    LeadsFirst(w2, Callback(0), [], w);
    LeadsOn(w1, second, w2, [Callback(0)] + [], w);
    LeadsOn(Init(bs, numBlocks, disk), first, w1, second + ([Callback(0)] + []), w);
    acts := first + (second + ([Callback(0)] + []));
    assert w.log[..1] == [Completed(1, b)];
    LateRead(disk, r, b, w.log[1]);
  }

  lemma LateRead(disk: Bytes, r: Request, b: Request, e: Entry)
    requires r.ReadReq? && b.WriteReq? && ValidRequest(|disk|, r) && ValidRequest(|disk|, b)
    requires e == Entry(0, r, Size(|disk|, r), disk[r.off..r.off + Size(|disk|, r)], false)
    ensures EntryOk(Replay(disk, [Completed(1, b)]), e) <==>
      forall y :: Own(|disk|, r, y) && Inside(b, y) ==> ByteOf(b, y) == disk[y]
  {
    ReplayOne(disk, b);
    LateEntry(disk, Splice(disk, b.off, b.buf), r, e);
    SliceKept(disk, r, b);
  }

  lemma ReplayOne(disk: Bytes, b: Request)
    requires b.WriteReq? && ValidRequest(|disk|, b)
    ensures Replay(disk, [Completed(1, b)]) == Splice(disk, b.off, b.buf)
  {
    CompletedSplices(disk, 1, b);
    assert [Completed(1, b)][..0] == [];
  }

  lemma LateEntry(disk: Bytes, disk': Bytes, r: Request, e: Entry)
    requires r.ReadReq? && ValidRequest(|disk|, r) && |disk'| == |disk|
    requires e == Entry(0, r, Size(|disk|, r), disk[r.off..r.off + Size(|disk|, r)], false)
    ensures var n := Size(|disk|, r); EntryOk(disk', e) <==> disk[r.off..r.off + n] == disk'[r.off..r.off + n]
  {
  }

  lemma SliceKept(disk: Bytes, r: Request, b: Request)
    requires r.ReadReq? && b.WriteReq? && ValidRequest(|disk|, r) && ValidRequest(|disk|, b)
    ensures var n, disk' := Size(|disk|, r), Splice(disk, b.off, b.buf);
            disk[r.off..r.off + n] == disk'[r.off..r.off + n] <==>
              forall y :: Own(|disk|, r, y) && Inside(b, y) ==> ByteOf(b, y) == disk[y]
  {
    var n, disk' := Size(|disk|, r), Splice(disk, b.off, b.buf);
    var x, x' := disk[r.off..r.off + n], disk'[r.off..r.off + n];
    if x == x' {
      forall y | Own(|disk|, r, y) && Inside(b, y) ensures ByteOf(b, y) == disk[y] {
        assert x[y - r.off] == x'[y - r.off];
      }
    } else {
      var i :| 0 <= i < n && x[i] != x'[i];
      assert Own(|disk|, r, r.off + i) && disk'[r.off + i] != disk[r.off + i];
    }
  }
}
