/** What every run of the asynchronous interface guarantees. */
module AsyncCorrectness {
  import opened Common
  import opened Blocks
  import opened AsyncSpec
  import opened AsyncProtocol
  import opened AsyncInvariant

  lemma StepDefined(w: World, disk0: Bytes, a: Action)
    requires Inv(w, disk0) && Enabled(w, a)
    ensures a.Execute? ==> Fits(w.bs, w.disk, w.ops[a.id].cmd)
    ensures a.Callback? ==>
      && ValidRequest(|w.disk|, w.ops[a.id].req)
      && ReplyFits(w.bs, |w.disk|, w.ops[a.id].req, w.ops[a.id].stage, w.ops[a.id].phase.reply)
  {
    match a
    case Execute(id, ok) => ExecuteKeeps(w, disk0, id, ok);
    case Callback(id) => CallbackKeeps(w, disk0, id);
    case _ =>
  }

  ghost function Apply(w: World, disk0: Bytes, a: Action): World
    requires Inv(w, disk0) && Enabled(w, a)
  {
    StepDefined(w, disk0, a);
    match a
    case Launch(id, req) => ApplyLaunch(w, id, req)
    case Accept(id) => ApplyAccept(w, id)
    case Reject(id) => ApplyReject(w, id)
    case Execute(id, ok) => ApplyExecute(w, id, ok)
    case Callback(id) => ApplyCallback(w, id)
  }

  lemma ApplyIs(w: World, disk0: Bytes, a: Action)
    requires Inv(w, disk0) && Enabled(w, a)
    ensures a.Launch? ==> Apply(w, disk0, a) == ApplyLaunch(w, a.id, a.req)
    ensures a.Accept? ==> Apply(w, disk0, a) == ApplyAccept(w, a.id)
    ensures a.Reject? ==> Apply(w, disk0, a) == ApplyReject(w, a.id)
    ensures a.Execute? ==> Fits(w.bs, w.disk, w.ops[a.id].cmd) && Apply(w, disk0, a) == ApplyExecute(w, a.id, a.ok)
    ensures a.Callback? ==>
      && ValidRequest(|w.disk|, w.ops[a.id].req)
      && ReplyFits(w.bs, |w.disk|, w.ops[a.id].req, w.ops[a.id].stage, w.ops[a.id].phase.reply)
      && Apply(w, disk0, a) == ApplyCallback(w, a.id)
  {
    StepDefined(w, disk0, a);
  }

  lemma StepSizes(w: World, disk0: Bytes, a: Action)
    requires Inv(w, disk0) && Enabled(w, a)
    ensures var w' := Apply(w, disk0, a); w'.bs == w.bs && w'.numBlocks == w.numBlocks && |w'.disk| == |w.disk|
  {
  }

  lemma StepKeeps(w: World, disk0: Bytes, a: Action)
    requires Inv(w, disk0) && Enabled(w, a)
    ensures Inv(Apply(w, disk0, a), disk0)
  {
    match a
    case Launch(id, req) => LaunchKeeps(w, disk0, id, req);
    case Accept(id) => AcceptKeeps(w, disk0, id);
    case Reject(id) => RejectKeeps(w, disk0, id);
    case Execute(id, ok) => ExecuteKeeps(w, disk0, id, ok);
    case Callback(id) => CallbackKeeps(w, disk0, id);
  }

  function Init(bs: nat, numBlocks: nat, disk: Bytes): World {
    World(bs, numBlocks, disk, map[], [], {}, {})
  }

  lemma InitInv(bs: nat, numBlocks: nat, disk: Bytes)
    requires bs > 0 && |disk| == bs * numBlocks
    ensures Inv(Init(bs, numBlocks, disk), disk)
  {
  }

  datatype Run = Run(states: seq<World>, acts: seq<Action>) {
    ghost function Last(): World
      requires states != []
    {
      states[|states| - 1]
    }
  }

  // The effect of an action is defined where the invariant holds, which is everywhere
  // (RunKeepsInv).
  ghost predicate Step(w: World, disk0: Bytes, a: Action, w': World) {
    Enabled(w, a) && (Inv(w, disk0) ==> w' == Apply(w, disk0, a))
  }

  ghost predicate StepOf(r: Run, disk0: Bytes, i: nat)
    requires |r.states| == |r.acts| + 1 && i < |r.acts|
  {
    Step(r.states[i], disk0, r.acts[i], r.states[i + 1])
  }

  // A run of a device of numBlocks blocks of bs bytes that starts with the given contents.
  ghost predicate IsRun(r: Run, bs: nat, numBlocks: nat, disk: Bytes) {
    && bs > 0 && |disk| == bs * numBlocks
    && |r.states| == |r.acts| + 1 && r.states[0] == Init(bs, numBlocks, disk)
    && forall i {:trigger StepOf(r, disk, i)} :: 0 <= i < |r.acts| ==> StepOf(r, disk, i)
  }

  lemma {:induction false} RunKeepsInv(r: Run, bs: nat, numBlocks: nat, disk: Bytes, k: nat)
    requires IsRun(r, bs, numBlocks, disk) && k <= |r.acts|
    ensures Inv(r.states[k], disk)
  {
    if k == 0 {
      InitInv(bs, numBlocks, disk);
    } else {
      RunKeepsInv(r, bs, numBlocks, disk, k - 1);
      assert StepOf(r, disk, k - 1);
      StepKeeps(r.states[k - 1], disk, r.acts[k - 1]);
    }
  }

  // Every enabled action continues every run: the invariant never stands in the way.
  lemma RunExtended(r: Run, bs: nat, numBlocks: nat, disk: Bytes, a: Action)
    requires IsRun(r, bs, numBlocks, disk) && Enabled(r.Last(), a)
    ensures Inv(r.Last(), disk) && Inv(Apply(r.Last(), disk, a), disk)
    ensures IsRun(Run(r.states + [Apply(r.Last(), disk, a)], r.acts + [a]), bs, numBlocks, disk)
  {
    RunKeepsInv(r, bs, numBlocks, disk, |r.acts|);
    StepKeeps(r.Last(), disk, a);
    StepAppended(r, bs, numBlocks, disk, a, Apply(r.Last(), disk, a));
  }

  lemma StepAppended(r: Run, bs: nat, numBlocks: nat, disk: Bytes, a: Action, w': World)
    requires IsRun(r, bs, numBlocks, disk) && Step(r.Last(), disk, a, w')
    ensures IsRun(Run(r.states + [w'], r.acts + [a]), bs, numBlocks, disk)
  {
    var r' := Run(r.states + [w'], r.acts + [a]);
    forall i | 0 <= i < |r'.acts| ensures StepOf(r', disk, i) {
      if i < |r.acts| { assert StepOf(r, disk, i); }
    }
  }

  // -------------------------------------------------------------------------
  // Main results
  // -------------------------------------------------------------------------

  // However commands and callbacks interleave and whatever fails: when no request is
  // outstanding, the disk is what the completions, replayed one after another as plain
  // byte writes in the order of the output ring, would have left; and every completion
  // returned what that sequential execution returns.
  lemma Serializable(r: Run, bs: nat, numBlocks: nat, disk: Bytes)
    requires IsRun(r, bs, numBlocks, disk)
    ensures var w := r.Last();
            && (w.ops == map[] ==> w.disk == Replay(disk, w.log))
            && LogOk(disk, w.log)
  {
    RunKeepsInv(r, bs, numBlocks, disk, |r.acts|);
    QuietDisk(r.Last(), disk);
  }

  lemma QuietDisk(w: World, disk0: Bytes)
    requires Inv(w, disk0)
    ensures w.ops == map[] ==> w.disk == Replay(disk0, w.log)
  {
    if w.ops == map[] {
      forall y | 0 <= y < |w.disk| ensures w.disk[y] == Replay(disk0, w.log)[y] {
        assert Untouched(w, y);
      }
    }
  }

  // One request on its own, any failures: r >= 0 means exactly the first r bytes were
  // written, -1 means the disk is as before, and without a failure r is the full length.
  lemma WriteOutcome(w: World, disk0: Bytes, id: Id, off: nat, buf: Bytes)
    requires Inv(w, disk0) && w.ops == map[] && |w.log| == 1
    requires w.log[0].req == WriteReq(off, buf)
    ensures var r := w.log[0].retval;
            && (r == -1 ==> w.disk == disk0)
            && (r != -1 ==> 0 < r <= |buf| && off + r <= |disk0| && w.disk == Splice(disk0, off, buf[..r]))
            && (w.log[0].failed <==> r != |buf|)
  {
    var e := w.log[0];
    assert w.log[..0] == [] && w.log == [] + [e];
    assert EntryOk(Replay(disk0, w.log[..0]), e);
    QuietDisk(w, disk0);
    assert w.disk == ApplyEntry(disk0, e);
  }

  // Every accepted request is either outstanding or in the output ring, there exactly
  // once; refused requests never get there.
  lemma CompletedExactlyOnce(r: Run, bs: nat, numBlocks: nat, disk: Bytes, id: Id)
    requires IsRun(r, bs, numBlocks, disk)
    ensures var w := r.Last();
            && Completions(w.log, id) == (if id in w.accepted && id !in w.ops then 1 else 0)
            && (id in w.ops ==> (id in w.accepted <==> w.ops[id].issued > 0))
  {
    RunKeepsInv(r, bs, numBlocks, disk, |r.acts|);
    CompletionsCounted(r.Last().log, id);
  }

  // How often a request is in the output ring.
  function Completions(log: seq<Entry>, id: Id): nat {
    if log == [] then 0
    else Completions(log[..|log| - 1], id) + if log[|log| - 1].id == id then 1 else 0
  }

  lemma {:induction false} CompletionsCounted(log: seq<Entry>, id: Id)
    requires forall i, j :: 0 <= i < j < |log| ==> log[i].id != log[j].id
    ensures Completions(log, id) == if exists i :: 0 <= i < |log| && log[i].id == id then 1 else 0
  {
    if log != [] {
      CompletionsCounted(log[..|log| - 1], id);
      if log[|log| - 1].id != id {
        if i :| 0 <= i < |log| && log[i].id == id { assert log[..|log| - 1][i].id == id; }
      }
    }
  }

  // Steps that request `op` can still take: three for each command it may yet issue.
  function StepsLeft(op: Op): nat {
    3 * (4 - Rank(op.stage)) + match op.phase case Submitting => 3 case InFlight => 2 case Answered(_) => 1
  }

  // Requests cannot go on for ever: at most four commands each, and every step of a
  // request brings it closer to its end.
  lemma Progresses(w: World, disk0: Bytes, a: Action)
    requires Inv(w, disk0) && Enabled(w, a) && !a.Launch?
    ensures var w' := Apply(w, disk0, a);
            a.id in w'.ops ==>
              && StepsLeft(w'.ops[a.id]) < StepsLeft(w.ops[a.id])
              && w'.ops[a.id].issued <= 4
    ensures OthersUntouched(w, Apply(w, disk0, a), a.id)
  {
    StepDefined(w, disk0, a);
    assert OpOk(w.bs, Base(w, disk0), w.disk, w.ops[a.id]);
    if a.Callback? { CallbackProgresses(w, disk0, a.id); }
  }

  lemma CallbackProgresses(w: World, disk0: Bytes, id: Id)
    requires Inv(w, disk0) && Enabled(w, Callback(id))
    requires ReplyFits(w.bs, |w.disk|, w.ops[id].req, w.ops[id].stage, w.ops[id].phase.reply)
    ensures var w' := ApplyCallback(w, id);
            && (id in w'.ops ==> StepsLeft(w'.ops[id]) < StepsLeft(w.ops[id]) && w'.ops[id].issued == w.ops[id].issued)
            && OthersUntouched(w, w', id)
  {
    var op := w.ops[id];
    StageAdvances(w.bs, |w.disk|, op.req, op.stage, op.retval, op.phase.reply);
  }

  ghost predicate OthersUntouched(w: World, w': World, id: Id) {
    && (forall j :: j != id ==> (j in w'.ops <==> j in w.ops))
    && (forall j :: j != id && j in w.ops ==> w'.ops[j] == w.ops[j])
  }

  lemma StageAdvances(bs: nat, cap: nat, r: Request, stage: Stage, retval: int, reply: Option<Bytes>)
    requires bs > 0 && Startable(cap, r) && ReplyFits(bs, cap, r, stage, reply)
    ensures var o := OnReply(bs, cap, r, stage, retval, reply);
            o.Submit? ==> Rank(stage) < Rank(o.sub.stage) <= 4
  {
  }

  // -------------------------------------------------------------------------
  // The order of disjoint writes does not matter
  // -------------------------------------------------------------------------

  ghost predicate Covers(disk: Bytes, e: Entry, y: nat) {
    && e.req.WriteReq? && 0 < e.retval <= |e.req.buf| && e.req.off + e.retval <= |disk|
    && e.req.off <= y < e.req.off + e.retval
  }

  ghost predicate WritesDisjoint(disk: Bytes, log: seq<Entry>) {
    forall i, j, y: nat :: 0 <= i < j < |log| && Covers(disk, log[i], y) ==> !Covers(disk, log[j], y)
  }

  lemma {:induction false} ReplayedByte(disk: Bytes, log: seq<Entry>, y: nat)
    requires WritesDisjoint(disk, log) && y < |disk|
    ensures forall i :: 0 <= i < |log| && Covers(disk, log[i], y) ==>
              Replay(disk, log)[y] == log[i].req.buf[y - log[i].req.off]
    ensures (forall i :: 0 <= i < |log| ==> !Covers(disk, log[i], y)) ==> Replay(disk, log)[y] == disk[y]
  {
    if log != [] {
      var init, e := log[..|log| - 1], log[|log| - 1];
      assert forall i :: 0 <= i < |init| ==> init[i] == log[i];
      ReplayedByte(disk, init, y);
      ByteOfEntry(Replay(disk, init), e, y);
      assert Covers(Replay(disk, init), e, y) == Covers(disk, e, y);
      forall i | 0 <= i < |log| && Covers(disk, log[i], y)
        ensures Replay(disk, log)[y] == log[i].req.buf[y - log[i].req.off]
      {
        if i < |init| { assert Covers(disk, init[i], y) && !Covers(disk, e, y); }
      }
    }
  }

  lemma ByteOfEntry(disk: Bytes, e: Entry, y: nat)
    requires y < |disk|
    ensures ApplyEntry(disk, e)[y] == if Covers(disk, e, y) then e.req.buf[y - e.req.off] else disk[y]
  {
    if Covers(disk, e, y) { assert e.req.buf[..e.retval][y - e.req.off] == e.req.buf[y - e.req.off]; }
  }

  lemma ByteAgrees(disk: Bytes, a: seq<Entry>, b: seq<Entry>, y: nat)
    requires WritesDisjoint(disk, a) && WritesDisjoint(disk, b) && y < |disk|
    requires forall e :: e in a <==> e in b
    ensures Replay(disk, a)[y] == Replay(disk, b)[y]
  {
    ReplayedByte(disk, a, y);
    ReplayedByte(disk, b, y);
    if e :| e in a && Covers(disk, e, y) {
      var i :| 0 <= i < |a| && a[i] == e;
      var j :| 0 <= j < |b| && b[j] == e;
    } else {
      assert forall i :: 0 <= i < |a| ==> a[i] in a;
      assert forall j :: 0 <= j < |b| ==> b[j] in a;
    }
  }

  lemma OrderIrrelevant(disk: Bytes, a: seq<Entry>, b: seq<Entry>)
    requires WritesDisjoint(disk, a) && WritesDisjoint(disk, b)
    requires forall e :: e in a <==> e in b
    ensures Replay(disk, a) == Replay(disk, b)
  {
    forall y | 0 <= y < |disk| ensures Replay(disk, a)[y] == Replay(disk, b)[y] {
      ByteAgrees(disk, a, b, y);
    }
  }
}
