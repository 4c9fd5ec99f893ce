/**
 Asynchronous requests travelling through the virtqueue: the ring, the disk and the
 callbacks as one system.  A step of the ring that accepts, refuses, completes or returns
 a task is at the same time the step of the request that the task works for; every
 other step of the ring leaves all requests alone.
 */
module AsyncOverRing {
  import opened Common
  import opened Blocks
  import R = VringProtocol
  import RR = VringRefinement
  import RP = VringProperties
  import S = AsyncSpec
  import W = AsyncProtocol
  import A = AsyncCorrectness
  import Cdb

  type Binding = map<R.Task, W.Id>  // the request that each task on the ring works for

  type Memory = map<nat, Bytes>     // what the host buffers hold, by address

  datatype Joint = Joint(ring: R.Sys, world: W.World, bound: Binding, memory: Memory)

  datatype Action =
    | Launch(id: W.Id, req: S.Request)
    | GiveUp(id: W.Id)                              // no memory for the task
    | Submit(p: R.Pid, id: W.Id, task: R.Task, filled: Memory)        // the buffers are filled, vring_put_task is called
    | Drive(step: R.Action)                                           // any other step of driver or device
    | Serve(head: nat, len: nat, ok: bool, written: Memory)           // the device completes a command

  function DataSize(vbufs: seq<R.Buffer>): nat {
    if vbufs == [] then 0 else DataSize(vbufs[..|vbufs| - 1]) + vbufs[|vbufs| - 1].size
  }

  // What every task builder provides: the request, the answer and the data of the command,
  // the buffers that the device writes after those that it reads.
  ghost predicate TaskFor(bs: nat, t: R.Task, c: Command) {
    && 2 <= |t.vbufs| && !t.vbufs[0].response && t.vbufs[|t.vbufs| - 1].response
    && (forall i, j :: 0 <= i < j < |t.vbufs| && t.vbufs[i].response ==> t.vbufs[j].response)
    && (if c.Read? then t.vbufs[1].response && DataSize(t.vbufs[2..]) == Length(bs, c)
        else DataSize(t.vbufs[1..|t.vbufs| - 1]) == Length(bs, c))
  }

  // -------------------------------------------------------------------------
  // What the device finds in memory
  // -------------------------------------------------------------------------

  // A buffer as a descriptor tells of it.
  datatype View = View(addr: nat, len: nat, write: bool)

  ghost function Views(t: R.Task): (r: seq<View>)
    ensures |r| == |t.vbufs|
  {
    seq(|t.vbufs|, k requires 0 <= k < |t.vbufs| =>
      View(t.vbufs[k].addr, t.vbufs[k].size % R.LENGTH_SPAN, t.vbufs[k].response))
  }

  // The buffers that the device reaches from a head, along the descriptors.
  ghost function ChainViews(ring: R.Ring, head: nat): seq<View> {
    var chain := RP.Follow(ring.desc, head, ring.num);
    seq(|chain|, k requires 0 <= k < |chain| =>
      if chain[k] < |ring.desc| then View(ring.desc[chain[k]].addr, ring.desc[chain[k]].len, ring.desc[chain[k]].write)
      else View(0, 0, false))
  }

  function Fetch(memory: Memory, v: View): Bytes {
    if v.addr in memory && v.len <= |memory[v.addr]| then memory[v.addr][..v.len] else []
  }

  // The bytes of the leading buffers that the device reads.
  function Payload(memory: Memory, views: seq<View>): Bytes {
    if views == [] || views[0].write then [] else Fetch(memory, views[0]) + Payload(memory, views[1..])
  }

  // The command in the first buffer, with the data of the other readable ones.
  function Decoded(bs: nat, memory: Memory, views: seq<View>): Option<Command> {
    if views == [] || views[0].write then None
    else
      match Cdb.CommandOf(Fetch(memory, views[0]))
      case None => None
      case Some(cdb) =>
        var payload := Payload(memory, views[1..]);
        if !cdb.write then Some(Read(cdb.blk, cdb.count))
        else if |payload| == cdb.count * bs then Some(Write(cdb.blk, payload))
        else None
  }

  ghost function Addrs(views: seq<View>, write: bool): set<nat> {
    set k | 0 <= k < |views| && views[k].write == write :: views[k].addr
  }

  // Two memories that agree on what the device reads tell the same.
  lemma {:induction false} SamePayload(m: Memory, m': Memory, views: seq<View>)
    requires forall k :: 0 <= k < |views| && !views[k].write ==> Fetch(m, views[k]) == Fetch(m', views[k])
    ensures Payload(m, views) == Payload(m', views)
  {
    if views != [] && !views[0].write {
      assert forall k :: 0 <= k < |views[1..]| ==> views[1..][k] == views[k + 1];
      SamePayload(m, m', views[1..]);
    }
  }

  lemma SameDecoded(bs: nat, m: Memory, changed: Memory, views: seq<View>)
    requires changed.Keys !! Addrs(views, false)
    ensures Decoded(bs, m + changed, views) == Decoded(bs, m, views)
  {
    forall k | 0 <= k < |views| && !views[k].write ensures Fetch(m + changed, views[k]) == Fetch(m, views[k]) {
      assert views[k].addr in Addrs(views, false);
    }
    if views != [] {
      assert forall k :: 0 <= k < |views[1..]| ==> views[1..][k] == views[k + 1];
      SamePayload(m + changed, m, views[1..]);
    }
  }

  // Nothing that the device writes for t is read for u.
  ghost predicate Apart(t: R.Task, u: R.Task) {
    Addrs(Views(t), true) !! Addrs(Views(u), false)
  }

  // Memory tells the device the command of the request that each task works for.
  ghost predicate Told(memory: Memory, bound: Binding, bs: nat, ops: map<W.Id, W.Op>) {
    forall k {:trigger Ask(Topic.Buffers, k)} :: Ask(Topic.Buffers, k) ==>
      && (forall t :: t in bound ==> bound[t] in ops && Decoded(bs, memory, Views(t)) == Some(ops[bound[t]].cmd))
      && (forall t, u :: t in bound && u in bound ==> Apart(t, u))
  }

  // Filling buffers for a new task tells its command and leaves alone what is in use.
  ghost predicate MayFill(j: Joint, t: R.Task, cmd: Command, filled: Memory) {
    forall k {:trigger Ask(Topic.Buffers, k)} :: Ask(Topic.Buffers, k) ==>
      && Decoded(j.world.bs, j.memory + filled, Views(t)) == Some(cmd)
      && Apart(t, t) && (forall u :: u in j.bound ==> Apart(t, u) && Apart(u, t))
      && (forall u :: u in j.bound ==> filled.Keys !! Addrs(Views(u), false))
  }

  // The device writes where the descriptors of the chain allow it.
  ghost predicate MayWrite(j: Joint, h: nat, written: Memory) {
    forall k {:trigger Ask(Topic.Buffers, k)} :: Ask(Topic.Buffers, k) ==>
      written.Keys <= Addrs(ChainViews(j.ring.ring, h), true)
  }

  ghost predicate Free(bound: Binding, id: W.Id) {
    forall t :: t in bound ==> bound[t] != id
  }

  ghost predicate Enabled(j: Joint, a: Action) {
    match a
    case Launch(id, req) => W.Enabled(j.world, W.Launch(id, req))
    case GiveUp(id) => W.Enabled(j.world, W.Reject(id)) && Free(j.bound, id)
    case Submit(p, id, t, filled) =>
      && R.Enabled(j.ring, R.Begin(p, t))
      && id in j.world.ops && j.world.ops[id].phase.Submitting? && Free(j.bound, id)
      && TaskFor(j.world.bs, t, j.world.ops[id].cmd) && MayFill(j, t, j.world.ops[id].cmd, filled)
    case Drive(step) => (step.Put? || step.Get? || step.Take?) && R.Enabled(j.ring, step)
    case Serve(h, len, ok, written) =>
      R.Enabled(j.ring, R.Complete(h, len)) && MayWrite(j, h, written)
  }

  // -------------------------------------------------------------------------
  // The invariant
  // -------------------------------------------------------------------------

  // A task is being put, pending or completed exactly when its request is.
  ghost predicate InStep(f: RR.Flight, t: R.Task, op: W.Op) {
    match op.phase
    case Submitting => t in f.building
    case InFlight => t in f.inFlight && f.inFlight[t] == None
    case Answered(_) => t in f.inFlight && f.inFlight[t].Some?
  }

  ghost predicate Linked(f: RR.Flight, bound: Binding, bs: nat, ops: map<W.Id, W.Op>) {
    && bound.Keys == f.building + f.inFlight.Keys && f.building !! f.inFlight.Keys
    && (forall t :: t in bound ==>
          && bound[t] in ops && InStep(f, t, ops[bound[t]]) && TaskFor(bs, t, ops[bound[t]].cmd))
    && (forall t, u :: t in bound && u in bound && t != u ==> bound[t] != bound[u])
    && (forall id :: id in ops && Free(bound, id) ==> ops[id].phase.Submitting?)
  }

  ghost predicate Inv(j: Joint, disk0: Bytes) {
    && R.Inv(j.ring) && W.Inv(j.world, disk0)
    && Linked(RR.FlightOf(j.ring.own), j.bound, j.world.bs, j.world.ops)
    && Told(j.memory, j.bound, j.world.bs, j.world.ops)
  }

  // -------------------------------------------------------------------------
  // Steps
  // -------------------------------------------------------------------------

  ghost function RingStep(a: Action): Option<R.Action> {
    match a
    case Launch(_, _) => None
    case GiveUp(_) => None
    case Submit(p, _, t, _) => Some(R.Begin(p, t))
    case Drive(step) => Some(step)
    case Serve(h, len, _, _) => Some(R.Complete(h, len))
  }

  // The step of a request that goes with a step of the ring.
  ghost function RequestStep(bound: Binding, l: RR.Label, ok: bool): Option<W.Action> {
    match l
    case Silent => None
    case Started(_) => None
    case Accepted(t) => if t in bound then Some(W.Accept(bound[t])) else None
    case Rejected(t) => if t in bound then Some(W.Reject(bound[t])) else None
    case Completed(t, _) => if t in bound then Some(W.Execute(bound[t], ok)) else None
    case Returned(t, _) => if t in bound then Some(W.Callback(bound[t])) else None
  }

  ghost function WorldStep(j: Joint, a: Action): Option<W.Action>
    requires R.Inv(j.ring) && Enabled(j, a)
  {
    match a
    case Launch(id, req) => Some(W.Launch(id, req))
    case GiveUp(id) => Some(W.Reject(id))
    case Submit(_, _, _, _) => None
    case Drive(step) => RequestStep(j.bound, RR.LabelOf(j.ring, step), true)
    case Serve(h, len, ok, _) => RequestStep(j.bound, RR.LabelOf(j.ring, R.Complete(h, len)), ok)
  }

  ghost function Rebound(j: Joint, a: Action): Binding
    requires R.Inv(j.ring) && Enabled(j, a)
  {
    match a
    case Submit(_, id, t, _) => j.bound[t := id]
    case Drive(step) =>
      var l := RR.LabelOf(j.ring, step);
      if l.Rejected? || l.Returned? then j.bound - {l.task} else j.bound
    case _ => j.bound
  }

  ghost function Rewritten(j: Joint, a: Action): Memory {
    match a
    case Submit(_, _, _, filled) => j.memory + filled
    case Serve(_, _, _, written) => j.memory + written
    case _ => j.memory
  }

  // -------------------------------------------------------------------------
  // Every step keeps ring and requests in step with each other
  // -------------------------------------------------------------------------

  lemma StartedLinks(f: RR.Flight, f': RR.Flight, bound: Binding, bs: nat, ops: map<W.Id, W.Op>, t: R.Task, id: W.Id)
    requires Linked(f, bound, bs, ops) && RR.FlightStep(f, RR.Started(t), f')
    requires id in ops && ops[id].phase.Submitting? && Free(bound, id) && TaskFor(bs, t, ops[id].cmd)
    ensures Linked(f', bound[t := id], bs, ops)
  {
    var bound' := bound[t := id];
    forall i | i in ops && Free(bound', i) ensures ops[i].phase.Submitting? {
      forall u | u in bound ensures bound[u] != i { assert bound'[u] == bound[u]; }
    }
    assert bound'.Keys == bound.Keys + {t};
    forall u | u in bound' ensures InStep(f', u, ops[bound'[u]]) {
      if u != t { assert u in bound && InStep(f, u, ops[bound[u]]); }
    }
  }

  // Request id moves on while its task stays on the ring.
  ghost predicate Moved(ops: map<W.Id, W.Op>, ops': map<W.Id, W.Op>, id: W.Id) {
    && id in ops && id in ops' && ops' == ops[id := ops'[id]] && ops'[id].cmd == ops[id].cmd
  }

  // The task of request id leaves the ring; the request goes on or is over.
  ghost predicate Left(ops: map<W.Id, W.Op>, ops': map<W.Id, W.Op>, id: W.Id) {
    && id in ops && ops' - {id} == ops - {id} && ops'.Keys <= ops.Keys
    && (id in ops' ==> ops'[id].phase.Submitting?)
  }

  ghost predicate OthersInStep(f: RR.Flight, bound: Binding, ops: map<W.Id, W.Op>, t: R.Task) {
    forall u :: u in bound && u != t ==> bound[u] in ops && InStep(f, u, ops[bound[u]])
  }

  lemma MovedLinks(f: RR.Flight, f': RR.Flight, bound: Binding, bs: nat, ops: map<W.Id, W.Op>, ops': map<W.Id, W.Op>, t: R.Task)
    requires Linked(f, bound, bs, ops) && t in bound && Moved(ops, ops', bound[t])
    requires f'.building + f'.inFlight.Keys == bound.Keys && f'.building !! f'.inFlight.Keys
    requires InStep(f', t, ops'[bound[t]]) && OthersInStep(f', bound, ops, t)
    ensures Linked(f', bound, bs, ops')
  {
  }

  lemma OthersLeft(ops: map<W.Id, W.Op>, ops': map<W.Id, W.Op>, id: W.Id, i: W.Id)
    requires Left(ops, ops', id) && i != id
    ensures (i in ops <==> i in ops') && (i in ops ==> ops'[i] == ops[i])
  {
    assert i in ops <==> i in ops - {id};
    assert i in ops' <==> i in ops' - {id};
    if i in ops { assert (ops' - {id})[i] == (ops - {id})[i]; }
  }

  lemma LeftLinks(f: RR.Flight, f': RR.Flight, bound: Binding, bs: nat, ops: map<W.Id, W.Op>, ops': map<W.Id, W.Op>, t: R.Task)
    requires Linked(f, bound, bs, ops) && t in bound && Left(ops, ops', bound[t])
    requires f'.building + f'.inFlight.Keys == bound.Keys - {t} && f'.building !! f'.inFlight.Keys
    requires OthersInStep(f', bound, ops, t)
    ensures Linked(f', bound - {t}, bs, ops')
  {
    var bound' := bound - {t};
    forall i | i in ops' && Free(bound', i) ensures ops'[i].phase.Submitting? {
      if i != bound[t] {
        forall u | u in bound ensures bound[u] != i {
          if u != t { assert bound'[u] == bound[u]; }
        }
        OthersLeft(ops, ops', bound[t], i);
      }
    }
    forall u | u in bound' ensures bound'[u] in ops' && ops'[bound'[u]] == ops[bound'[u]] {
      OthersLeft(ops, ops', bound[t], bound[u]);
    }
  }

  lemma LaunchLinks(f: RR.Flight, bound: Binding, bs: nat, ops: map<W.Id, W.Op>, id: W.Id, op: W.Op)
    requires Linked(f, bound, bs, ops) && id !in ops && op.phase.Submitting?
    ensures Linked(f, bound, bs, ops[id := op])
  {
  }

  lemma GiveUpLinks(f: RR.Flight, bound: Binding, bs: nat, ops: map<W.Id, W.Op>, id: W.Id)
    requires Linked(f, bound, bs, ops) && Free(bound, id)
    ensures Linked(f, bound, bs, ops - {id})
  {
  }

  // A labelled step of the ring enables the step of the request.
  lemma RequestEnabled(f: RR.Flight, f': RR.Flight, bound: Binding, w: W.World, l: RR.Label, ok: bool)
    requires Linked(f, bound, w.bs, w.ops) && RR.FlightStep(f, l, f')
    ensures !l.Silent? && !l.Started? ==> l.task in bound
    ensures var wa := RequestStep(bound, l, ok); wa.Some? ==> W.Enabled(w, wa.value)
  {
  }

  // What the step of one request does to the table of requests.
  lemma RequestEffect(w: W.World, disk0: Bytes, wa: W.Action)
    requires W.Inv(w, disk0) && W.Enabled(w, wa) && !wa.Launch?
    ensures var w' := A.Apply(w, disk0, wa);
            && w'.bs == w.bs
            && (wa.Accept? ==> Moved(w.ops, w'.ops, wa.id) && w'.ops[wa.id].phase.InFlight?)
            && (wa.Execute? ==> Moved(w.ops, w'.ops, wa.id) && w'.ops[wa.id].phase.Answered?)
            && (wa.Reject? || wa.Callback? ==> Left(w.ops, w'.ops, wa.id))
  {
    A.StepDefined(w, disk0, wa);
    if wa.Callback? { CallbackLeaves(w, wa.id); }
  }

  lemma CallbackLeaves(w: W.World, id: W.Id)
    requires w.bs > 0 && id in w.ops && w.ops[id].phase.Answered? && S.ValidRequest(|w.disk|, w.ops[id].req)
    requires S.ReplyFits(w.bs, |w.disk|, w.ops[id].req, w.ops[id].stage, w.ops[id].phase.reply)
    ensures Left(w.ops, W.ApplyCallback(w, id).ops, id)
  {
  }

  lemma FlightSets(f: RR.Flight, f': RR.Flight, l: RR.Label)
    requires RR.FlightStep(f, l, f') && !l.Silent? && !l.Started? && f.building !! f.inFlight.Keys
    ensures f'.building !! f'.inFlight.Keys
    ensures f'.building + f'.inFlight.Keys
            == f.building + f.inFlight.Keys - if l.Rejected? || l.Returned? then {l.task} else {}
  {
    match l
    case Accepted(t) => assert f'.inFlight.Keys == f.inFlight.Keys + {t};
    case Completed(t, _) => assert f'.inFlight.Keys == f.inFlight.Keys;
    case Returned(t, _) => assert f'.inFlight.Keys == f.inFlight.Keys - {t};
    case _ =>
  }

  lemma OtherStays(f: RR.Flight, f': RR.Flight, l: RR.Label, u: R.Task, op: W.Op)
    requires RR.FlightStep(f, l, f') && !l.Silent? && !l.Started? && u != l.task
    requires InStep(f, u, op)
    ensures InStep(f', u, op)
  {
  }

  lemma OthersStay(f: RR.Flight, f': RR.Flight, bound: Binding, bs: nat, ops: map<W.Id, W.Op>, l: RR.Label)
    requires Linked(f, bound, bs, ops) && RR.FlightStep(f, l, f')
    requires !l.Silent? && !l.Started?
    ensures OthersInStep(f', bound, ops, l.task)
  {
    forall u | u in bound && u != l.task ensures bound[u] in ops && InStep(f', u, ops[bound[u]]) {
      OtherStays(f, f', l, u, ops[bound[u]]);
    }
  }

  lemma RequestLinks(f: RR.Flight, f': RR.Flight, bound: Binding, w: W.World, disk0: Bytes, l: RR.Label, ok: bool)
    requires W.Inv(w, disk0) && Linked(f, bound, w.bs, w.ops) && RR.FlightStep(f, l, f')
    requires !l.Silent? && !l.Started?
    ensures l.task in bound && RequestStep(bound, l, ok).Some? && W.Enabled(w, RequestStep(bound, l, ok).value)
    ensures var w' := A.Apply(w, disk0, RequestStep(bound, l, ok).value);
            && w'.bs == w.bs
            && Linked(f', if l.Rejected? || l.Returned? then bound - {l.task} else bound, w.bs, w'.ops)
  {
    RequestEnabled(f, f', bound, w, l, ok);
    var wa := RequestStep(bound, l, ok).value;
    RequestEffect(w, disk0, wa);
    var ops' := A.Apply(w, disk0, wa).ops;
    FlightSets(f, f', l);
    OthersStay(f, f', bound, w.bs, w.ops, l);
    if l.Rejected? || l.Returned? {
      LeftLinks(f, f', bound, w.bs, w.ops, ops', l.task);
    } else {
      MovedLinks(f, f', bound, w.bs, w.ops, ops', l.task);
    }
  }

  lemma RingRefines(j: Joint, disk0: Bytes, ra: R.Action)
    requires Inv(j, disk0) && R.Enabled(j.ring, ra)
    ensures R.Inv(R.Apply(j.ring, ra))
    ensures RR.FlightStep(RR.FlightOf(j.ring.own), RR.LabelOf(j.ring, ra), RR.FlightOf(R.Apply(j.ring, ra).own))
    ensures RR.LabelOf(j.ring, ra).Started? ==> ra.Begin? && RR.LabelOf(j.ring, ra) == RR.Started(ra.task)
    ensures ra.Begin? ==> RR.LabelOf(j.ring, ra).Started?
    ensures ra.Complete? ==> RR.LabelOf(j.ring, ra).Completed?
  {
    RR.StepRefines(j.ring, ra);
  }

  ghost function Next(j: Joint, disk0: Bytes, a: Action): Joint
    requires Inv(j, disk0) && Enabled(j, a)
  {
    var ring' := match RingStep(a) case None => j.ring case Some(ra) => R.Apply(j.ring, ra);
    StepOfRequest(j, disk0, a);
    var world' := match WorldStep(j, a) case None => j.world case Some(wa) => A.Apply(j.world, disk0, wa);
    Joint(ring', world', Rebound(j, a), Rewritten(j, a))
  }

  lemma StepOfRequest(j: Joint, disk0: Bytes, a: Action)
    requires Inv(j, disk0) && Enabled(j, a)
    ensures WorldStep(j, a).Some? ==> W.Enabled(j.world, WorldStep(j, a).value)
  {
    var f := RR.FlightOf(j.ring.own);
    match a
    case Drive(step) =>
      RingRefines(j, disk0, step);
      RequestEnabled(f, RR.FlightOf(R.Apply(j.ring, step).own), j.bound, j.world, RR.LabelOf(j.ring, step), true);
    case Serve(h, len, ok, _) =>
      var ra := R.Complete(h, len);
      RingRefines(j, disk0, ra);
      RequestEnabled(f, RR.FlightOf(R.Apply(j.ring, ra).own), j.bound, j.world, RR.LabelOf(j.ring, ra), ok);
    case _ =>
  }

  lemma RingStepLinks(j: Joint, disk0: Bytes, ra: R.Action, ok: bool)
    requires Inv(j, disk0) && R.Enabled(j.ring, ra) && !ra.Begin?
    ensures var l := RR.LabelOf(j.ring, ra);
            var f' := RR.FlightOf(R.Apply(j.ring, ra).own);
            match RequestStep(j.bound, l, ok)
            case None => Linked(f', j.bound, j.world.bs, j.world.ops) && l.Silent?
            case Some(wa) =>
              && W.Enabled(j.world, wa)
              && var w' := A.Apply(j.world, disk0, wa);
                 && w'.bs == j.world.bs
                 && Linked(f', if l.Rejected? || l.Returned? then j.bound - {l.task} else j.bound, w'.bs, w'.ops)
  {
    RingRefines(j, disk0, ra);
    var l := RR.LabelOf(j.ring, ra);
    if !l.Silent? {
      RequestLinks(RR.FlightOf(j.ring.own), RR.FlightOf(R.Apply(j.ring, ra).own), j.bound, j.world, disk0, l, ok);
    }
  }

  lemma SubmitLinks(j: Joint, disk0: Bytes, p: R.Pid, id: W.Id, t: R.Task, filled: Memory)
    requires Inv(j, disk0) && Enabled(j, Submit(p, id, t, filled))
    ensures Linked(RR.FlightOf(R.Apply(j.ring, R.Begin(p, t)).own), j.bound[t := id], j.world.bs, j.world.ops)
  {
    RingRefines(j, disk0, R.Begin(p, t));
    StartedLinks(RR.FlightOf(j.ring.own), RR.FlightOf(R.Apply(j.ring, R.Begin(p, t)).own), j.bound, j.world.bs,
                 j.world.ops, t, id);
  }

  lemma RequestOnlyLinks(j: Joint, disk0: Bytes, wa: W.Action)
    requires Inv(j, disk0) && W.Enabled(j.world, wa)
    requires wa.Launch? || (wa.Reject? && Free(j.bound, wa.id))
    ensures Linked(RR.FlightOf(j.ring.own), j.bound, j.world.bs, A.Apply(j.world, disk0, wa).ops)
  {
    var f, w' := RR.FlightOf(j.ring.own), A.Apply(j.world, disk0, wa);
    if wa.Launch? {
      LaunchLinks(f, j.bound, j.world.bs, j.world.ops, wa.id, w'.ops[wa.id]);
    } else {
      GiveUpLinks(f, j.bound, j.world.bs, j.world.ops, wa.id);
    }
  }

  // The link survives every step.
  lemma StepLinks(j: Joint, disk0: Bytes, a: Action)
    requires Inv(j, disk0) && Enabled(j, a)
    ensures var j' := Next(j, disk0, a);
            Linked(RR.FlightOf(j'.ring.own), j'.bound, j'.world.bs, j'.world.ops)
  {
    match a
    case Launch(id, req) => RequestOnlyLinks(j, disk0, W.Launch(id, req));
    case GiveUp(id) => RequestOnlyLinks(j, disk0, W.Reject(id));
    case Submit(p, id, t, filled) => SubmitLinks(j, disk0, p, id, t, filled);
    case Drive(step) => DriveLinks(j, disk0, step);
    case Serve(h, len, ok, written) => ServeLinks(j, disk0, h, len, ok, written);
  }

  lemma DriveLinks(j: Joint, disk0: Bytes, step: R.Action)
    requires Inv(j, disk0) && Enabled(j, Drive(step))
    ensures var j' := Next(j, disk0, Drive(step));
            Linked(RR.FlightOf(j'.ring.own), j'.bound, j'.world.bs, j'.world.ops)
  {
    RingStepLinks(j, disk0, step, true);
    DriveNext(j, disk0, step);
  }

  lemma DriveNext(j: Joint, disk0: Bytes, step: R.Action)
    requires Inv(j, disk0) && Enabled(j, Drive(step))
    ensures var j', l := Next(j, disk0, Drive(step)), RR.LabelOf(j.ring, step);
            && j'.ring == R.Apply(j.ring, step)
            && j'.bound == (if l.Rejected? || l.Returned? then j.bound - {l.task} else j.bound)
            && match RequestStep(j.bound, l, true)
               case None => j'.world == j.world
               case Some(wa) => W.Enabled(j.world, wa) && j'.world == A.Apply(j.world, disk0, wa)
  {
    StepOfRequest(j, disk0, Drive(step));
  }

  lemma ServeLinks(j: Joint, disk0: Bytes, h: nat, len: nat, ok: bool, written: Memory)
    requires Inv(j, disk0) && Enabled(j, Serve(h, len, ok, written))
    ensures var j' := Next(j, disk0, Serve(h, len, ok, written));
            Linked(RR.FlightOf(j'.ring.own), j'.bound, j'.world.bs, j'.world.ops)
  {
    RingRefines(j, disk0, R.Complete(h, len));
    RingStepLinks(j, disk0, R.Complete(h, len), ok);
  }

  // Commands of requests that do not leave their stage stay.
  lemma CommandsOf(w: W.World, disk0: Bytes, wa: W.Action)
    requires W.Inv(w, disk0) && W.Enabled(w, wa)
    ensures var w' := A.Apply(w, disk0, wa);
            && w'.bs == w.bs
            && forall i :: i in w.ops && (i != wa.id || wa.Accept? || wa.Execute?) ==> i in w'.ops && w'.ops[i].cmd == w.ops[i].cmd
  {
    if !wa.Launch? {
      RequestEffect(w, disk0, wa);
      A.Progresses(w, disk0, wa);
    }
  }

  // A request that moves to another command has no task that stays on the ring.
  lemma LeaverUnbound(j: Joint, disk0: Bytes, a: Action, u: R.Task)
    requires Inv(j, disk0) && Enabled(j, a) && WorldStep(j, a).Some? && u in j.bound && u in Rebound(j, a)
    requires !WorldStep(j, a).value.Accept? && !WorldStep(j, a).value.Execute?
    ensures j.bound[u] != WorldStep(j, a).value.id
  {
    match a
    case Drive(step) => RingRefines(j, disk0, step);
    case Serve(h, len, _, _) => RingRefines(j, disk0, R.Complete(h, len));
    case _ =>
  }

  // A task on the ring keeps its command.
  lemma CommandStays(j: Joint, disk0: Bytes, a: Action, u: R.Task)
    requires Inv(j, disk0) && Enabled(j, a) && u in j.bound && u in Rebound(j, a)
    ensures var w' := Next(j, disk0, a).world;
            && w'.bs == j.world.bs
            && j.bound[u] in w'.ops && w'.ops[j.bound[u]].cmd == j.world.ops[j.bound[u]].cmd
  {
    StepOfRequest(j, disk0, a);
    if WorldStep(j, a).Some? {
      CommandMoves(j, disk0, a, u, WorldStep(j, a).value);
      NextWorld(j, disk0, a, WorldStep(j, a).value);
    }
  }

  lemma CommandMoves(j: Joint, disk0: Bytes, a: Action, u: R.Task, wa: W.Action)
    requires Inv(j, disk0) && Enabled(j, a) && u in j.bound && u in Rebound(j, a)
    requires WorldStep(j, a) == Some(wa) && W.Enabled(j.world, wa)
    ensures var w' := A.Apply(j.world, disk0, wa);
            && w'.bs == j.world.bs
            && j.bound[u] in w'.ops && w'.ops[j.bound[u]].cmd == j.world.ops[j.bound[u]].cmd
  {
    CommandsOf(j.world, disk0, wa);
    if !wa.Accept? && !wa.Execute? { LeaverUnbound(j, disk0, a, u); }
  }

  // The chain that the device follows is that of the task, and shows its buffers.
  lemma ChainShows(s: R.Sys, h: nat)
    requires R.Inv(s) && h in s.dev.held
    ensures h < |s.ring.tasks| && s.ring.tasks[h].Some? && s.ring.tasks[h].value in s.own
    ensures ChainViews(s.ring, h) == Views(s.ring.tasks[h].value)
  {
    var t := s.ring.tasks[h].value;
    assert R.StatusOk(s, t);
    RP.ChainOwnership(s, t);
    assert s.ring.vringIdx[t] == h;
    DescribedShow(s.ring, h, RP.Follow(s.ring.desc, h, s.ring.num), t);
  }

  lemma DescribedShow(ring: R.Ring, h: nat, chain: seq<nat>, t: R.Task)
    requires chain == RP.Follow(ring.desc, h, ring.num) && |chain| == |t.vbufs|
    requires forall k :: 0 <= k < |chain| ==>
               && chain[k] < |ring.desc| && ring.desc[chain[k]].addr == t.vbufs[k].addr
               && ring.desc[chain[k]].len == t.vbufs[k].size % R.LENGTH_SPAN
               && ring.desc[chain[k]].write == t.vbufs[k].response
    ensures ChainViews(ring, h) == Views(t)
  {
  }

  // What the device writes, and what is filled in for a new task, tells the others nothing new.
  lemma StillTold(j: Joint, a: Action, u: R.Task)
    requires a.Submit? ==> a.filled.Keys !! Addrs(Views(u), false)
    requires a.Serve? ==> a.written.Keys !! Addrs(Views(u), false)
    ensures Decoded(j.world.bs, Rewritten(j, a), Views(u)) == Decoded(j.world.bs, j.memory, Views(u))
  {
    match a
    case Submit(_, _, _, filled) => SameDecoded(j.world.bs, j.memory, filled, Views(u));
    case Serve(h, _, _, written) => SameDecoded(j.world.bs, j.memory, written, Views(u));
    case _ =>
  }

  // What the device may write along a chain is read for no task.
  lemma WrittenApart(j: Joint, disk0: Bytes, h: nat, written: Memory, u: R.Task)
    requires Inv(j, disk0) && h in j.ring.dev.held && MayWrite(j, h, written) && u in j.bound
    ensures written.Keys !! Addrs(Views(u), false)
  {
    HeldIsBound(j, disk0, h);
    assert Ask(Topic.Buffers, 0);
    assert Apart(j.ring.ring.tasks[h].value, u);
  }

  lemma BoundTold(j: Joint, disk0: Bytes, a: Action, u: R.Task)
    requires Inv(j, disk0) && Enabled(j, a) && u in Rebound(j, a)
    ensures var w' := Next(j, disk0, a).world;
            && Rebound(j, a)[u] in w'.ops
            && Decoded(w'.bs, Rewritten(j, a), Views(u)) == Some(w'.ops[Rebound(j, a)[u]].cmd)
  {
    if u in j.bound && !(a.Submit? && u == a.task) {
      CommandStays(j, disk0, a, u);
      if a.Serve? { WrittenApart(j, disk0, a.head, a.written, u); }
      ToldBefore(j, disk0, a, u);
      StillTold(j, a, u);
    } else {
      NewTold(j, disk0, a, u);
    }
  }

  lemma NewTold(j: Joint, disk0: Bytes, a: Action, u: R.Task)
    requires Inv(j, disk0) && Enabled(j, a) && a.Submit? && u == a.task
    ensures var w' := Next(j, disk0, a).world;
            && u in Rebound(j, a) && Rebound(j, a)[u] in w'.ops
            && Decoded(w'.bs, Rewritten(j, a), Views(u)) == Some(w'.ops[Rebound(j, a)[u]].cmd)
  {
    assert Ask(Topic.Buffers, 0);
    assert WorldStep(j, a) == None;
  }

  lemma ToldBefore(j: Joint, disk0: Bytes, a: Action, u: R.Task)
    requires Inv(j, disk0) && Enabled(j, a) && u in j.bound
    ensures j.bound[u] in j.world.ops && Decoded(j.world.bs, j.memory, Views(u)) == Some(j.world.ops[j.bound[u]].cmd)
    ensures a.Submit? ==> a.filled.Keys !! Addrs(Views(u), false)
  {
    assert Ask(Topic.Buffers, 0);
  }

  lemma StepTells(j: Joint, disk0: Bytes, a: Action)
    requires Inv(j, disk0) && Enabled(j, a)
    ensures var j' := Next(j, disk0, a); Told(j'.memory, j'.bound, j'.world.bs, j'.world.ops)
  {
    forall u | u in Rebound(j, a)
      ensures var w' := Next(j, disk0, a).world;
              && Rebound(j, a)[u] in w'.ops
              && Decoded(w'.bs, Rewritten(j, a), Views(u)) == Some(w'.ops[Rebound(j, a)[u]].cmd)
    {
      BoundTold(j, disk0, a, u);
    }
    ReboundApart(j, disk0, a);
  }

  lemma ReboundApart(j: Joint, disk0: Bytes, a: Action)
    requires Inv(j, disk0) && Enabled(j, a)
    ensures forall t, u :: t in Rebound(j, a) && u in Rebound(j, a) ==> Apart(t, u)
  {
    assert Ask(Topic.Buffers, 0);
  }

  lemma HeldIsBound(j: Joint, disk0: Bytes, h: nat)
    requires Inv(j, disk0) && h in j.ring.dev.held
    ensures h < |j.ring.ring.tasks| && j.ring.ring.tasks[h].Some? && j.ring.ring.tasks[h].value in j.bound
    ensures ChainViews(j.ring.ring, h) == Views(j.ring.ring.tasks[h].value)
  {
    ChainShows(j.ring, h);
    var t := j.ring.ring.tasks[h].value;
    assert t in RR.FlightOf(j.ring.own).inFlight;
  }

  // The request behind a chain head that the device holds.
  lemma HeldRequest(j: Joint, disk0: Bytes, h: nat) returns (t: R.Task, id: W.Id)
    requires Inv(j, disk0) && h in j.ring.dev.held
    ensures h < |j.ring.ring.tasks| && j.ring.ring.tasks[h] == Some(t) && t in j.bound && j.bound[t] == id
    ensures id in j.world.ops && j.world.ops[id].phase.InFlight?
    ensures Decoded(j.world.bs, j.memory, ChainViews(j.ring.ring, h)) == Some(j.world.ops[id].cmd)
  {
    HeldIsBound(j, disk0, h);
    t := j.ring.ring.tasks[h].value;
    id := j.bound[t];
    assert Ask(Topic.Buffers, 0);
    assert InStep(RR.FlightOf(j.ring.own), t, j.world.ops[id]);
    assert RR.FlightOf(j.ring.own).inFlight[t] == None;
  }

  lemma ServeExecutes(j: Joint, disk0: Bytes, h: nat, len: nat, ok: bool, written: Memory) returns (id: W.Id)
    requires Inv(j, disk0) && Enabled(j, Serve(h, len, ok, written))
    ensures id in j.world.ops && W.Enabled(j.world, W.Execute(id, ok))
    ensures Decoded(j.world.bs, j.memory, ChainViews(j.ring.ring, h)) == Some(j.world.ops[id].cmd)
    ensures Next(j, disk0, Serve(h, len, ok, written)).world == A.Apply(j.world, disk0, W.Execute(id, ok))
  {
    var t;
    t, id := HeldRequest(j, disk0, h);
    ServeIs(j, t, h, len, ok, written);
    NextWorld(j, disk0, Serve(h, len, ok, written), W.Execute(id, ok));
  }

  lemma ServeIs(j: Joint, t: R.Task, h: nat, len: nat, ok: bool, written: Memory)
    requires R.Inv(j.ring) && Enabled(j, Serve(h, len, ok, written))
    requires h < |j.ring.ring.tasks| && j.ring.ring.tasks[h] == Some(t) && t in j.bound
    ensures WorldStep(j, Serve(h, len, ok, written)) == Some(W.Execute(j.bound[t], ok))
  {
  }

  lemma NextWorld(j: Joint, disk0: Bytes, a: Action, wa: W.Action)
    requires Inv(j, disk0) && Enabled(j, a) && WorldStep(j, a) == Some(wa) && W.Enabled(j.world, wa)
    ensures Next(j, disk0, a).world == A.Apply(j.world, disk0, wa)
  {
  }

  // The device executes what it decodes from the buffers that it reaches along the chain.
  lemma ServesDecoded(j: Joint, disk0: Bytes, h: nat, len: nat, ok: bool, written: Memory) returns (id: W.Id)
    requires Inv(j, disk0) && Enabled(j, Serve(h, len, ok, written))
    ensures var d := Decoded(j.world.bs, j.memory, ChainViews(j.ring.ring, h));
            var w, w' := j.world, Next(j, disk0, Serve(h, len, ok, written)).world;
            && id in w.ops && d.Some? && Fits(w.bs, w.disk, d.value)
            && w'.disk == (if ok then DiskAfter(w.bs, w.disk, d.value) else w.disk)
            && w'.ops == w.ops[id := w.ops[id].(phase := W.Answered(if ok then Some(DataOf(w.bs, w.disk, d.value)) else None))]
  {
    id := ServeExecutes(j, disk0, h, len, ok, written);
    A.ApplyIs(j.world, disk0, W.Execute(id, ok));
  }

  lemma StepKeeps(j: Joint, disk0: Bytes, a: Action)
    requires Inv(j, disk0) && Enabled(j, a)
    ensures Inv(Next(j, disk0, a), disk0)
  {
    StepLinks(j, disk0, a);
    StepTells(j, disk0, a);
    if RingStep(a).Some? { RR.StepKeepsInv(j.ring, RingStep(a).value); }
    StepOfRequest(j, disk0, a);
    if WorldStep(j, a).Some? { A.StepKeeps(j.world, disk0, WorldStep(j, a).value); }
  }

  // -------------------------------------------------------------------------
  // Whole runs
  // -------------------------------------------------------------------------

  // A new ring of num entries in front of a device with the given contents.
  function Start(num: nat, bs: nat, numBlocks: nat, disk: Bytes): Joint {
    Joint(RR.Fresh(num), A.Init(bs, numBlocks, disk), map[], map[])
  }

  lemma StartInv(num: nat, bs: nat, numBlocks: nat, disk: Bytes)
    requires 0 < num < R.INDEX_SPAN && R.INDEX_SPAN % num == 0
    requires bs > 0 && |disk| == bs * numBlocks
    ensures Inv(Start(num, bs, numBlocks, disk), disk)
  {
    RR.FreshInv(num);
    A.InitInv(bs, numBlocks, disk);
  }

  datatype Run = Run(states: seq<Joint>, acts: seq<Action>) {
    ghost function Last(): Joint
      requires states != []
    {
      states[|states| - 1]
    }
  }

  // The effect of an action is defined where the invariant holds, which is everywhere
  // (RunKeepsInv).
  ghost predicate Step(j: Joint, disk0: Bytes, a: Action, j': Joint) {
    Enabled(j, a) && (Inv(j, disk0) ==> j' == Next(j, disk0, a))
  }

  ghost predicate StepOf(r: Run, disk0: Bytes, i: nat)
    requires |r.states| == |r.acts| + 1 && i < |r.acts|
  {
    forall k {:trigger Ask(Topic.History, k)} :: Ask(Topic.History, k) ==>
      Step(r.states[i], disk0, r.acts[i], r.states[i + 1])
  }

  // A run that begins with a new ring of num entries in front of a device of numBlocks blocks.
  ghost predicate IsRun(r: Run, num: nat, bs: nat, numBlocks: nat, disk: Bytes) {
    && 0 < num < R.INDEX_SPAN && R.INDEX_SPAN % num == 0 && bs > 0 && |disk| == bs * numBlocks
    && |r.states| == |r.acts| + 1 && r.states[0] == Start(num, bs, numBlocks, disk)
    && forall i {:trigger StepOf(r, disk, i)} :: 0 <= i < |r.acts| ==> StepOf(r, disk, i)
  }

  lemma {:induction false} RunKeepsInv(r: Run, num: nat, bs: nat, numBlocks: nat, disk: Bytes, k: nat)
    requires IsRun(r, num, bs, numBlocks, disk) && k <= |r.acts|
    ensures Inv(r.states[k], disk)
  {
    if k == 0 {
      StartInv(num, bs, numBlocks, disk);
    } else {
      RunKeepsInv(r, num, bs, numBlocks, disk, k - 1);
      assert StepOf(r, disk, k - 1) && Ask(Topic.History, 0);
      StepKeeps(r.states[k - 1], disk, r.acts[k - 1]);
    }
  }

  ghost function Extend(r: Run, disk0: Bytes, a: Action): Run
    requires r.states != [] && Inv(r.Last(), disk0) && Enabled(r.Last(), a)
  {
    Run(r.states + [Next(r.Last(), disk0, a)], r.acts + [a])
  }

  // Every enabled action continues every run: the invariant never stands in the way.
  lemma RunExtended(r: Run, num: nat, bs: nat, numBlocks: nat, disk: Bytes, a: Action)
    requires IsRun(r, num, bs, numBlocks, disk) && Enabled(r.Last(), a)
    ensures Inv(r.Last(), disk) && IsRun(Extend(r, disk, a), num, bs, numBlocks, disk)
  {
    RunKeepsInv(r, num, bs, numBlocks, disk, |r.acts|);
    StepAppended(r, num, bs, numBlocks, disk, a, Next(r.Last(), disk, a));
  }

  lemma StepAppended(r: Run, num: nat, bs: nat, numBlocks: nat, disk: Bytes, a: Action, j': Joint)
    requires IsRun(r, num, bs, numBlocks, disk) && Step(r.Last(), disk, a, j')
    ensures IsRun(Run(r.states + [j'], r.acts + [a]), num, bs, numBlocks, disk)
  {
    var r' := Run(r.states + [j'], r.acts + [a]);
    forall i | 0 <= i < |r'.acts| ensures StepOf(r', disk, i) {
      if i < |r.acts| { SameStep(r, r', disk, i); }
    }
  }

  lemma SameStep(r: Run, r': Run, disk: Bytes, i: nat)
    requires |r.states| == |r.acts| + 1 && |r'.states| == |r'.acts| + 1 && i < |r.acts| && i < |r'.acts|
    requires r'.states[i] == r.states[i] && r'.acts[i] == r.acts[i] && r'.states[i + 1] == r.states[i + 1]
    requires forall k {:trigger StepOf(r, disk, k)} :: 0 <= k < |r.acts| ==> StepOf(r, disk, k)
    ensures StepOf(r', disk, i)
  {
    assert StepOf(r, disk, i);
  }

  // One joint step is one step of the ring or none, and one step of the requests or none.
  lemma StepProjects(j: Joint, a: Action, ring0: RR.Run, requests0: A.Run, num: nat, bs: nat, numBlocks: nat, disk: Bytes)
    returns (ring: RR.Run, requests: A.Run)
    requires Inv(j, disk) && Enabled(j, a)
    requires RR.IsRun(ring0, RR.Fresh(num)) && ring0.Last() == j.ring
    requires A.IsRun(requests0, bs, numBlocks, disk) && requests0.Last() == j.world
    ensures RR.IsRun(ring, RR.Fresh(num)) && ring.Last() == Next(j, disk, a).ring
    ensures A.IsRun(requests, bs, numBlocks, disk) && requests.Last() == Next(j, disk, a).world
  {
    ring := RingProjects(j, a, ring0, num, disk);
    requests := RequestsProject(j, a, requests0, bs, numBlocks, disk);
  }

  lemma RingProjects(j: Joint, a: Action, ring0: RR.Run, num: nat, disk: Bytes) returns (ring: RR.Run)
    requires Inv(j, disk) && Enabled(j, a) && RR.IsRun(ring0, RR.Fresh(num)) && ring0.Last() == j.ring
    ensures RR.IsRun(ring, RR.Fresh(num)) && ring.Last() == Next(j, disk, a).ring
  {
    ring := ring0;
    if RingStep(a).Some? {
      RR.RunExtended(ring, RR.Fresh(num), RingStep(a).value);
      ring := RR.Extend(ring, RingStep(a).value);
    }
  }

  lemma RequestsProject(j: Joint, a: Action, requests0: A.Run, bs: nat, numBlocks: nat, disk: Bytes) returns (requests: A.Run)
    requires Inv(j, disk) && Enabled(j, a)
    requires A.IsRun(requests0, bs, numBlocks, disk) && requests0.Last() == j.world
    ensures A.IsRun(requests, bs, numBlocks, disk) && requests.Last() == Next(j, disk, a).world
  {
    requests := requests0;
    StepOfRequest(j, disk, a);
    if WorldStep(j, a).Some? {
      var wa := WorldStep(j, a).value;
      A.RunExtended(requests, bs, numBlocks, disk, wa);
      NextWorld(j, disk, a, wa);
      requests := A.Run(requests.states + [A.Apply(j.world, disk, wa)], requests.acts + [wa]);
    }
  }

  lemma StepTaken(r: Run, num: nat, bs: nat, numBlocks: nat, disk: Bytes, k: nat)
    requires IsRun(r, num, bs, numBlocks, disk) && k < |r.acts|
    ensures Inv(r.states[k], disk) && Enabled(r.states[k], r.acts[k])
    ensures r.states[k + 1] == Next(r.states[k], disk, r.acts[k])
  {
    RunKeepsInv(r, num, bs, numBlocks, disk, k);
    assert StepOf(r, disk, k) && Ask(Topic.History, 0);
  }

  ghost predicate Projected(j: Joint, ring: RR.Run, requests: A.Run, num: nat, bs: nat, numBlocks: nat, disk: Bytes) {
    && RR.IsRun(ring, RR.Fresh(num)) && ring.Last() == j.ring
    && A.IsRun(requests, bs, numBlocks, disk) && requests.Last() == j.world
  }

  lemma ProjectNext(r: Run, num: nat, bs: nat, numBlocks: nat, disk: Bytes, i: nat, ring0: RR.Run, requests0: A.Run)
    returns (ring: RR.Run, requests: A.Run)
    requires IsRun(r, num, bs, numBlocks, disk) && i < |r.acts|
    requires Projected(r.states[i], ring0, requests0, num, bs, numBlocks, disk)
    ensures Projected(r.states[i + 1], ring, requests, num, bs, numBlocks, disk)
  {
    StepTaken(r, num, bs, numBlocks, disk, i);
    ring, requests := StepProjects(r.states[i], r.acts[i], ring0, requests0, num, bs, numBlocks, disk);
  }

  lemma ProjectStart(num: nat, bs: nat, numBlocks: nat, disk: Bytes) returns (ring: RR.Run, requests: A.Run)
    requires 0 < num < R.INDEX_SPAN && R.INDEX_SPAN % num == 0 && bs > 0 && |disk| == bs * numBlocks
    ensures Projected(Start(num, bs, numBlocks, disk), ring, requests, num, bs, numBlocks, disk)
  {
    RR.FreshInv(num);
    ring, requests := RR.Run([RR.Fresh(num)], []), A.Run([A.Init(bs, numBlocks, disk)], []);
  }

  // Seen from the ring alone, and from the requests alone, a joint run is a run.
  lemma {:induction false} RunProjects(r: Run, num: nat, bs: nat, numBlocks: nat, disk: Bytes, k: nat)
    returns (ring: RR.Run, requests: A.Run)
    requires IsRun(r, num, bs, numBlocks, disk) && k <= |r.acts|
    ensures Projected(r.states[k], ring, requests, num, bs, numBlocks, disk)
  {
    if k == 0 {
      ring, requests := ProjectStart(num, bs, numBlocks, disk);
    } else {
      var i := k - 1;
      var ring0, requests0 := RunProjects(r, num, bs, numBlocks, disk, i);
      ring, requests := ProjectNext(r, num, bs, numBlocks, disk, i, ring0, requests0);
    }
  }

  // -------------------------------------------------------------------------
  // Main results
  // -------------------------------------------------------------------------

  // A request that has left the caller and is not complete has exactly one task, on the
  // ring, in the matching state: no request is lost and none is worked on twice.
  lemma RequestHasItsTask(j: Joint, disk0: Bytes, id: W.Id)
    requires Inv(j, disk0) && id in j.world.ops && !j.world.ops[id].phase.Submitting?
    ensures exists t :: t in j.bound && j.bound[t] == id && t in j.ring.own && !RR.InBuild(j.ring.own[t].st)
    ensures forall t, u :: t in j.bound && u in j.bound && j.bound[t] == id && j.bound[u] == id ==> t == u
  {
    assert !Free(j.bound, id);
    var t :| t in j.bound && j.bound[t] == id;
    assert t in RR.FlightOf(j.ring.own).inFlight;
  }

  // Polling until the ring looks empty runs the callback of every completed command.
  lemma PolledToEmpty(j: Joint, disk0: Bytes)
    requires Inv(j, disk0) && j.ring.cons.Waiting? && R.PollSeesEmpty(j.ring.ring)
    ensures forall id :: id in j.world.ops ==> !j.world.ops[id].phase.Answered?
  {
    var f := RR.FlightOf(j.ring.own);
    forall t | t in j.ring.own ensures 2 <= |t.vbufs| {
      assert t in f.building + f.inFlight.Keys;
    }
    RP.DrainedWhenEmpty(j.ring);
    forall id | id in j.world.ops ensures !j.world.ops[id].phase.Answered? {
      if !Free(j.bound, id) {
        var t :| t in j.bound && j.bound[t] == id;
        assert InStep(f, t, j.world.ops[id]);
      }
    }
  }

  // The whole path, from virtio_submit through the ring to the output ring, whatever the
  // schedule and the failures: the disk is the sequential effect of the completions, each
  // completion reports exactly its share of it, and every accepted request completes once.
  lemma EndToEnd(r: Run, num: nat, bs: nat, numBlocks: nat, disk: Bytes)
    requires IsRun(r, num, bs, numBlocks, disk)
    ensures var j := r.Last();
            var w := j.world;
            && W.LogOk(disk, w.log)
            && (w.ops == map[] ==> w.disk == W.Replay(disk, w.log))
            && (forall id :: A.Completions(w.log, id) == if id in w.accepted && id !in w.ops then 1 else 0)
            && (j.ring.own == map[] && (forall id :: id in w.ops ==> !w.ops[id].phase.Submitting?) ==> w.ops == map[])
  {
    var j := r.Last();
    RunKeepsInv(r, num, bs, numBlocks, disk, |r.acts|);
    var ring, requests := RunProjects(r, num, bs, numBlocks, disk, |r.acts|);
    A.Serializable(requests, bs, numBlocks, disk);
    forall id ensures A.Completions(j.world.log, id) == if id in j.world.accepted && id !in j.world.ops then 1 else 0 {
      A.CompletedExactlyOnce(requests, bs, numBlocks, disk, id);
    }
    if j.ring.own == map[] && forall id :: id in j.world.ops ==> !j.world.ops[id].phase.Submitting? {
      forall id | id in j.world.ops ensures false { RequestHasItsTask(j, disk, id); }
    }
  }

  // In every run, whatever the device completes is the execution of the command that it decodes
  // from memory along the chain.
  lemma EveryServeDecodes(r: Run, num: nat, bs: nat, numBlocks: nat, disk: Bytes, k: nat)
    requires IsRun(r, num, bs, numBlocks, disk) && k < |r.acts| && r.acts[k].Serve?
    ensures var j, j' := r.states[k], r.states[k + 1];
            var d := Decoded(bs, j.memory, ChainViews(j.ring.ring, r.acts[k].head));
            && d.Some? && Fits(bs, j.world.disk, d.value)
            && j'.world.disk == if r.acts[k].ok then DiskAfter(bs, j.world.disk, d.value) else j.world.disk
  {
    StepTaken(r, num, bs, numBlocks, disk, k);
    var ring, requests := RunProjects(r, num, bs, numBlocks, disk, k);
    BlockSizeStays(requests, bs, numBlocks, disk, |requests.acts|);
    var id := ServesDecoded(r.states[k], disk, r.acts[k].head, r.acts[k].len, r.acts[k].ok, r.acts[k].written);
  }

  lemma {:induction false} BlockSizeStays(r: A.Run, bs: nat, numBlocks: nat, disk: Bytes, k: nat)
    requires A.IsRun(r, bs, numBlocks, disk) && k <= |r.acts|
    ensures r.states[k].bs == bs
  {
    if k > 0 {
      BlockSizeStays(r, bs, numBlocks, disk, k - 1);
      A.RunKeepsInv(r, bs, numBlocks, disk, k - 1);
      assert A.StepOf(r, disk, k - 1);
      A.StepSizes(r.states[k - 1], disk, r.acts[k - 1]);
    }
  }
}
