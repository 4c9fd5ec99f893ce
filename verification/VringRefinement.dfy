/**
 What the ring is for.  Whole runs of the driver and the device behave like a plain
 collection of tasks: a task that was accepted is in flight until it is returned, with
 the length that the device reported, and nothing else is ever returned.
 */
module VringRefinement {
  import opened Common
  import opened VringProtocol
  import opened VringInvariant

  lemma StepKeepsInv(s: Sys, a: Action)
    requires Inv(s) && Enabled(s, a)
    ensures Inv(Apply(s, a))
  {
    match a
    case Begin(p, t) => BeginKeeps(s, p, t);
    case Put(p) => PutKeepsInv(s, p);
    case Get =>
      if s.cons.Waiting? { PollKeeps(s); }
      else if s.cons.Walking? { ReleaseKeeps(s); }
      else { RetireKeeps(s); }
    case Take => TakeKeeps(s);
    case Complete(h, len) => CompleteKeeps(s, h, len);
  }

  lemma PutKeepsInv(s: Sys, p: Pid)
    requires Inv(s) && p in s.prod
    ensures Inv(ApplyPut(s, p))
  {
    match s.prod[p]
    case Idle =>
    case Next(_, _) => NextBufferKeeps(s, p);
    case Scan(_, _, _, _) => ProbeKeeps(s, p);
    case Claiming(_, _, _, _) => ClaimKeeps(s, p);
    case Filling(_, _) => FillKeeps(s, p);
    case Undoing(_, _) => UndoKeeps(s, p);
    case Flushing(_, _) => ReadAvailIdxKeeps(s, p);
    case Reserving(_, _, _) => ReserveKeeps(s, p);
    case Writing(_, _, _) => WriteEntryKeeps(s, p);
    case Publishing(_, _, _) => PublishKeeps(s, p);
  }

  // A ring as vring_create leaves it.
  function Fresh(num: nat): Sys {
    Sys(Ring(num, seq(num, _ => None), 0, map[], seq(num, _ => Desc(0, 0, false, false, 0)),
             seq(num, _ => 0), 0, 0, seq(num, _ => UsedElem(0, 0)), 0, 0),
        map[], Waiting, Device(0, {}), 0, 0, 0, 0, 0, map[], [], [])
  }

  lemma FreshInv(num: nat)
    requires 0 < num < INDEX_SPAN && INDEX_SPAN % num == 0
    ensures Inv(Fresh(num))
  {
  }

  // -------------------------------------------------------------------------
  // The abstract system
  // -------------------------------------------------------------------------

  // A task is being put, or it is in flight: pending, or completed with a length.
  datatype Flight = Flight(building: set<Task>, inFlight: map<Task, Option<nat>>)

  datatype Label =
    | Silent
    | Started(task: Task)
    | Accepted(task: Task)             // vring_put_task will return 0
    | Rejected(task: Task)             // vring_put_task returns -1
    | Completed(task: Task, len: nat)  // by the device
    | Returned(task: Task, len: nat)   // by vring_get_task

  ghost predicate FlightStep(f: Flight, l: Label, f': Flight) {
    match l
    case Silent => f' == f
    case Started(t) =>
      && t !in f.building && t !in f.inFlight
      && f' == f.(building := f.building + {t})
    case Accepted(t) =>
      && t in f.building && t !in f.inFlight
      && f' == Flight(f.building - {t}, f.inFlight[t := None])
    case Rejected(t) =>
      && t in f.building
      && f' == f.(building := f.building - {t})
    case Completed(t, len) =>
      && t in f.inFlight && f.inFlight[t] == None
      && f' == f.(inFlight := f.inFlight[t := Some(len)])
    case Returned(t, len) =>
      && t in f.inFlight && f.inFlight[t] == Some(len)
      && f' == f.(inFlight := f.inFlight - {t})
  }

  ghost predicate InBuild(st: Status) { st.Building? || st.Reserved? }

  ghost function LengthOf(st: Status): Option<nat> {
    match st
    case Used(_, len) => Some(len)
    case Returning(len) => Some(len)
    case _ => None
  }

  ghost function FlightOf(own: map<Task, Own>): Flight {
    Flight(set t | t in own && InBuild(own[t].st),
           map t | t in own && !InBuild(own[t].st) :: LengthOf(own[t].st))
  }

  ghost function LabelOf(s: Sys, a: Action): Label
    requires Inv(s) && Enabled(s, a)
  {
    match a
    case Begin(p, t) => Started(t)
    case Put(p) =>
      var q := s.prod[p];
      if q.Undoing? && q.slots == [] then Rejected(q.task)
      else if q.Publishing? && s.ring.availIdx == q.pos % INDEX_SPAN then Accepted(q.task)
      else Silent
    case Get => if s.cons.Leaving? then Returned(s.cons.task, s.cons.len) else Silent
    case Take => Silent
    case Complete(h, len) => Completed(s.ring.tasks[h].value, len)
  }

  lemma StatusStep(own: map<Task, Own>, t: Task, o: Own)
    requires t in own
    requires InBuild(own[t].st) == InBuild(o.st) && LengthOf(own[t].st) == LengthOf(o.st)
    ensures FlightOf(own[t := o]) == FlightOf(own)
  {
  }

  lemma PutRefines(s: Sys, p: Pid)
    requires Inv(s) && Enabled(s, Put(p))
    ensures FlightStep(FlightOf(s.own), LabelOf(s, Put(p)), FlightOf(ApplyPut(s, p).own))
  {
    var q := s.prod[p];
    var t := q.task;
    assert ProducerOk(s, p);
    var s' := ApplyPut(s, p);
    if q.Claiming? && s.ring.tasks[q.cur].None? { StatusStep(s.own, t, s'.own[t]); }
    else if q.Undoing? {
      if q.slots != [] { StatusStep(s.own, t, s'.own[t]); }
    }
    else if q.Reserving? && s.ring.lastAvailIdx == q.idx { StatusStep(s.own, t, s'.own[t]); }
    else if q.Publishing? && s.ring.availIdx == q.pos % INDEX_SPAN {
      assert FlightOf(s'.own).building == FlightOf(s.own).building - {t};
      assert FlightOf(s'.own).inFlight == FlightOf(s.own).inFlight[t := None];
    }
  }

  lemma GetRefines(s: Sys)
    requires Inv(s)
    ensures FlightStep(FlightOf(s.own), LabelOf(s, Get), FlightOf(ApplyGet(s).own))
  {
    match s.cons
    case Waiting =>
      if !PollSeesEmpty(s.ring) {
        NextUsed(s);
        var t := s.done[s.consumed];
        StatusStep(s.own, t, ApplyPoll(s).own[t]);
      }
    case Walking(t, cur, len) => StatusStep(s.own, t, ApplyRelease(s).own[t]);
    case Leaving(t, len) =>
      assert FlightOf(s.own - {t}).building == FlightOf(s.own).building;
  }

  lemma DeviceRefines(s: Sys, a: Action)
    requires Inv(s) && Enabled(s, a) && (a.Take? || a.Complete?)
    ensures FlightStep(FlightOf(s.own), LabelOf(s, a), FlightOf(Apply(s, a).own))
  {
    if a.Take? {
      NextAvailable(s);
      var t := s.order[s.taken];
      StatusStep(s.own, t, Own(s.own[t].slots, Held));
    } else {
      var t := s.ring.tasks[a.head].value;
      assert FlightOf(Apply(s, a).own).building == FlightOf(s.own).building;
      assert FlightOf(Apply(s, a).own).inFlight == FlightOf(s.own).inFlight[t := Some(a.len)];
    }
  }

  // Each action of the concrete ring is a step (or no step) of the abstract system.
  lemma StepRefines(s: Sys, a: Action)
    requires Inv(s) && Enabled(s, a)
    ensures Inv(Apply(s, a))
    ensures FlightStep(FlightOf(s.own), LabelOf(s, a), FlightOf(Apply(s, a).own))
  {
    StepKeepsInv(s, a);
    match a
    case Begin(p, t) =>
      assert FlightOf(Apply(s, a).own).building == FlightOf(s.own).building + {t};
      assert FlightOf(Apply(s, a).own).inFlight == FlightOf(s.own).inFlight;
    case Put(p) => PutRefines(s, p);
    case Get => GetRefines(s);
    case _ => DeviceRefines(s, a);
  }

  // -------------------------------------------------------------------------
  // Whole runs
  // -------------------------------------------------------------------------

  datatype Run = Run(states: seq<Sys>, acts: seq<Action>) {
    ghost function Last(): Sys
      requires states != []
    {
      states[|states| - 1]
    }
  }

  // The effect of an action is defined where the invariant holds, which is everywhere
  // (RunKeepsInv).
  ghost predicate Step(s: Sys, a: Action, s': Sys) {
    Enabled(s, a) && (Inv(s) ==> s' == Apply(s, a))
  }

  ghost predicate StepOf(r: Run, i: nat)
    requires |r.states| == |r.acts| + 1 && i < |r.acts|
  {
    Step(r.states[i], r.acts[i], r.states[i + 1])
  }

  ghost predicate IsRun(r: Run, s: Sys) {
    && |r.states| == |r.acts| + 1 && r.states[0] == s && Inv(s)
    && forall i {:trigger StepOf(r, i)} :: 0 <= i < |r.acts| ==> StepOf(r, i)
  }

  lemma {:induction false} RunKeepsInv(r: Run, s: Sys, k: nat)
    requires IsRun(r, s) && k <= |r.acts|
    ensures Inv(r.states[k])
  {
    if k > 0 {
      RunKeepsInv(r, s, k - 1);
      assert StepOf(r, k - 1);
      StepKeepsInv(r.states[k - 1], r.acts[k - 1]);
    }
  }

  ghost function Extend(r: Run, a: Action): Run
    requires r.states != [] && Inv(r.Last()) && Enabled(r.Last(), a)
  {
    Run(r.states + [Apply(r.Last(), a)], r.acts + [a])
  }

  lemma StepAppended(r: Run, s: Sys, a: Action, s': Sys)
    requires IsRun(r, s) && Step(r.Last(), a, s')
    ensures IsRun(Run(r.states + [s'], r.acts + [a]), s)
  {
    var r' := Run(r.states + [s'], r.acts + [a]);
    forall i | 0 <= i < |r'.acts| ensures StepOf(r', i) {
      if i < |r.acts| { assert StepOf(r, i); }
    }
  }

  // Every enabled action continues every run: the invariant never stands in the way.
  lemma RunExtended(r: Run, s: Sys, a: Action)
    requires IsRun(r, s) && Enabled(r.Last(), a)
    ensures Inv(r.Last()) && Inv(Apply(r.Last(), a))
    ensures IsRun(Extend(r, a), s) && Extend(r, a).Last() == Apply(r.Last(), a)
  {
    RunKeepsInv(r, s, |r.acts|);
    StepKeepsInv(r.Last(), a);
    StepAppended(r, s, a, Apply(r.Last(), a));
  }

  ghost function Labels(r: Run, s: Sys): (ls: seq<Label>)
    requires IsRun(r, s)
    ensures |ls| == |r.acts|
  {
    seq(|r.acts|, i requires 0 <= i < |r.acts| =>
          assert StepOf(r, i); RunKeepsInv(r, s, i); LabelOf(r.states[i], r.acts[i]))
  }

  ghost function Flights(r: Run): seq<Flight> {
    seq(|r.states|, i requires 0 <= i < |r.states| => FlightOf(r.states[i].own))
  }

  ghost predicate FlightRun(fs: seq<Flight>, ls: seq<Label>) {
    |fs| == |ls| + 1 && forall i :: 0 <= i < |ls| ==> FlightStep(fs[i], ls[i], fs[i + 1])
  }

  lemma RunRefines(r: Run, s: Sys)
    requires IsRun(r, s)
    ensures FlightRun(Flights(r), Labels(r, s))
  {
    var fs, ls := Flights(r), Labels(r, s);
    forall i | 0 <= i < |ls| ensures FlightStep(fs[i], ls[i], fs[i + 1]) {
      assert StepOf(r, i);
      RunKeepsInv(r, s, i);
      StepRefines(r.states[i], r.acts[i]);
    }
  }

  function AcceptedCount(ls: seq<Label>, t: Task): nat {
    if ls == [] then 0
    else AcceptedCount(ls[..|ls| - 1], t) + (if ls[|ls| - 1] == Accepted(t) then 1 else 0)
  }

  function ReturnedCount(ls: seq<Label>, t: Task): nat {
    if ls == [] then 0
    else ReturnedCount(ls[..|ls| - 1], t) + (if ls[|ls| - 1].Returned? && ls[|ls| - 1].task == t then 1 else 0)
  }

  ghost function Outstanding(f: Flight, t: Task): nat {
    if t in f.inFlight then 1 else 0
  }

  // Accepted tasks are returned at most once each; exactly once when no longer in flight.
  lemma {:induction false} FlightCounts(fs: seq<Flight>, ls: seq<Label>, t: Task)
    requires FlightRun(fs, ls)
    ensures Outstanding(fs[0], t) + AcceptedCount(ls, t) == ReturnedCount(ls, t) + Outstanding(fs[|ls|], t)
  {
    if ls != [] {
      var n := |ls| - 1;
      FlightCounts(fs[..n + 1], ls[..n], t);
      assert FlightStep(fs[n], ls[n], fs[n + 1]);
    }
  }

  lemma ReturnedExactlyOnce(num: nat, r: Run, t: Task)
    requires IsRun(r, Fresh(num))
    ensures var ls := Labels(r, Fresh(num));
            ReturnedCount(ls, t) + Outstanding(FlightOf(r.Last().own), t) == AcceptedCount(ls, t)
  {
    RunRefines(r, Fresh(num));
    FlightCounts(Flights(r), Labels(r, Fresh(num)), t);
    assert FlightOf(Fresh(num).own).inFlight == map[];
  }
}
