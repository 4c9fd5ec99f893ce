/**
 What a thread does when it runs on its own: whatever the others have left behind, a lost race
 included, vring_put_task comes to an end or waits for a producer that has reserved an earlier
 position; vring_get_task comes to an end.
 */
module VringProgress {
  import opened Common
  import opened VringProtocol
  import opened VringInvariant
  import opened VringRefinement

  // Slots to look at until the search is back where it began.
  function Unseen(num: nat, saved: nat, cur: nat): nat
    requires saved < num && cur < num
  {
    if cur < saved then saved - cur else saved + num - cur
  }

  lemma UnseenShrinks(num: nat, saved: nat, cur: nat)
    requires saved < num && cur < num
    ensures var succ := (cur + 1) % num;
            succ < num && (succ != saved ==> Unseen(num, saved, succ) < Unseen(num, saved, cur))
  {
    if cur + 1 == num { RemainderUnique(cur + 1, num, 1, 0); } else { RemainderUnique(cur + 1, num, 0, cur + 1); }
  }

  // How far vring_put_task is: buffers and phases that remain, then steps of the phase.
  ghost function Phase(q: Producer): nat
    requires !q.Idle?
  {
    match q
    case Next(t, slots) => 5 + Unplaced(q)
    case Scan(t, slots, _, _) => 4 + Unplaced(q)
    case Claiming(t, slots, _, _) => 4 + Unplaced(q)
    case Filling(t, slots) => 6 + Unplaced(q)
    case Flushing(_, _) => 4
    case Reserving(_, _, _) => 4
    case Writing(_, _, _) => 3
    case Publishing(_, _, _) => 2
    case Undoing(_, _) => 1
  }

  ghost function Unplaced(q: Producer): nat
    requires !q.Idle?
  {
    if |q.slots| < |q.task.vbufs| then 3 * (|q.task.vbufs| - |q.slots|) else 0
  }

  ghost function Steps(s: Sys, p: Pid): nat
    requires Inv(s) && p in s.prod && !s.prod[p].Idle?
  {
    assert ProducerOk(s, p);
    var q := s.prod[p];
    if q.Scan? then 2 * Unseen(s.ring.num, q.saved, q.cur) + 1
    else if q.Claiming? then 2 * Unseen(s.ring.num, q.saved, q.cur) + (if s.ring.tasks[q.cur].None? then 0 else 2)
    else if q.Flushing? then 1
    else if q.Reserving? then if s.ring.lastAvailIdx == q.idx then 0 else 2
    else if q.Undoing? then |q.slots|
    else 0
  }

  // The producer is done, or its position is not the next to be published.
  ghost predicate Ended(s: Sys, p: Pid) {
    p in s.prod && (s.prod[p].Idle? || (s.prod[p].Publishing? && s.prod[p].pos != s.published))
  }

  // The producer is nearer to its end in s' than in s.
  ghost predicate Nearer(s: Sys, s': Sys, p: Pid)
    requires Inv(s) && Inv(s') && p in s.prod && !s.prod[p].Idle?
  {
    && p in s'.prod
    && (s'.prod[p].Idle? || Phase(s'.prod[p]) < Phase(s.prod[p])
        || (Phase(s'.prod[p]) == Phase(s.prod[p]) && Steps(s', p) < Steps(s, p)))
  }

  lemma ProbeAdvances(s: Sys, p: Pid)
    requires p in s.prod && s.prod[p].Scan? && Inv(s) && Inv(ApplyPut(s, p))
    ensures Nearer(s, ApplyPut(s, p), p)
  {
    assert ProducerOk(s, p);
    UnseenShrinks(s.ring.num, s.prod[p].saved, s.prod[p].cur);
  }

  lemma ClaimAdvances(s: Sys, p: Pid)
    requires p in s.prod && s.prod[p].Claiming? && Inv(s) && Inv(ApplyPut(s, p))
    ensures Nearer(s, ApplyPut(s, p), p)
  {
    assert ProducerOk(s, p);
  }

  lemma ChainAdvances(s: Sys, p: Pid)
    requires p in s.prod && (s.prod[p].Next? || s.prod[p].Filling? || s.prod[p].Undoing?)
    requires Inv(s) && Inv(ApplyPut(s, p))
    ensures Nearer(s, ApplyPut(s, p), p)
  {
    assert ProducerOk(s, p);
  }

  lemma ReadAdvances(s: Sys, p: Pid)
    requires p in s.prod && s.prod[p].Flushing? && Inv(s) && Inv(ApplyPut(s, p))
    ensures Nearer(s, ApplyPut(s, p), p)
  {
    assert ProducerOk(s, p);
  }

  lemma ReserveAdvances(s: Sys, p: Pid)
    requires p in s.prod && s.prod[p].Reserving? && Inv(s) && Inv(ApplyPut(s, p))
    ensures Nearer(s, ApplyPut(s, p), p)
  {
    assert ProducerOk(s, p);
  }

  lemma PublishAdvances(s: Sys, p: Pid)
    requires p in s.prod && (s.prod[p].Writing? || s.prod[p].Publishing?) && !Ended(s, p)
    requires Inv(s) && Inv(ApplyPut(s, p))
    ensures Nearer(s, ApplyPut(s, p), p)
  {
    assert ProducerOk(s, p);
  }

  // Unless it waits for its turn, each step of a producer brings it nearer to its end.
  lemma PutAdvances(s: Sys, p: Pid)
    requires Inv(s) && p in s.prod && !Ended(s, p)
    ensures Inv(ApplyPut(s, p)) && Nearer(s, ApplyPut(s, p), p)
  {
    PutKeepsInv(s, p);
    match s.prod[p]
    case Scan(_, _, _, _) => ProbeAdvances(s, p);
    case Claiming(_, _, _, _) => ClaimAdvances(s, p);
    case Next(_, _) => ChainAdvances(s, p);
    case Filling(_, _) => ChainAdvances(s, p);
    case Undoing(_, _) => ChainAdvances(s, p);
    case Flushing(_, _) => ReadAdvances(s, p);
    case Reserving(_, _, _) => ReserveAdvances(s, p);
    case _ => PublishAdvances(s, p);
  }

  lemma {:induction false} PutGoesOn(r: Run, s: Sys, p: Pid) returns (e: Run)
    requires IsRun(r, s) && p in r.Last().prod && forall i :: 0 <= i < |r.acts| ==> r.acts[i] == Put(p)
    ensures IsRun(e, s) && Ended(e.Last(), p) && forall i :: 0 <= i < |e.acts| ==> e.acts[i] == Put(p)
    decreases (if r.Last().prod[p].Idle? then 0 else Phase(r.Last().prod[p])),
              (RunKeepsInv(r, s, |r.acts|); if r.Last().prod[p].Idle? then 0 else Steps(r.Last(), p))
  {
    e := r;
    if !Ended(r.Last(), p) {
      RunExtended(r, s, Put(p));
      PutAdvances(r.Last(), p);
      e := PutGoesOn(Extend(r, Put(p)), s, p);
    }
  }

  // Running alone from any state, a producer ends or waits for its turn to publish.
  lemma PutEnds(s: Sys, p: Pid) returns (r: Run)
    requires Inv(s) && p in s.prod
    ensures IsRun(r, s) && Ended(r.Last(), p) && forall i :: 0 <= i < |r.acts| ==> r.acts[i] == Put(p)
  {
    r := PutGoesOn(Run([s], []), s, p);
  }

  lemma {:induction false} GetGoesOn(r: Run, s: Sys) returns (e: Run)
    requires IsRun(r, s) && forall i :: 0 <= i < |r.acts| ==> r.acts[i] == Get
    ensures IsRun(e, s) && e.Last().cons.Waiting? && forall i :: 0 <= i < |e.acts| ==> e.acts[i] == Get
    ensures e.Last().consumed == r.Last().consumed + if r.Last().cons.Waiting? then 0 else 1
    decreases !r.Last().cons.Waiting?,
              (RunKeepsInv(r, s, |r.acts|); if r.Last().cons.Waiting? then 0 else |r.Last().own[r.Last().cons.task].slots|)
  {
    e := r;
    RunKeepsInv(r, s, |r.acts|);
    if !r.Last().cons.Waiting? {
      RunExtended(r, s, Get);
      e := GetGoesOn(Extend(r, Get), s);
    }
  }

  // The walk over the chain of a task ends, and the task is returned.
  lemma GetEnds(s: Sys) returns (r: Run)
    requires Inv(s)
    ensures IsRun(r, s) && r.Last().cons.Waiting? && forall i :: 0 <= i < |r.acts| ==> r.acts[i] == Get
    ensures r.Last().consumed == s.consumed + if s.cons.Waiting? then 0 else 1
  {
    r := GetGoesOn(Run([s], []), s);
  }
}
