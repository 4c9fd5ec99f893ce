/**
 Why vring_put_task fails.  With any number of producers, a task is rejected only after every
 slot of the ring was seen occupied since its producer last read the hint; losing a race for a
 slot is no reason.
 */
module VringSearch {
  import opened Common
  import opened VringProtocol
  import opened VringRefinement

  // Step j is a read of task_idx by producer p, which begins a search for a slot.
  ghost predicate ReadsHint(r: Run, p: Pid, j: nat)
    requires |r.states| == |r.acts| + 1
  {
    && j < |r.acts| && r.acts[j] == Put(p) && p in r.states[j].prod
    && r.states[j].prod[p].Next? && |r.states[j].prod[p].slots| < |r.states[j].prod[p].task.vbufs|
  }

  // The search that producer p is in before step k began at step j.
  ghost predicate SearchesSince(r: Run, p: Pid, j: nat, k: nat)
    requires |r.states| == |r.acts| + 1
  {
    j < k && ReadsHint(r, p, j) && forall i :: j < i < k ==> !ReadsHint(r, p, i)
  }

  // Slot x was occupied at some time from step j to step k.
  ghost predicate SeenFull(r: Run, x: nat, j: nat, k: nat) {
    exists m :: j <= m <= k < |r.states| && x < |r.states[m].ring.tasks| && r.states[m].ring.tasks[x].Some?
  }

  // From `saved` up to, but not including, `cur`, going round.
  predicate InTurn(saved: nat, cur: nat, x: nat) {
    if saved <= cur then saved <= x < cur else saved <= x || x < cur
  }

  lemma TurnGrows(num: nat, saved: nat, cur: nat, x: nat)
    requires saved < num && cur < num && x < num
    ensures var succ := (cur + 1) % num;
            if succ == saved then InTurn(saved, cur, x) || x == cur
            else InTurn(saved, succ, x) ==> InTurn(saved, cur, x) || x == cur
  {
    if cur + 1 == num { RemainderUnique(cur + 1, num, 1, 0); } else { RemainderUnique(cur + 1, num, 0, cur + 1); }
  }

  // What a producer that searches, or has given up, has seen since it read the hint.
  ghost predicate Knows(r: Run, p: Pid, j: nat, k: nat)
    requires k < |r.states| && p in r.states[k].prod
  {
    var q, num := r.states[k].prod[p], r.states[k].ring.num;
    if q.Undoing? then forall x: nat :: x < num ==> SeenFull(r, x, j, k)
    else if q.Scan? || q.Claiming? then forall x: nat :: x < num && InTurn(q.saved, q.cur, x) ==> SeenFull(r, x, j, k)
    else true
  }

  predicate Seeks(q: Producer) { q.Scan? || q.Claiming? || q.Undoing? }

  lemma SeenLater(r: Run, x: nat, j: nat, k: nat, later: nat)
    requires k <= later < |r.states| && SeenFull(r, x, j, k)
    ensures SeenFull(r, x, j, later)
  {
    var m :| j <= m <= k < |r.states| && x < |r.states[m].ring.tasks| && r.states[m].ring.tasks[x].Some?;
  }

  // How a producer moves in a search, with the slots as they are.
  ghost predicate Moves(q: Producer, q': Producer, tasks: seq<Option<Task>>) {
    && !q.Idle? && !q'.Idle? && q'.task == q.task
    && if q.Next? then |q.slots| < |q.task.vbufs| && q'.Scan? && q'.saved == q'.cur
       else if q.Scan? && q.cur < |tasks| && tasks[q.cur].Some? then
         && q.saved < |tasks|
         && if (q.cur + 1) % |tasks| == q.saved then q'.Undoing?
            else q'.Scan? && q'.saved == q.saved && q'.cur == (q.cur + 1) % |tasks|
       else if q.Undoing? then q'.Undoing?
       else (q.Scan? || q.Claiming?) && (q'.Scan? || q'.Claiming?) && q'.saved == q.saved && q'.cur == q.cur
  }

  lemma OwnStep(s: Sys, p: Pid)
    requires Inv(s) && Enabled(s, Put(p)) && Seeks(Apply(s, Put(p)).prod[p])
    ensures Moves(s.prod[p], Apply(s, Put(p)).prod[p], s.ring.tasks)
    ensures Apply(s, Put(p)).ring.num == s.ring.num == |s.ring.tasks|
  {
    assert ProducerOk(s, p);
  }

  // A step of another thread leaves the producer where it is.
  lemma OtherThreads(s: Sys, a: Action, p: Pid)
    requires Inv(s) && Enabled(s, a) && p in Apply(s, a).prod && Seeks(Apply(s, a).prod[p]) && a != Put(p)
    ensures p in s.prod && s.prod[p] == Apply(s, a).prod[p] && Apply(s, a).ring.num == s.ring.num
  {
    match a
    case Begin(_, _) =>
    case Put(o) => if !s.prod[o].Idle? { assert ProducerOk(s, o); }
    case _ =>
  }

  // The producer before step k, which leads it to where it seeks a slot.
  lemma BeforeStep(r: Run, num: nat, p: Pid, k: nat)
    requires IsRun(r, Fresh(num)) && k < |r.acts| && p in r.states[k + 1].prod && Seeks(r.states[k + 1].prod[p])
    ensures p in r.states[k].prod && r.states[k + 1].ring.num == r.states[k].ring.num == |r.states[k].ring.tasks|
    ensures if r.acts[k] == Put(p) then Moves(r.states[k].prod[p], r.states[k + 1].prod[p], r.states[k].ring.tasks)
            else r.states[k + 1].prod[p] == r.states[k].prod[p]
  {
    RunKeepsInv(r, Fresh(num), k);
    assert StepOf(r, k);
    if r.acts[k] == Put(p) { OwnStep(r.states[k], p); } else { OtherThreads(r.states[k], r.acts[k], p); }
  }

  lemma {:induction false} Track(r: Run, num: nat, p: Pid, k: nat) returns (j: nat)
    requires IsRun(r, Fresh(num)) && k <= |r.acts| && p in r.states[k].prod && Seeks(r.states[k].prod[p])
    ensures SearchesSince(r, p, j, k) && r.states[j].prod[p].task == r.states[k].prod[p].task && Knows(r, p, j, k)
  {
    assert k > 0;
    BeforeStep(r, num, p, k - 1);
    if r.acts[k - 1] == Put(p) && r.states[k - 1].prod[p].Next? {
      j := k - 1;
    } else {
      j := Track(r, num, p, k - 1);
      StillKnows(r, p, j, k - 1, k);
    }
  }

  lemma StillKnows(r: Run, p: Pid, j: nat, k: nat, next: nat)
    requires |r.states| == |r.acts| + 1 && j <= k < |r.acts| && next == k + 1
    requires p in r.states[k].prod && p in r.states[next].prod
    requires Knows(r, p, j, k) && Seeks(r.states[k].prod[p])
    requires r.states[next].ring.num == r.states[k].ring.num == |r.states[k].ring.tasks|
    requires r.states[next].prod[p] == r.states[k].prod[p]
             || Moves(r.states[k].prod[p], r.states[next].prod[p], r.states[k].ring.tasks)
    ensures Knows(r, p, j, next)
  {
    var q, q', tasks := r.states[k].prod[p], r.states[next].prod[p], r.states[k].ring.tasks;
    forall x: nat | x < |tasks| && (q'.Undoing? || ((q'.Scan? || q'.Claiming?) && InTurn(q'.saved, q'.cur, x)))
      ensures SeenFull(r, x, j, next)
    {
      if q' != q && q.Scan? && q.cur < |tasks| && tasks[q.cur].Some? {
        TurnGrows(|tasks|, q.saved, q.cur, x);
        assert SeenFull(r, q.cur, j, k);
      }
      SeenLater(r, x, j, k, next);
    }
  }

  // In every run from a new ring, whatever the other threads do: if step k rejects a task, each
  // slot was occupied at some time since the producer's last read of the hint.
  lemma RejectedOnlyWhenFull(r: Run, num: nat, k: nat) returns (p: Pid, j: nat)
    requires IsRun(r, Fresh(num)) && k < |r.acts| && Labels(r, Fresh(num))[k].Rejected?
    ensures r.acts[k] == Put(p) && SearchesSince(r, p, j, k)
    ensures r.states[j].prod[p].task == Labels(r, Fresh(num))[k].task
    ensures forall x: nat :: x < num ==> SeenFull(r, x, j, k)
  {
    RunKeepsInv(r, Fresh(num), k);
    assert StepOf(r, k);
    p := r.acts[k].p;
    j := Track(r, num, p, k);
    SizeStays(r, num, k);
  }

  lemma {:induction false} SizeStays(r: Run, num: nat, k: nat)
    requires IsRun(r, Fresh(num)) && k <= |r.acts|
    ensures r.states[k].ring.num == num
  {
    if k > 0 {
      SizeStays(r, num, k - 1);
      RunKeepsInv(r, Fresh(num), k - 1);
      assert StepOf(r, k - 1);
    }
  }
}
