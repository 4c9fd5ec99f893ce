/**
 The blocking submit: the submitter holds a mutex from before it puts the task on the ring
 until the wait on the condition variable releases it, and the callback signals under the
 same mutex.  Both the mutex and the condition live on the submitter's stack.
 */
module SubmitSync {
  datatype Submitter =
    | Start
    | Locked            // holds the mutex, about to put the task on the ring
    | Refused           // the ring was full, about to unlock
    | Accepted          // holds the mutex, about to wait
    | Waiting           // blocked on the condition, the mutex is released
    | Woken             // about to take the mutex again
    | Leaving           // holds the mutex, about to unlock
    | Returned(ok: bool)

  datatype Poller =
    | Polling           // has not seen the task
    | Called            // took the completed task, the callback is about to lock
    | Holding           // about to signal
    | Signalled         // about to unlock
    | Finished

  datatype Task = Nowhere | OnRing | Completed | TakenBack

  datatype Owner = Nobody | BySubmitter | ByPoller

  datatype State = State(sub: Submitter, poller: Poller, task: Task, mutex: Owner)

  datatype Action =
    | Submit(accept: bool)  // the next step of vring_submit_task_sync
    | Complete              // the device completes the task
    | Poll                  // the next step of the poller and the callback
    | Spurious              // the wait returns although nobody signalled

  predicate Enabled(s: State, a: Action) {
    match a
    case Submit(_) =>
      && !s.sub.Returned? && !s.sub.Waiting?
      && (s.sub.Start? || s.sub.Woken? ==> s.mutex.Nobody?)
    case Complete => s.task.OnRing?
    case Poll =>
      (match s.poller
       case Polling => s.task.Completed?
       case Called => s.mutex.Nobody?
       case Finished => false
       case _ => true)
    case Spurious => s.sub.Waiting?
  }

  function SubmitStep(s: State, accept: bool): State {
    match s.sub
    case Start => s.(sub := Locked, mutex := BySubmitter)
    case Locked => if accept then s.(sub := Accepted, task := OnRing) else s.(sub := Refused)
    case Refused => s.(sub := Returned(false), mutex := Nobody)
    case Accepted => s.(sub := Waiting, mutex := Nobody)
    case Waiting => s
    case Woken => s.(sub := Leaving, mutex := BySubmitter)
    case Leaving => s.(sub := Returned(true), mutex := Nobody)
    case Returned(_) => s
  }

  // A signal wakes a waiter; without one it has no effect.
  function PollStep(s: State): State {
    match s.poller
    case Polling => s.(poller := Called, task := TakenBack)
    case Called => s.(poller := Holding, mutex := ByPoller)
    case Holding => s.(poller := Signalled, sub := if s.sub.Waiting? then Woken else s.sub)
    case Signalled => s.(poller := Finished, mutex := Nobody)
    case Finished => s
  }

  function Apply(s: State, a: Action): State
    requires Enabled(s, a)
  {
    match a
    case Submit(accept) => SubmitStep(s, accept)
    case Complete => s.(task := Completed)
    case Poll => PollStep(s)
    case Spurious => s.(sub := Woken)
  }

  const INIT := State(Start, Poller.Polling, Nowhere, Nobody)

  // What every step keeps, a spurious wake-up included.
  predicate Inv(s: State) {
    && (s.mutex.BySubmitter? <==> s.sub.Locked? || s.sub.Refused? || s.sub.Accepted? || s.sub.Leaving?)
    && (s.mutex.ByPoller? <==> s.poller.Holding? || s.poller.Signalled?)
    && (s.task.Nowhere? <==> s.sub.Start? || s.sub.Locked? || s.sub.Refused? || s.sub == Returned(false))
    && (s.task.TakenBack? <==> !s.poller.Polling?)
    && (s.poller.Signalled? ==> s.sub.Woken? || s.sub == Returned(true))
    && (s.poller.Finished? ==> s.sub.Woken? || s.sub.Leaving? || s.sub == Returned(true))
  }

  // What holds besides as long as nobody woke the submitter before the callback had the mutex.
  predicate InOrder(s: State) {
    && (s.poller.Holding? ==> s.sub.Waiting? || s.sub.Woken?)
    && (s.sub.Woken? ==> s.poller.Holding? || s.poller.Signalled? || s.poller.Finished?)
    && (s.sub.Leaving? || s.sub == Returned(true) ==> s.poller.Finished?)
  }

  // A spurious wake-up before the callback has locked the mutex.
  predicate Early(s: State, a: Action) {
    a.Spurious? && !s.poller.Holding?
  }

  lemma StepKeeps(s: State, a: Action)
    requires Inv(s) && Enabled(s, a)
    ensures Inv(Apply(s, a))
    ensures InOrder(s) && !Early(s, a) ==> InOrder(Apply(s, a))
    ensures StepsLeft(Apply(s, a)) < StepsLeft(s)
  {
  }

  predicate IsRun(states: seq<State>, acts: seq<Action>) {
    && |states| == |acts| + 1 && states[0] == INIT
    && forall i :: 0 <= i < |acts| ==> Enabled(states[i], acts[i]) && states[i + 1] == Apply(states[i], acts[i])
  }

  predicate NoEarlyWakeUp(states: seq<State>, acts: seq<Action>)
    requires |states| == |acts| + 1
  {
    forall i :: 0 <= i < |acts| ==> !Early(states[i], acts[i])
  }

  predicate NoSpurious(acts: seq<Action>) {
    forall i :: 0 <= i < |acts| ==> !acts[i].Spurious?
  }

  lemma {:induction false} RunKeeps(states: seq<State>, acts: seq<Action>, k: nat)
    requires IsRun(states, acts) && k <= |acts|
    ensures Inv(states[k])
    ensures NoEarlyWakeUp(states, acts) ==> InOrder(states[k])
  {
    if k > 0 {
      RunKeeps(states, acts, k - 1);
      StepKeeps(states[k - 1], acts[k - 1]);
    }
  }

  // Without spurious wake-ups the signal never comes before the wait, so it is never lost.
  lemma {:induction false} SignalMeetsWaiter(states: seq<State>, acts: seq<Action>, k: nat)
    requires IsRun(states, acts) && NoSpurious(acts) && k <= |acts|
    ensures states[k].poller.Holding? ==> states[k].sub.Waiting?
    ensures states[k].sub.Woken? ==> states[k].poller.Signalled? || states[k].poller.Finished?
  {
    if k > 0 {
      RunKeeps(states, acts, k - 1);
      SignalMeetsWaiter(states, acts, k - 1);
      assert Enabled(states[k - 1], acts[k - 1]) && states[k] == Apply(states[k - 1], acts[k - 1]);
    }
  }

  // The hand-off is complete: the poller took the completed task and has left the callback, so
  // the result is there and nobody uses the submitter's mutex any more.
  predicate HandedOff(s: State) { s.task.TakenBack? && s.poller.Finished? }

  // As long as nobody woke the submitter early, success is returned only after the hand-off,
  // and failure only without a task on the ring.
  lemma HandOff(states: seq<State>, acts: seq<Action>)
    requires IsRun(states, acts) && NoEarlyWakeUp(states, acts)
    ensures var s := states[|acts|];
            && (s.sub == Returned(true) ==> HandedOff(s))
            && (s.sub == Returned(false) ==> s.task.Nowhere? && s.poller.Polling?)
  {
    RunKeeps(states, acts, |acts|);
  }

  // In step i the ring takes the task or refuses it.
  predicate Answered(states: seq<State>, acts: seq<Action>, i: nat, accept: bool)
    requires i < |states| && i < |acts|
  {
    states[i].sub.Locked? && acts[i] == Submit(accept)
  }

  // What is returned is the answer of the ring, which is asked once: failure if and only if the
  // ring refused the task.
  lemma {:induction false} ResultExact(states: seq<State>, acts: seq<Action>, m: nat)
    requires IsRun(states, acts) && m <= |acts|
    ensures var s := states[m].sub;
            && ((exists i :: 0 <= i < m && Answered(states, acts, i, false)) <==> s.Refused? || s == Returned(false))
            && ((exists i :: 0 <= i < m && Answered(states, acts, i, true)) <==>
                  s.Accepted? || s.Waiting? || s.Woken? || s.Leaving? || s == Returned(true))
  {
    if m > 0 {
      ResultExact(states, acts, m - 1);
      assert Enabled(states[m - 1], acts[m - 1]) && states[m] == Apply(states[m - 1], acts[m - 1]);
      if states[m - 1].sub.Locked? && acts[m - 1].Submit? {
        assert Answered(states, acts, m - 1, acts[m - 1].accept);
      }
      forall i, accept | 0 <= i < m && Answered(states, acts, i, accept)
        ensures accept <==> !states[m].sub.Refused? && states[m].sub != Returned(false)
      {
        assert i < m - 1 || states[m - 1].sub.Locked?;
      }
    }
  }

  // While the submitter leaves with the mutex, the callback cannot proceed.
  lemma {:induction false} LeavingFreezes(states: seq<State>, acts: seq<Action>, k: nat, m: nat)
    requires IsRun(states, acts) && k < m <= |acts|
    requires states[k].sub.Woken? && acts[k].Submit? && states[m].sub.Leaving?
    ensures states[m].poller.Finished? <==> states[k].poller.Finished?
    decreases m
  {
    assert states[k + 1] == Apply(states[k], acts[k]);
    if m > k + 1 {
      RunKeeps(states, acts, m - 1);
      assert Enabled(states[m - 1], acts[m - 1]) && states[m] == Apply(states[m - 1], acts[m - 1]);
      if states[m - 1].sub.Leaving? {
        LeavingFreezes(states, acts, k, m - 1);
      } else {
        WokenIsLeft(states, acts, k, m - 1);
      }
    }
  }

  // Having retaken the mutex, the submitter only leaves.
  lemma {:induction false} WokenIsLeft(states: seq<State>, acts: seq<Action>, k: nat, m: nat)
    requires IsRun(states, acts) && k < m <= |acts| && states[k].sub.Woken? && acts[k].Submit?
    ensures states[m].sub.Leaving? || states[m].sub == Returned(true)
    decreases m
  {
    assert states[m] == Apply(states[m - 1], acts[m - 1]);
    if m > k + 1 { WokenIsLeft(states, acts, k, m - 1); }
  }

  // The step at which the submitter that returns at step m has retaken the mutex.
  lemma {:induction false} Retaken(states: seq<State>, acts: seq<Action>, m: nat) returns (k: nat)
    requires IsRun(states, acts) && m <= |acts| && states[m].sub.Leaving?
    ensures k < m && states[k].sub.Woken? && acts[k].Submit?
  {
    assert m > 0;
    assert Enabled(states[m - 1], acts[m - 1]) && states[m] == Apply(states[m - 1], acts[m - 1]);
    if states[m - 1].sub.Leaving? { k := Retaken(states, acts, m - 1); } else { k := m - 1; }
  }

  // In every run, spurious wake-ups or not: success is returned after the hand-off exactly when
  // the submitter retook the mutex after the callback had taken and released it.  Otherwise it
  // was woken early.
  lemma HandOffExact(states: seq<State>, acts: seq<Action>, m: nat) returns (k: nat)
    requires IsRun(states, acts) && m < |acts|
    requires states[m].sub.Leaving? && acts[m].Submit?      // returns
    ensures states[m + 1].sub == Returned(true)
    ensures k < m && states[k].sub.Woken? && acts[k].Submit?        // retakes the mutex
    ensures HandedOff(states[m + 1]) <==> states[k].poller.Finished?
    ensures !HandedOff(states[m + 1]) ==> exists i :: 0 <= i < k && Early(states[i], acts[i])
  {
    k := Retaken(states, acts, m);
    LeavingFreezes(states, acts, k, m);
    RunKeeps(states, acts, m);
    RunKeeps(states, acts, k);
    assert states[m + 1] == Apply(states[m], acts[m]);
    if forall i :: 0 <= i < k ==> !Early(states[i], acts[i]) {
      var ss, aa := states[..k + 1], acts[..k];
      assert IsRun(ss, aa);
      RunKeeps(ss, aa, k);
      assert InOrder(states[k]) && states[k].poller.Finished?;
    }
  }

  // The run ends with an early return.
  predicate ReturnsTooSoon(states: seq<State>, acts: seq<Action>) {
    && IsRun(states, acts) && acts != []
    && states[|acts| - 1].sub.Leaving? && states[|acts|].sub == Returned(true) && !HandedOff(states[|acts|])
  }

  // The run can go on with a spurious wake-up, no other early one, and an early return.
  ghost predicate OneWakeUpBreaks(states: seq<State>, acts: seq<Action>)
    requires IsRun(states, acts)
  {
    exists ss: seq<State>, aa: seq<Action> ::
      && ReturnsTooSoon(states + ss, acts + aa)
      && |ss| == |aa| && aa != [] && aa[0].Spurious?
      && NoEarlyAfter(states + ss, acts + aa, |acts| + 1)
  }

  // Which spurious wake-ups can break the hand-off: exactly those that come before the callback
  // has locked the mutex.
  lemma EarlyWakeUpExact(states: seq<State>, acts: seq<Action>)
    requires IsRun(states, acts) && NoEarlyWakeUp(states, acts) && states[|acts|].sub.Waiting?
    ensures OneWakeUpBreaks(states, acts) <==> !states[|acts|].poller.Holding?
  {
    var s, n := states[|acts|], |acts|;
    RunKeeps(states, acts, n);
    if s.poller.Holding? {
      forall ss: seq<State>, aa: seq<Action>
        | ReturnsTooSoon(states + ss, acts + aa) && |ss| == |aa| && aa != [] && aa[0].Spurious?
          && NoEarlyAfter(states + ss, acts + aa, n + 1)
        ensures false
      {
        AllInOrder(states, acts, ss, aa);
        HandOff(states + ss, acts + aa);
      }
    } else {
      var ss, aa := EarlyReturn(states, acts);
      assert NoEarlyAfter(states + ss, acts + aa, n + 1) && ReturnsTooSoon(states + ss, acts + aa);
    }
  }

  predicate NoEarlyAfter(states: seq<State>, acts: seq<Action>, from: nat)
    requires |states| == |acts| + 1
  {
    forall i :: from <= i < |acts| ==> !Early(states[i], acts[i])
  }

  lemma AllInOrder(states: seq<State>, acts: seq<Action>, ss: seq<State>, aa: seq<Action>)
    requires IsRun(states, acts) && NoEarlyWakeUp(states, acts) && |ss| == |aa| && aa != [] && aa[0].Spurious?
    requires states[|acts|].poller.Holding? && NoEarlyAfter(states + ss, acts + aa, |acts| + 1)
    ensures NoEarlyWakeUp(states + ss, acts + aa)
  {
    forall i | 0 <= i < |acts + aa| ensures !Early((states + ss)[i], (acts + aa)[i]) {
      if i < |acts| {
        assert !Early(states[i], acts[i]);
      }
    }
  }

  // Woken before the callback has the mutex, the submitter can take it first and return.
  lemma EarlyReturn(states: seq<State>, acts: seq<Action>) returns (ss: seq<State>, aa: seq<Action>)
    requires IsRun(states, acts) && states[|acts|].sub.Waiting? && !states[|acts|].poller.Holding?
    ensures |ss| == |aa| == 3 && aa == [Spurious, Submit(true), Submit(true)]
    ensures ReturnsTooSoon(states + ss, acts + aa)
  {
    RunKeeps(states, acts, |acts|);
    var s := states[|acts|];
    var s1 := Apply(s, Spurious);
    var s2 := Apply(s1, Submit(true));
    var s3 := Apply(s2, Submit(true));
    ss, aa := [s1, s2, s3], [Spurious, Submit(true), Submit(true)];
    var xs, xa := states + ss, acts + aa;
    forall i | 0 <= i < |xa| ensures Enabled(xs[i], xa[i]) && xs[i + 1] == Apply(xs[i], xa[i]) {
      if i < |acts| { assert xs[i] == states[i] && xs[i + 1] == states[i + 1]; }
    }
  }

  // Nobody gets stuck: until the submitter has returned some step is possible, and each step
  // brings the hand-off closer to its end.
  function StepsLeft(s: State): nat {
    (match s.sub
     case Start => 7 case Locked => 6 case Refused => 5 case Accepted => 5 case Waiting => 4
     case Woken => 3 case Leaving => 2 case Returned(_) => 0)
    + (match s.poller case Polling => 4 case Called => 3 case Holding => 2 case Signalled => 1 case Finished => 0)
    + (match s.task case Nowhere => 3 case OnRing => 2 case Completed => 1 case TakenBack => 0)
  }

  lemma NeverStuck(states: seq<State>, acts: seq<Action>) returns (a: Action)
    requires IsRun(states, acts) && !states[|acts|].sub.Returned?
    ensures Enabled(states[|acts|], a) && !a.Spurious?
    ensures StepsLeft(Apply(states[|acts|], a)) < StepsLeft(states[|acts|])
  {
    RunKeeps(states, acts, |acts|);
    var s := states[|acts|];
    if s.sub.Waiting? || (s.sub.Woken? && s.mutex.ByPoller?) {
      a := if s.task.OnRing? then Complete else Poll;
    } else {
      a := Submit(true);
    }
  }
}
